/**
 * The drag-bounds computation of src/utils/dom.js: the box-size helpers `outerWidth`,
 * `outerHeight`, `innerWidth`, `innerHeight` and `getBoundPosition`. In the source all
 * of these sit inside a block comment, so this module models disabled reference code.
 *
 * Computed style values are taken as already parsed integers (the `int(...)` reads), the
 * candidate position (x, y) is a parameter, `cloneBounds` is the identity, and
 * `ownerDocument.querySelector` is an oracle from selector strings to resolved nodes.
 */
module DomBounds {
  import opened Wrappers

  /** The computed style values the helpers read, in pixels. */
  datatype Style = Style(
    marginTop: int, marginRight: int, marginBottom: int, marginLeft: int,
    borderTopWidth: int, borderRightWidth: int, borderBottomWidth: int, borderLeftWidth: int,
    paddingTop: int, paddingRight: int, paddingBottom: int, paddingLeft: int)

  /**
   * An HTML element's layout metrics: its client box (content plus padding), its offset
   * from its offset parent, and its computed style.
   */
  datatype Element = Element(
    clientWidth: int, clientHeight: int, offsetLeft: int, offsetTop: int, style: Style)

  /** What a `parentNode` read or a `querySelector` call gives back. */
  datatype Resolved =
    | NoNode                     // null
    | NotHtmlElement             // a node that is not an HTMLElement: the document, a text node, an SVG or MathML element
    | HtmlElement(element: Element)

  /** The dragged node together with its parentNode. */
  datatype Draggable = Draggable(node: Element, parentNode: Resolved)

  /** A rectangle of limits in node-local offset coordinates; an absent side does not constrain. */
  datatype Rect = Rect(left: Option<int>, top: Option<int>, right: Option<int>, bottom: Option<int>)

  /** The `bounds` argument: a string ("parent" or a selector) or an explicit rectangle. */
  datatype Bounds = Named(selector: string) | Explicit(rect: Rect)

  /** The error thrown when a string bound does not resolve to an HTMLElement. */
  datatype BoundsError = CouldNotFindElement(selector: string)

  /** Client height plus the top and bottom borders; margin is left out on purpose. */
  function OuterHeight(e: Element): int {
    e.clientHeight + e.style.borderTopWidth + e.style.borderBottomWidth
  }

  /** Client width plus the left and right borders; margin is left out on purpose. */
  function OuterWidth(e: Element): int {
    e.clientWidth + e.style.borderLeftWidth + e.style.borderRightWidth
  }

  /** Client height minus the top and bottom padding. */
  function InnerHeight(e: Element): int {
    e.clientHeight - e.style.paddingTop - e.style.paddingBottom
  }

  /** Client width minus the left and right padding. */
  function InnerWidth(e: Element): int {
    e.clientWidth - e.style.paddingLeft - e.style.paddingRight
  }

  /**
   * The outer and inner sizes differ from the client size by exactly the border and the
   * padding, and neither depends on the margin.
   */
  lemma BoxSizes(e: Element, margins: Style)
    requires margins.(marginTop := e.style.marginTop, marginRight := e.style.marginRight,
                      marginBottom := e.style.marginBottom, marginLeft := e.style.marginLeft) == e.style
    ensures OuterWidth(e) - e.clientWidth == e.style.borderLeftWidth + e.style.borderRightWidth
    ensures OuterHeight(e) - e.clientHeight == e.style.borderTopWidth + e.style.borderBottomWidth
    ensures e.clientWidth - InnerWidth(e) == e.style.paddingLeft + e.style.paddingRight
    ensures e.clientHeight - InnerHeight(e) == e.style.paddingTop + e.style.paddingBottom
    ensures OuterWidth(e.(style := margins)) == OuterWidth(e)
    ensures OuterHeight(e.(style := margins)) == OuterHeight(e)
    ensures InnerWidth(e.(style := margins)) == InnerWidth(e)
    ensures InnerHeight(e.(style := margins)) == InnerHeight(e)
  {
  }

  /** The limits for `node` inside the element `bound`, as the object literal computes them. */
  function Envelope(node: Element, bound: Element): Rect {
    Rect(
      left := Some(-node.offsetLeft + bound.style.paddingLeft + node.style.marginLeft),
      top := Some(-node.offsetTop + bound.style.paddingTop + node.style.marginTop),
      right := Some(InnerWidth(bound) - OuterWidth(node) - node.offsetLeft
                    + bound.style.paddingRight - node.style.marginRight),
      bottom := Some(InnerHeight(bound) - OuterHeight(node) - node.offsetTop
                     + bound.style.paddingBottom - node.style.marginBottom))
  }

  /**
   * What the envelope means for a position (x, y): the node's margin box, moved by (x, y)
   * from its offset, starts no earlier than the bound's left (top) padding, and ends no
   * later than the bound's client width (height) less its LEFT (TOP) padding, since
   * innerWidth(bound) + paddingRight == clientWidth - paddingLeft. The far limit sits at
   * the inner edge of the right (bottom) padding only when both paddings of an axis are equal.
   * The offsets are measured from the node's offsetParent, so this is a statement about the
   * bound's box only when the bound is that offsetParent.
   */
  lemma EnvelopeConfinesMarginBox(node: Element, bound: Element, x: int, y: int)
    ensures var r := Envelope(node, bound);
            r.left.Some? && r.top.Some? && r.right.Some? && r.bottom.Some? &&
            (x >= r.left.value <==>
               node.offsetLeft + x - node.style.marginLeft >= bound.style.paddingLeft) &&
            (x <= r.right.value <==>
               node.offsetLeft + x + OuterWidth(node) + node.style.marginRight
                 <= bound.clientWidth - bound.style.paddingLeft) &&
            (y >= r.top.value <==>
               node.offsetTop + y - node.style.marginTop >= bound.style.paddingTop) &&
            (y <= r.bottom.value <==>
               node.offsetTop + y + OuterHeight(node) + node.style.marginBottom
                 <= bound.clientHeight - bound.style.paddingTop)
  {
  }

  /**
   * The room left to move along each axis: the bound's inner size less the node's margin
   * box, corrected by the difference of the bound's two paddings on that axis.
   */
  lemma EnvelopeRoom(node: Element, bound: Element)
    ensures var r := Envelope(node, bound);
            r.right.value - r.left.value ==
              InnerWidth(bound) + bound.style.paddingRight - bound.style.paddingLeft
              - (node.style.marginLeft + OuterWidth(node) + node.style.marginRight) &&
            r.bottom.value - r.top.value ==
              InnerHeight(bound) + bound.style.paddingBottom - bound.style.paddingTop
              - (node.style.marginTop + OuterHeight(node) + node.style.marginBottom)
  {
  }

  /** A worked example: a 100x50 node at offset (10, 5) with 2px side margins in a 300px-wide parent. */
  lemma EnvelopeExample()
    ensures var zero := Style(0, 0, 0, 0, 0, 0, 0, 0, 0, 0, 0, 0);
            var node := Element(100, 50, 10, 5, zero.(marginLeft := 2, marginRight := 2));
            var parent := Element(300, 200, 0, 0, zero);
            var r := Envelope(node, parent);
            r.left == Some(-8) && r.right == Some(188) && r.top == Some(-5) && r.bottom == Some(145)
  {
  }

  /**
   * The node a string bound names: the parentNode for exactly "parent", the first match
   * of the selector in the document otherwise.
   */
  function BoundNode(d: Draggable, selector: string, querySelector: string -> Resolved): Resolved {
    if selector == "parent" then d.parentNode else querySelector(selector)
  }

  /**
   * The limits `getBoundPosition` clamps against: an explicit rectangle as given, a string
   * bound turned into the envelope of the node inside the resolved element, or an error
   * when the string does not resolve to an HTMLElement.
   */
  function ResolveBounds(d: Draggable, bounds: Bounds, querySelector: string -> Resolved)
    : (r: Result<Rect, BoundsError>)
    ensures bounds.Explicit? ==> r == Ok(bounds.rect)
    ensures bounds.Named? ==>
              (r.Err? <==> !BoundNode(d, bounds.selector, querySelector).HtmlElement?)
    ensures bounds.Named? && r.Err? ==> r.error == CouldNotFindElement(bounds.selector)
    ensures bounds.Named? && BoundNode(d, bounds.selector, querySelector).HtmlElement? ==>
              r == Ok(Envelope(d.node, BoundNode(d, bounds.selector, querySelector).element))
  {
    match bounds
    case Explicit(rect) => Ok(rect)
    case Named(selector) =>
      match BoundNode(d, selector, querySelector)
      case HtmlElement(b) => Ok(Envelope(d.node, b))
      case _ => Err(CouldNotFindElement(selector))
  }

  function Min(a: int, b: int): int { if a <= b then a else b }

  function Max(a: int, b: int): int { if a >= b then a else b }

  /**
   * One axis of the clamp: first kept at or below `hi` when it is present, then at or
   * above `lo` when it is present.
   */
  function ClampAxis(v: int, lo: Option<int>, hi: Option<int>): (r: int)
    ensures (lo.None? || lo.value <= v) && (hi.None? || v <= hi.value) ==> r == v
    ensures lo.Some? ==> r >= lo.value
    ensures hi.Some? && (lo.None? || lo.value <= hi.value) ==> r <= hi.value
    ensures lo.Some? && hi.Some? && lo.value > hi.value ==> r == lo.value
    ensures lo.Some? && v < lo.value ==> r == lo.value
    ensures hi.Some? && v > hi.value && (lo.None? || lo.value <= hi.value) ==> r == hi.value
  {
    var below := if hi.Some? then Min(v, hi.value) else v;
    if lo.Some? then Max(below, lo.value) else below
  }

  /** Within a well-formed interval the clamped value is the point of the interval nearest to v. */
  lemma ClampAxisIsNearest(v: int, lo: int, hi: int, w: int)
    requires lo <= hi && lo <= w <= hi
    ensures var r := ClampAxis(v, Some(lo), Some(hi));
            lo <= r <= hi && (if r >= v then r - v else v - r) <= (if w >= v then w - v else v - w)
  {
  }

  /** Clamping a clamped value changes nothing, even for a malformed interval. */
  lemma ClampAxisIdempotent(v: int, lo: Option<int>, hi: Option<int>)
    ensures ClampAxis(ClampAxis(v, lo, hi), lo, hi) == ClampAxis(v, lo, hi)
  {
  }

  /** The clamp of (x, y) against a rectangle, each axis on its own pair of sides. */
  function Clamp(x: int, y: int, rect: Rect): (int, int) {
    (ClampAxis(x, rect.left, rect.right), ClampAxis(y, rect.top, rect.bottom))
  }

  /** The x result depends on left and right only, the y result on top and bottom only. */
  lemma ClampAxesIndependent(x: int, y: int, a: Rect, b: Rect)
    ensures a.left == b.left && a.right == b.right ==> Clamp(x, y, a).0 == Clamp(x, y, b).0
    ensures a.top == b.top && a.bottom == b.bottom ==> Clamp(x, y, a).1 == Clamp(x, y, b).1
  {
  }

  /** Only `right` set: the clamp is min(x, right) and y is untouched. */
  lemma ClampRightOnly(x: int, y: int, right: int)
    ensures Clamp(x, y, Rect(None, None, Some(right), None)) == (Min(x, right), y)
  {
  }

  /**
   * `getBoundPosition(bounds)` for a candidate position (x, y): the clamped position, or
   * the error thrown when a string bound does not resolve to an HTMLElement.
   */
  function GetBoundPosition(d: Draggable, bounds: Bounds, x: int, y: int,
                            querySelector: string -> Resolved): (r: Result<(int, int), BoundsError>)
    ensures r.Err? <==> ResolveBounds(d, bounds, querySelector).Err?
    ensures r.Err? ==> r.error == ResolveBounds(d, bounds, querySelector).error
    ensures r.Ok? ==> r.value == Clamp(x, y, ResolveBounds(d, bounds, querySelector).value)
    ensures bounds.Explicit? ==> r == Ok(Clamp(x, y, bounds.rect))
    ensures r.Ok? && bounds.Named? ==>
              var e := ResolveBounds(d, bounds, querySelector).value;
              e.left.value <= r.value.0 && e.top.value <= r.value.1 &&
              (e.left.value <= e.right.value ==> r.value.0 <= e.right.value) &&
              (e.top.value <= e.bottom.value ==> r.value.1 <= e.bottom.value)
  {
    match ResolveBounds(d, bounds, querySelector)
    case Err(e) => Err(e)
    case Ok(rect) => Ok(Clamp(x, y, rect))
  }

  /**
   * With "parent" bounds, the result is the position clamped into the envelope of the
   * node inside its parentNode, and an error when the parentNode is not an HTMLElement.
   */
  lemma ParentBounds(d: Draggable, x: int, y: int, querySelector: string -> Resolved)
    ensures d.parentNode.HtmlElement? ==>
              GetBoundPosition(d, Named("parent"), x, y, querySelector)
                == Ok(Clamp(x, y, Envelope(d.node, d.parentNode.element)))
    ensures !d.parentNode.HtmlElement? ==>
              GetBoundPosition(d, Named("parent"), x, y, querySelector)
                == Err(CouldNotFindElement("parent"))
  {
  }

  /** A selector that matches nothing in the document is an error, whatever the position. */
  lemma UnmatchedSelectorFails(d: Draggable, selector: string, x: int, y: int,
                               querySelector: string -> Resolved)
    requires selector != "parent" && querySelector(selector) == NoNode
    ensures GetBoundPosition(d, Named(selector), x, y, querySelector) == Err(CouldNotFindElement(selector))
  {
  }
}
