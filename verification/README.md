# DOM helpers of vue-draggable-resizable, modelled in Dafny

This project models the two pieces of logic in `src/utils/dom.js`:

- **The ancestor selector matcher** (`matchesSelectorToParentElements`, module `DomMatch`
  in `matcher.dfy`). It is live code. It picks the first of five vendor names of the
  selector-matching method that is a function on the starting element. If there is none,
  it answers `false`. Otherwise it walks `parentNode` links. It tests each node against the
  selector before it compares the node with `baseNode`, and it stops at `baseNode` or at a
  node without parent. The document is a forest of numbered nodes whose parents have smaller
  numbers (-1 for no parent). Each node carries the set of method names that are functions on
  it, and the answer it gives to the selector.
- **The drag-bounds computation** (`outerWidth`, `outerHeight`, `innerWidth`,
  `innerHeight` and `getBoundPosition`, module `DomBounds` in `bounds.dfy`). In the
  source this code sits inside a block comment (`src/utils/dom.js:60-148`): the model
  describes disabled reference code. Style values are integers already read from the
  computed style. The candidate position `(x, y)` is a parameter. `cloneBounds` is the
  identity. `ownerDocument.querySelector` is a function from selector strings to what
  it returns: nothing, a node that is not an HTMLElement, or an HTMLElement with its metrics.
  `isNum(v)` is `v.Some?` on an optional side of the rectangle.

`wrappers.dfy` holds the `Option` and `Result` datatypes that both modules use.

The matcher is a method with a loop, proved against `Visited`. `Visited` is the list of nodes
the walk would test if nothing matched. It is tied to the independent definition `Chain`, the
whole ancestor chain. The bounds code is pure arithmetic, modelled as functions with lemmas.

One geometric consequence of the envelope formulas is worth stating, and
`EnvelopeConfinesMarginBox` states it. The node's `offsetLeft` and `offsetTop` are measured from
its offsetParent's padding edge, so the reading below holds when the bound is the node's
offsetParent. The right limit adds the bound's right padding to its inner width. That sum equals
`clientWidth - paddingLeft`. So the far edge of the node's margin box is held at the bound's
client width less its *left* padding (and *top* padding vertically). The two readings agree when
a bound's paddings are symmetric.

## Model

| member | source | states |
|---|---|---|
| `DomMatch.FirstSupported` | src/utils/dom.js:6-12 | the result is absent iff no listed name is supported; otherwise it is a supported name and no earlier name in the list is supported |
| `DomMatch.ChooseMethod` | src/utils/dom.js:6-14 | the chosen name is supported by the starting element and no name before it in the priority order (`matches`, `webkitMatchesSelector`, `mozMatchesSelector`, `msMatchesSelector`, `oMatchesSelector`) is; none is chosen iff it supports none of the five; `matches` wins whenever it is supported |
| `DomMatch.Priority` | src/utils/dom.js:6-11 | the five vendor names in the order they are tried; that `ChooseMethod` honours this order is stated by `ChooseMethod` and `FirstSupported` |
| `DomMatch.Chain` | src/utils/dom.js:19-20 | the ancestor chain starts at the node and contains only nodes of the document |
| `DomMatch.ChainFollowsParents` | src/utils/dom.js:19-20 | each chain entry is the parentNode of the one before, the last has no parent, and no node repeats (the walk terminates) |
| `DomMatch.Visited` | src/utils/dom.js:16-22 | the walk's nodes start at `el` and are nodes of the document |
| `DomMatch.VisitedIsChainPrefix` | src/utils/dom.js:16-22 | the walk covers a prefix of the ancestor chain; it ends at `baseNode` when `baseNode` is on the chain, and covers the whole chain to the root otherwise |
| `DomMatch.VisitedStep` | src/utils/dom.js:18-20 | after a node the walk moves to its parentNode exactly when the node is neither `baseNode` nor parentless; otherwise the walk ends there |
| `DomMatch.NothingAboveBaseVisited` | src/utils/dom.js:17-18 | when `baseNode` is an ancestor (or `el` itself), it is tested, and no node above it on the chain is |
| `DomMatch.MatchesSelectorToParentElements` | src/utils/dom.js:3-23 | with no supported method name the answer is `false` and no node is tested; the tested nodes are a prefix of the walk; it throws iff it reaches a node lacking the chosen method before any match, naming that node; it answers `true` iff a matching node is reached first, that node being the last one tested; `false` otherwise |
| `DomMatch.ElementChainMatchIff` | src/utils/dom.js:16-22 | when every node of the walk has the chosen method, it never throws and answers `true` iff some node from `el` up to `baseNode` (or to the root) satisfies the selector |
| `DomMatch.WalkToDocumentThrows` | src/utils/dom.js:16-20 | from an html element with no `baseNode`, the walk reaches the document, which has no `matches`, so the code as written throws where `false` is meant |
| `DomMatch.MatchesSelectorToParentElementsChecked` | src/utils/dom.js:16-22 | guarded walk: answers `true` iff some node of the walk has the chosen method and satisfies the selector; it never throws |
| `DomBounds.OuterHeight` | src/utils/dom.js:61-69 | client height plus the top and bottom borders; what that means is stated by `BoxSizes` |
| `DomBounds.OuterWidth` | src/utils/dom.js:71-79 | client width plus the left and right borders; what that means is stated by `BoxSizes` |
| `DomBounds.InnerHeight` | src/utils/dom.js:80-86 | client height minus the top and bottom padding; what that means is stated by `BoxSizes` |
| `DomBounds.InnerWidth` | src/utils/dom.js:88-94 | client width minus the left and right padding; what that means is stated by `BoxSizes` |
| `DomBounds.BoxSizes` | src/utils/dom.js:61-94 | outer size exceeds client size by the two borders, inner size falls short of it by the two paddings, on each axis; neither depends on the margins |
| `DomBounds.Envelope` | src/utils/dom.js:128-135 | the four limits of the object literal; what they mean is stated by `EnvelopeConfinesMarginBox`, `EnvelopeRoom` and `EnvelopeExample` |
| `DomBounds.EnvelopeConfinesMarginBox` | src/utils/dom.js:128-135 | a position lies within the computed limits iff the moved margin box, in the coordinates of the node's offset, starts at or after the bound's near padding and ends at or before its client size less the near padding; this is a geometric reading when the bound is the node's offsetParent |
| `DomBounds.EnvelopeRoom` | src/utils/dom.js:128-135 | the distance between opposite limits is the bound's inner size less the node's margin box, adjusted by the difference of the bound's paddings on that axis |
| `DomBounds.EnvelopeExample` | src/utils/dom.js:128-135 | a 100x50 node at offset (10, 5) with 2px side margins inside an unpadded 300x200 parent gets left -8, right 188, top -5, bottom 145 |
| `DomBounds.BoundNode` | src/utils/dom.js:117-121 | the parentNode for exactly `"parent"`, the `querySelector` result otherwise; stated by `ParentBounds` and `UnmatchedSelectorFails`, and used in the contract of `ResolveBounds` |
| `DomBounds.ResolveBounds` | src/utils/dom.js:110-135 | an explicit rectangle comes back unchanged; a string bound fails iff it does not resolve to an HTMLElement, with the error naming the string; otherwise the limits are the envelope of the node inside the resolved element, all four defined |
| `DomBounds.ClampAxis` | src/utils/dom.js:139-144 | a value inside the limits is kept; the result is never below a present lower limit; with a well-formed pair it stays within both; with lower > upper the result is the lower limit; absent limits do not constrain |
| `DomBounds.ClampAxisIsNearest` | src/utils/dom.js:139-144 | within a well-formed pair of limits the clamped value is the nearest admissible value to the candidate |
| `DomBounds.ClampAxisIdempotent` | src/utils/dom.js:139-144 | clamping an already clamped value changes nothing |
| `DomBounds.Clamp` | src/utils/dom.js:139-146 | each axis clamped against its own pair of sides; stated by `ClampAxis`, `ClampAxesIndependent` and `ClampRightOnly` |
| `DomBounds.ClampAxesIndependent` | src/utils/dom.js:139-146 | the x result depends only on left and right, the y result only on top and bottom |
| `DomBounds.ClampRightOnly` | src/utils/dom.js:139 | with only `right` set, the result is `(min(x, right), y)` |
| `DomBounds.GetBoundPosition` | src/utils/dom.js:108-147 | fails exactly when bound resolution fails, with the same error; otherwise the result is the candidate clamped against the resolved limits (the given rectangle, or the envelope for a string bound), so a string-bound result lies at or past the left and top limits, and within right and bottom when the envelope is well formed |
| `DomBounds.ParentBounds` | src/utils/dom.js:117-124 | `"parent"` bounds clamp into the envelope inside the parentNode, and fail when the parentNode is not an HTMLElement |
| `DomBounds.UnmatchedSelectorFails` | src/utils/dom.js:119-124 | a selector that matches nothing in the document fails with the error naming that selector |

## Findings

| source | as written | input that shows it | evidently intended | confidence | as-written member | corrected member |
|---|---|---|---|---|---|---|
| src/utils/dom.js:14-19 | the matching method is looked up on `el` only, then invoked on every ancestor as `node[matchesSelectorFunc](selector)` | `el` is the `html` element of a document, `baseNode` is undefined (or not an ancestor), and the selector matches nothing on the way: the walk reaches `document`, which has no `matches`, and the call throws a TypeError | the walk ends with `false` when no node of the chain matches | medium (callers that pass an ancestor of `el` as `baseNode` never reach the document); not executed | `DomMatch.WalkToDocumentThrows` | `DomMatch.MatchesSelectorToParentElementsChecked` |

## Left out

- `getComputedSize` (src/utils/dom.js:25-32): it reads the browser's computed style and parses floating-point values.
- `addEvent` and `removeEvent` (src/utils/dom.js:34-58): they only forward to the browser's event-registration APIs and return nothing.
- `offsetXYFromParent` (src/utils/dom.js:97-105): it reads `getBoundingClientRect`, scroll offsets and document identity, then adds the scroll offset and subtracts the rectangle's corner on each axis; it is also commented out.
- CSS selector semantics and `ownerDocument.querySelector`: each node's answer to the selector is given, and so is what `querySelector` returns. An invalid selector makes `node[fn](selector)` (src/utils/dom.js:17) and `querySelector` (src/utils/dom.js:120) throw a SyntaxError; neither model has that outcome.
- `int(...)` parsing of computed style strings, NaN from malformed values, and JavaScript's floating-point numbers: style metrics and the candidate position `x`, `y` (which JavaScript allows to be fractional) are unbounded integers.
- `findDOMNode(draggable)` and `cloneBounds`: the dragged node is a parameter, and cloning is the identity. The free names `draggable`, `x` and `y` in the commented-out `getBoundPosition` become parameters.
- `offsetParent` is not modelled: the envelope's geometric reading (`EnvelopeConfinesMarginBox`) assumes the bound is the node's offsetParent, which a selector bound or a statically positioned parentNode need not be.
- The `instanceof ownerWindow.HTMLElement` test is reduced to three cases: null, a node that is not an HTMLElement (the document, a text node, an SVG or MathML element), and an HTMLElement; elements from another window's realm are not distinguished.
- `DomMatch.ChooseMethod`: when no name is supported, the source also reads the property named `"undefined"` on `el` (src/utils/dom.js:14). The model assumes that property is not a function and answers `false`.
