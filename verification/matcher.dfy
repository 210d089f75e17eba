/**
 * The ancestor selector matcher of src/utils/dom.js (`matchesSelectorToParentElements`).
 *
 * The document is a forest of nodes numbered 0 .. n-1. A node's parent has a smaller
 * number than the node itself, or is -1 when the node has no `parentNode`; every finite
 * DOM tree can be numbered this way, and the numbering makes the upward walk terminate.
 * CSS selector semantics are not modelled: `satisfies[i]` is the answer node i gives to
 * the selector, whichever vendor variant of the matching method is asked.
 */
module DomMatch {
  import opened Wrappers

  /** The vendor-specific names under which a node may expose selector matching. */
  datatype MatchMethod =
    | Matches
    | WebkitMatchesSelector
    | MozMatchesSelector
    | MsMatchesSelector
    | OMatchesSelector

  /** The order in which the names are tried. */
  const Priority: seq<MatchMethod> :=
    [Matches, WebkitMatchesSelector, MozMatchesSelector, MsMatchesSelector, OMatchesSelector]

  /**
   * parent[i]: the parentNode of node i, or -1 for none.
   * methods[i]: the matching methods that are functions on node i (a Document has none).
   * satisfies[i]: whether node i matches the selector.
   */
  datatype Tree = Tree(parent: seq<int>, methods: seq<set<MatchMethod>>, satisfies: seq<bool>)
  {
    predicate Valid() {
      |methods| == |parent| && |satisfies| == |parent| &&
      forall i :: 0 <= i < |parent| ==> -1 <= parent[i] < i
    }

    predicate Has(n: int) {
      0 <= n < |parent|
    }

    /** Every entry of v is a node of the tree. */
    predicate HasAll(v: seq<int>) {
      forall i :: 0 <= i < |v| ==> 0 <= v[i] < |parent|
    }
  }

  /** The TypeError thrown when `node[fn]` is not a function on an ancestor. */
  datatype MatchError = NotAFunction(node: int)

  /** The first of `names` that is in `supported`, as `Array.prototype.find` returns it. */
  function FirstSupported(names: seq<MatchMethod>, supported: set<MatchMethod>): (r: Option<MatchMethod>)
    ensures r.None? <==> forall i :: 0 <= i < |names| ==> names[i] !in supported
    ensures r.Some? ==> exists i :: 0 <= i < |names| && names[i] == r.value && r.value in supported &&
                                    forall j :: 0 <= j < i ==> names[j] !in supported
  {
    if names == [] then None
    else if names[0] in supported then Some(names[0])
    else
      var r := FirstSupported(names[1..], supported);
      assert forall i :: 1 <= i < |names| ==> names[i] == names[1..][i - 1];
      r
  }

  /** A set of method names none of which appears in the priority list is empty. */
  lemma NothingOutsidePriority(supported: set<MatchMethod>)
    requires forall i :: 0 <= i < |Priority| ==> Priority[i] !in supported
    ensures supported == {}
  {
    forall m: MatchMethod
      ensures m !in supported
    {
      match m
      case Matches => assert Priority[0] == m;
      case WebkitMatchesSelector => assert Priority[1] == m;
      case MozMatchesSelector => assert Priority[2] == m;
      case MsMatchesSelector => assert Priority[3] == m;
      case OMatchesSelector => assert Priority[4] == m;
    }
  }

  /** The method name chosen by looking at the starting element only. */
  function ChooseMethod(supported: set<MatchMethod>): (r: Option<MatchMethod>)
    ensures r.None? <==> supported == {}
    ensures Matches in supported ==> r == Some(Matches)
    ensures r.Some? ==> r.value in supported
    ensures r.Some? ==> exists i :: 0 <= i < |Priority| && Priority[i] == r.value &&
                                    forall j :: 0 <= j < i ==> Priority[j] !in supported
  {
    var r := FirstSupported(Priority, supported);
    assert Priority[0] == Matches;
    assert r.None? ==> supported == {} by {
      if r.None? {
        NothingOutsidePriority(supported);
      }
    }
    r
  }

  /** The ancestor chain of n: n, its parent, its grandparent, ... up to a node without parent. */
  function Chain(t: Tree, n: int): (c: seq<int>)
    requires t.Valid() && t.Has(n)
    ensures |c| >= 1 && c[0] == n && t.HasAll(c)
    decreases n
  {
    if t.parent[n] < 0 then [n] else [n] + Chain(t, t.parent[n])
  }

  /** The chain follows parentNode links, never repeats a node, and ends at a node without parent. */
  lemma {:induction false} ChainFollowsParents(t: Tree, n: int)
    requires t.Valid() && t.Has(n)
    ensures var c := Chain(t, n);
            (forall i :: 0 <= i < |c| - 1 ==> c[i + 1] == t.parent[c[i]]) &&
            t.parent[c[|c| - 1]] == -1 &&
            (forall i, j :: 0 <= i < j < |c| ==> c[j] < c[i])
    decreases n
  {
    if t.parent[n] >= 0 {
      ChainFollowsParents(t, t.parent[n]);
      var c, d := Chain(t, n), Chain(t, t.parent[n]);
      assert c == [n] + d;
      assert forall i :: 1 <= i < |c| ==> c[i] == d[i - 1];
    }
  }

  /**
   * The nodes the walk from n would test if nothing matched: n and its ancestors, up to
   * and including baseNode, or up to a node without parent.
   */
  function Visited(t: Tree, n: int, baseNode: int): (v: seq<int>)
    requires t.Valid() && t.Has(n)
    ensures |v| >= 1 && v[0] == n && t.HasAll(v)
    decreases n
  {
    if n == baseNode || t.parent[n] < 0 then [n] else [n] + Visited(t, t.parent[n], baseNode)
  }

  /**
   * The visited nodes are the ancestor chain cut just after baseNode when baseNode is on
   * it, and the whole chain otherwise.
   */
  lemma {:induction false} VisitedIsChainPrefix(t: Tree, n: int, baseNode: int)
    requires t.Valid() && t.Has(n)
    ensures var v, c := Visited(t, n, baseNode), Chain(t, n);
            |v| <= |c| && v == c[..|v|] &&
            (baseNode in c ==> v[|v| - 1] == baseNode) &&
            (baseNode !in c ==> v == c)
    decreases n
  {
    if n != baseNode && t.parent[n] >= 0 {
      VisitedIsChainPrefix(t, t.parent[n], baseNode);
      var v, c := Visited(t, n, baseNode), Chain(t, n);
      assert v == [n] + Visited(t, t.parent[n], baseNode);
      assert c == [n] + Chain(t, t.parent[n]);
      assert baseNode in c ==> baseNode in Chain(t, t.parent[n]);
    }
  }

  /**
   * One step of the walk: after the node at position p of the visited list, the walk goes
   * on to that node's parent exactly when the node is neither baseNode nor a root.
   */
  lemma VisitedStep(t: Tree, n: int, baseNode: int, p: int)
    requires t.Valid() && t.Has(n) && 0 <= p < |Visited(t, n, baseNode)|
    ensures var v := Visited(t, n, baseNode);
            if v[p] == baseNode || t.parent[v[p]] < 0 then p == |v| - 1
            else p + 1 < |v| && v[p + 1] == t.parent[v[p]]
  {
    var v, c := Visited(t, n, baseNode), Chain(t, n);
    VisitedIsChainPrefix(t, n, baseNode);
    ChainFollowsParents(t, n);
    assert v[p] == c[p];
    if p + 1 < |c| {
      assert c[p + 1] == t.parent[c[p]];
    }
    if v[p] == baseNode {
      assert v[|v| - 1] == baseNode == c[p];
    }
  }

  /** No node strictly above baseNode on the ancestor chain is ever visited, and baseNode itself is. */
  lemma NothingAboveBaseVisited(t: Tree, n: int, baseNode: int)
    requires t.Valid() && t.Has(n) && baseNode in Chain(t, n)
    ensures var v, c := Visited(t, n, baseNode), Chain(t, n);
            baseNode in v && forall i :: |v| <= i < |c| ==> c[i] !in v
  {
    var v, c := Visited(t, n, baseNode), Chain(t, n);
    VisitedIsChainPrefix(t, n, baseNode);
    ChainFollowsParents(t, n);
    forall i | |v| <= i < |c|
      ensures c[i] !in v
    {
      forall k | 0 <= k < |v|
        ensures v[k] != c[i]
      {
        assert v[k] == c[k];
      }
    }
  }

  /** Some node of v lacks method m, and no node before it satisfies the selector. */
  ghost predicate ThrowsOn(t: Tree, m: MatchMethod, v: seq<int>)
    requires t.Valid() && t.HasAll(v)
  {
    exists k :: 0 <= k < |v| && m !in t.methods[v[k]] &&
                forall j :: 0 <= j < k ==> !t.satisfies[v[j]]
  }

  /** Some node of v satisfies the selector, and it and every node before it have method m. */
  ghost predicate FindsOn(t: Tree, m: MatchMethod, v: seq<int>)
    requires t.Valid() && t.HasAll(v)
  {
    exists k :: 0 <= k < |v| && t.satisfies[v[k]] && m in t.methods[v[k]] &&
                forall j :: 0 <= j < k ==> m in t.methods[v[j]]
  }

  /** The walk from el towards baseNode reaches a node on which the chosen method is missing. */
  ghost predicate Throws(t: Tree, el: int, baseNode: int)
    requires t.Valid() && t.Has(el)
  {
    var fn := ChooseMethod(t.methods[el]);
    fn.Some? && ThrowsOn(t, fn.value, Visited(t, el, baseNode))
  }

  /** The walk from el towards baseNode reaches a matching node before any failure. */
  ghost predicate Finds(t: Tree, el: int, baseNode: int)
    requires t.Valid() && t.Has(el)
  {
    var fn := ChooseMethod(t.methods[el]);
    fn.Some? && FindsOn(t, fn.value, Visited(t, el, baseNode))
  }

  /** Some element from el up to baseNode (inclusive) that has the chosen method satisfies the selector. */
  ghost predicate FindsAmongElements(t: Tree, el: int, baseNode: int)
    requires t.Valid() && t.Has(el)
  {
    var fn := ChooseMethod(t.methods[el]);
    var v := Visited(t, el, baseNode);
    fn.Some? && exists k :: 0 <= k < |v| && fn.value in t.methods[v[k]] && t.satisfies[v[k]]
  }

  /**
   * Where the walk stops at position p of v, every earlier node having the method and not
   * matching, the node at p decides between throwing and finding.
   */
  lemma StopsAt(t: Tree, m: MatchMethod, v: seq<int>, p: int)
    requires t.Valid() && t.HasAll(v) && 0 <= p < |v|
    requires forall j :: 0 <= j < p ==> m in t.methods[v[j]] && !t.satisfies[v[j]]
    ensures m !in t.methods[v[p]] ==> ThrowsOn(t, m, v) && !FindsOn(t, m, v)
    ensures m in t.methods[v[p]] && t.satisfies[v[p]] ==> FindsOn(t, m, v) && !ThrowsOn(t, m, v)
  {
  }

  /** A walk that tests every node of v without stopping neither throws nor finds. */
  lemma RunsThrough(t: Tree, m: MatchMethod, v: seq<int>)
    requires t.Valid() && t.HasAll(v)
    requires forall j :: 0 <= j < |v| ==> m in t.methods[v[j]] && !t.satisfies[v[j]]
    ensures !ThrowsOn(t, m, v) && !FindsOn(t, m, v)
  {
  }

  /**
   * `matchesSelectorToParentElements(el, selector, baseNode)` as written. A baseNode that
   * is no node at all (undefined) is any number outside the tree. `tested` records the
   * nodes on which the matching method was invoked, in order.
   */
  method MatchesSelectorToParentElements(t: Tree, el: int, baseNode: int)
    returns (r: Result<bool, MatchError>, ghost tested: seq<int>)
    requires t.Valid() && t.Has(el)
    ensures ChooseMethod(t.methods[el]).None? ==> r == Ok(false) && tested == []
    ensures |tested| <= |Visited(t, el, baseNode)| && tested == Visited(t, el, baseNode)[..|tested|]
    ensures r.Err? <==> Throws(t, el, baseNode)
    ensures r == Ok(true) <==> Finds(t, el, baseNode)
    ensures r.Err? ==> r.error.node in tested && ChooseMethod(t.methods[el]).Some? &&
                       ChooseMethod(t.methods[el]).value !in t.methods[r.error.node]
    ensures r.Err? ==> |tested| > 0 && r.error.node == tested[|tested| - 1] &&
                       forall j :: 0 <= j < |tested| - 1 ==>
                         ChooseMethod(t.methods[el]).value in t.methods[tested[j]]
    ensures r == Ok(true) ==> |tested| > 0 && t.satisfies[tested[|tested| - 1]]
  {
    var fn := ChooseMethod(t.methods[el]);
    if fn.None? {
      return Ok(false), [];
    }
    var m := fn.value;
    ghost var v := Visited(t, el, baseNode);
    var node := el;
    tested := [];
    while node >= 0
      invariant -1 <= node < |t.parent|
      invariant |tested| <= |v| && tested == v[..|tested|]
      invariant node >= 0 <==> |tested| < |v|
      invariant node >= 0 ==> v[|tested|] == node
      invariant forall j :: 0 <= j < |tested| ==> m in t.methods[v[j]] && !t.satisfies[v[j]]
      decreases node + 1
    {
      ghost var p := |tested|;
      VisitedStep(t, el, baseNode, p);
      tested := tested + [node];
      if m !in t.methods[node] {
        StopsAt(t, m, v, p);
        return Err(NotAFunction(node)), tested;
      }
      if t.satisfies[node] {
        StopsAt(t, m, v, p);
        return Ok(true), tested;
      }
      if node == baseNode {
        RunsThrough(t, m, v);
        return Ok(false), tested;
      }
      node := t.parent[node];
    }
    RunsThrough(t, m, v);
    return Ok(false), tested;
  }

  /**
   * The walk with a guard on each node: a node on which the chosen method is not a
   * function (a Document, for one) is treated as not matching instead of being called.
   */
  method MatchesSelectorToParentElementsChecked(t: Tree, el: int, baseNode: int) returns (found: bool)
    requires t.Valid() && t.Has(el)
    ensures found <==> FindsAmongElements(t, el, baseNode)
  {
    var fn := ChooseMethod(t.methods[el]);
    if fn.None? {
      return false;
    }
    var m := fn.value;
    ghost var v := Visited(t, el, baseNode);
    ghost var p := 0;
    var node := el;
    while node >= 0
      invariant -1 <= node < |t.parent| && 0 <= p <= |v|
      invariant node >= 0 <==> p < |v|
      invariant node >= 0 ==> v[p] == node
      invariant forall j :: 0 <= j < p ==> !(m in t.methods[v[j]] && t.satisfies[v[j]])
      decreases node + 1
    {
      VisitedStep(t, el, baseNode, p);
      if m in t.methods[node] && t.satisfies[node] {
        return true;
      }
      if node == baseNode {
        return false;
      }
      node := t.parent[node];
      p := p + 1;
    }
    return false;
  }

  /**
   * When every node from el up to baseNode carries the chosen method (a chain of elements),
   * the walk as written never throws, it finds a match exactly when some node of the
   * chain satisfies the selector, and the guarded walk gives the same answer.
   */
  lemma ElementChainMatchIff(t: Tree, el: int, baseNode: int)
    requires t.Valid() && t.Has(el)
    requires ChooseMethod(t.methods[el]).Some?
    requires forall k :: 0 <= k < |Visited(t, el, baseNode)| ==>
               ChooseMethod(t.methods[el]).value in t.methods[Visited(t, el, baseNode)[k]]
    ensures !Throws(t, el, baseNode)
    ensures Finds(t, el, baseNode) <==>
              exists k :: 0 <= k < |Visited(t, el, baseNode)| && t.satisfies[Visited(t, el, baseNode)[k]]
    ensures Finds(t, el, baseNode) <==> FindsAmongElements(t, el, baseNode)
  {
    var m, v := ChooseMethod(t.methods[el]).value, Visited(t, el, baseNode);
    if k :| 0 <= k < |v| && t.satisfies[v[k]] {
      assert m in t.methods[v[k]];
      assert FindsOn(t, m, v);
      assert Finds(t, el, baseNode);
      assert exists k :: 0 <= k < |Visited(t, el, baseNode)| && t.satisfies[Visited(t, el, baseNode)[k]];
    } else {
      assert !FindsOn(t, m, v);
      assert !Finds(t, el, baseNode);
    }
  }

  /** A document node (0) holding an html element (1); neither satisfies the selector. */
  const DocumentWithHtml := Tree([-1, 0], [{}, {Matches}], [false, false])

  /**
   * Walking from the html element with no baseNode reaches the document, which has no
   * `matches`: the walk as written throws where the guarded walk answers false.
   */
  lemma WalkToDocumentThrows()
    ensures DocumentWithHtml.Valid() && DocumentWithHtml.Has(1)
    ensures Visited(DocumentWithHtml, 1, -1) == [1, 0]
    ensures Throws(DocumentWithHtml, 1, -1)
    ensures !FindsAmongElements(DocumentWithHtml, 1, -1)
  {
    var t := DocumentWithHtml;
    assert Visited(t, 0, -1) == [0];
    assert Visited(t, 1, -1) == [1, 0];
    var v := [1, 0];
    assert ChooseMethod(t.methods[1]) == Some(Matches);
    assert ThrowsOn(t, Matches, v) by {
      assert Matches !in t.methods[v[1]] && !t.satisfies[v[0]];
    }
  }
}
