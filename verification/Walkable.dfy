/**
 The alias gate of the config reconciler (config_sync.py, `_walkable`).

 A parsed YAML document is an object graph, because an alias makes two parents share one object
 and may even point back at an ancestor.  `Walkable` is the explicit-stack walk; the rest of the
 module says what it decides without mentioning a stack: the graph unfolds into a finite tree of
 at most `MAX_EXPANDED_NODES` nodes, which is the same as having no reachable cycle and no
 oversized expansion.
 */
module Walkable {

  const MAX_EXPANDED_NODES: nat := 100_000

  /** The identity of a Python object, `id(node)`. */
  type Ref = nat

  /** A container lists what the walk descends into: items, or the values of a dict. */
  datatype Node = Scalar | Container(children: seq<Ref>)

  /** Every reference in the graph points into the graph. */
  predicate Closed(g: map<Ref, Node>) {
    forall r <- g :: g[r].Container? ==> forall i | 0 <= i < |g[r].children| :: g[r].children[i] in g
  }

  type Graph = g: map<Ref, Node> | Closed(g) witness map[]

  // ---------------------------------------------------------------------------
  // Unfolding a graph into a tree
  // ---------------------------------------------------------------------------

  datatype Tree = Leaf | Branch(kids: seq<Tree>)

  ghost function TreeSize(t: Tree): nat
    decreases t, 0
  {
    match t
    case Leaf => 1
    case Branch(kids) => 1 + ForestSize(kids)
  }

  ghost function ForestSize(ts: seq<Tree>): nat
    decreases ts, 1
  {
    if ts == [] then 0 else ForestSize(ts[..|ts| - 1]) + TreeSize(ts[|ts| - 1])
  }

  /** `t` is `r` with every reference followed, a shared object repeated once per reference. */
  ghost predicate Unfolds(g: Graph, r: Ref, t: Tree)
    requires r in g
    decreases t
  {
    match g[r]
    case Scalar => t == Leaf
    case Container(children) =>
      t.Branch? && |t.kids| == |children| &&
      forall i | 0 <= i < |children| :: Unfolds(g, children[i], t.kids[i])
  }

  ghost predicate Finite(g: Graph, r: Ref)
    requires r in g
  {
    exists t :: Unfolds(g, r, t)
  }

  lemma {:induction false} UnfoldingUnique(g: Graph, r: Ref, t: Tree, u: Tree)
    requires r in g && Unfolds(g, r, t) && Unfolds(g, r, u)
    ensures t == u
    decreases t
  {
    if g[r].Container? {
      forall i | 0 <= i < |t.kids|
        ensures t.kids[i] == u.kids[i]
      {
        UnfoldingUnique(g, g[r].children[i], t.kids[i], u.kids[i]);
      }
      assert t.kids == u.kids;
    }
  }

  ghost function Unfolding(g: Graph, r: Ref): (t: Tree)
    requires r in g && Finite(g, r)
    ensures Unfolds(g, r, t)
  {
    var t :| Unfolds(g, r, t);
    t
  }

  /** The number of nodes every later walk of `r` visits. */
  ghost function ExpandedSize(g: Graph, r: Ref): nat
    requires r in g && Finite(g, r)
  {
    TreeSize(Unfolding(g, r))
  }

  lemma {:induction false} KidSmaller(ts: seq<Tree>, i: nat)
    requires i < |ts|
    ensures TreeSize(ts[i]) <= ForestSize(ts)
  {
    if i < |ts| - 1 {
      KidSmaller(ts[..|ts| - 1], i);
    }
  }

  lemma ScalarUnfolds(g: Graph, r: Ref)
    requires r in g && g[r].Scalar?
    ensures Finite(g, r) && ExpandedSize(g, r) == 1
  {
    assert Unfolds(g, r, Leaf);
  }

  lemma FiniteChild(g: Graph, r: Ref, i: nat)
    requires r in g && Finite(g, r) && g[r].Container? && i < |g[r].children|
    ensures Finite(g, g[r].children[i])
    ensures ExpandedSize(g, g[r].children[i]) < ExpandedSize(g, r)
  {
    var t := Unfolding(g, r);
    var c := g[r].children[i];
    assert Unfolds(g, c, t.kids[i]);
    UnfoldingUnique(g, c, t.kids[i], Unfolding(g, c));
    KidSmaller(t.kids, i);
  }

  lemma FiniteFromChildren(g: Graph, r: Ref)
    requires r in g && g[r].Container?
    requires forall i | 0 <= i < |g[r].children| :: Finite(g, g[r].children[i])
    ensures Finite(g, r)
  {
    var cs := g[r].children;
    var kids := seq(|cs|, i requires 0 <= i < |cs| => Unfolding(g, cs[i]));
    assert Unfolds(g, r, Branch(kids));
  }

  // ---------------------------------------------------------------------------
  // The same thing said with paths: no reachable cycle
  // ---------------------------------------------------------------------------

  predicate Edge(g: Graph, a: Ref, b: Ref) {
    a in g && g[a].Container? && b in g[a].children
  }

  predicate Path(g: Graph, p: seq<Ref>) {
    p != [] && forall i | 0 <= i < |p| - 1 :: Edge(g, p[i], p[i + 1])
  }

  predicate Repeats(p: seq<Ref>) {
    exists i, j :: 0 <= i < j < |p| && p[i] == p[j]
  }

  /** Some path out of `r` comes back to an object it has already passed. */
  ghost predicate ReachesCycle(g: Graph, r: Ref) {
    exists p :: Path(g, p) && p[0] == r && Repeats(p)
  }

  lemma PathStep(g: Graph, p: seq<Ref>, r: Ref)
    requires Path(g, p) && Edge(g, p[|p| - 1], r)
    ensures Path(g, p + [r])
  {
  }

  /** Sizes shrink along a path, so a path inside a finite unfolding never repeats. */
  lemma {:induction false} SizesShrink(g: Graph, p: seq<Ref>, i: nat, j: nat)
    requires Path(g, p) && p[0] in g && Finite(g, p[0])
    requires i < j < |p|
    ensures p[i] in g && p[j] in g && Finite(g, p[i]) && Finite(g, p[j])
    ensures ExpandedSize(g, p[j]) < ExpandedSize(g, p[i])
    decreases j
  {
    if i < j - 1 {
      SizesShrink(g, p, i, j - 1);
    } else if i > 0 {
      SizesShrink(g, p, i - 1, i);
    }
    assert Edge(g, p[j - 1], p[j]);
    var k :| 0 <= k < |g[p[j - 1]].children| && g[p[j - 1]].children[k] == p[j];
    FiniteChild(g, p[j - 1], k);
  }

  lemma NoRepeatFits(p: seq<Ref>, s: set<Ref>)
    requires !Repeats(p) && forall x | x in p :: x in s
    ensures |p| <= |s|
  {
    if p != [] {
      var q := p[..|p| - 1];
      var x := p[|p| - 1];
      forall y | y in q
        ensures y in s - {x}
      {
        var i :| 0 <= i < |q| && q[i] == y;
        assert p[i] == y;
      }
      forall i, j | 0 <= i < j < |q|
        ensures q[i] != q[j]
      {
        assert p[i] != p[j];
      }
      NoRepeatFits(q, s - {x});
    }
  }

  lemma {:induction false} PathInGraph(g: Graph, p: seq<Ref>, i: nat)
    requires Path(g, p) && p[0] in g && i < |p|
    ensures p[i] in g
  {
    if i > 0 {
      assert Edge(g, p[i - 1], p[i]);
    }
  }

  /** An infinite unfolding lets a repeat-free path be extended for ever, in a finite graph. */
  lemma {:induction false} EndlessPathRepeats(g: Graph, p: seq<Ref>)
    requires Path(g, p) && p[0] in g && !Repeats(p)
    requires p[|p| - 1] in g && !Finite(g, p[|p| - 1])
    ensures ReachesCycle(g, p[0])
    decreases |g| - |p|
  {
    var last := p[|p| - 1];
    if g[last].Scalar? {
      ScalarUnfolds(g, last);
      assert false;
    }
    if forall i | 0 <= i < |g[last].children| :: Finite(g, g[last].children[i]) {
      FiniteFromChildren(g, last);
      assert false;
    }
    var i :| 0 <= i < |g[last].children| && !Finite(g, g[last].children[i]);
    var next := g[last].children[i];
    var q := p + [next];
    PathStep(g, p, next);
    assert q[0] == p[0];
    if !Repeats(q) {
      forall x | x in q
        ensures x in g.Keys
      {
        var k :| 0 <= k < |q| && q[k] == x;
        PathInGraph(g, q, k);
      }
      NoRepeatFits(q, g.Keys);
      EndlessPathRepeats(g, q);
    }
  }

  lemma FiniteIsAcyclic(g: Graph, r: Ref)
    requires r in g
    ensures Finite(g, r) <==> !ReachesCycle(g, r)
  {
    if Finite(g, r) {
      if p :| Path(g, p) && p[0] == r && Repeats(p) {
        var i, j :| 0 <= i < j < |p| && p[i] == p[j];
        SizesShrink(g, p, i, j);
        assert false;
      }
    } else {
      assert [r][0] == r;
      EndlessPathRepeats(g, [r]);
    }
  }

  /** The document unfolds into a tree of at most `n` nodes. */
  ghost predicate ExpandsWithin(g: Graph, r: Ref, n: nat)
    requires r in g
  {
    exists t :: Unfolds(g, r, t) && TreeSize(t) <= n
  }

  lemma WithinIsSize(g: Graph, r: Ref, n: nat)
    requires r in g
    ensures ExpandsWithin(g, r, n) <==> Finite(g, r) && ExpandedSize(g, r) <= n
  {
    if t :| Unfolds(g, r, t) && TreeSize(t) <= n {
      UnfoldingUnique(g, r, t, Unfolding(g, r));
    }
    if Finite(g, r) && ExpandedSize(g, r) <= n {
      assert Unfolds(g, r, Unfolding(g, r));
    }
  }

  /** Staying within the bound is being acyclic and never unfolding past the bound. */
  lemma WithinIsAcyclicAndSmall(g: Graph, r: Ref, n: nat)
    requires r in g
    ensures ExpandsWithin(g, r, n) <==>
            !ReachesCycle(g, r) && forall t | Unfolds(g, r, t) :: TreeSize(t) <= n
  {
    WithinIsSize(g, r, n);
    FiniteIsAcyclic(g, r);
    forall t | Unfolds(g, r, t)
      ensures Finite(g, r) && TreeSize(t) == ExpandedSize(g, r)
    {
      UnfoldingUnique(g, r, t, Unfolding(g, r));
    }
    if Finite(g, r) {
      assert Unfolds(g, r, Unfolding(g, r));
    }
  }

  // ---------------------------------------------------------------------------
  // The walk
  // ---------------------------------------------------------------------------

  datatype Item = Item(node: Ref, leaving: bool)

  ghost predicate InGraph(g: Graph, stack: seq<Item>) {
    forall i | 0 <= i < |stack| :: stack[i].node in g
  }

  ghost predicate AllFinite(g: Graph, stack: seq<Item>)
    requires InGraph(g, stack)
  {
    forall i | 0 <= i < |stack| :: Finite(g, stack[i].node)
  }

  /** What the entries still waiting to be entered will cost. */
  ghost function Owed(g: Graph, stack: seq<Item>): nat
    requires InGraph(g, stack) && AllFinite(g, stack)
  {
    if stack == [] then 0 else
      var top := stack[|stack| - 1];
      (if top.leaving then 0 else ExpandedSize(g, top.node)) + Owed(g, stack[..|stack| - 1])
  }

  /** Everything stacked above a node that is being left is strictly smaller than it. */
  ghost predicate Nested(g: Graph, stack: seq<Item>)
    requires InGraph(g, stack) && AllFinite(g, stack)
  {
    forall i, j | 0 <= i < j < |stack| && stack[i].leaving ::
      ExpandedSize(g, stack[j].node) < ExpandedSize(g, stack[i].node)
  }

  /** `onPath` is exactly the nodes with a pending leave entry, each with one such entry. */
  ghost predicate Marked(onPath: set<Ref>, stack: seq<Item>) {
    && (forall r <- onPath :: exists i :: 0 <= i < |stack| && stack[i] == Item(r, true))
    && (forall i | 0 <= i < |stack| && stack[i].leaving :: stack[i].node in onPath)
    && (forall i, j | 0 <= i < j < |stack| && stack[i].leaving && stack[j].leaving ::
          stack[i].node != stack[j].node)
  }

  ghost predicate EndlessWaiting(g: Graph, stack: seq<Item>)
    requires InGraph(g, stack)
  {
    exists i :: 0 <= i < |stack| && !stack[i].leaving && !Finite(g, stack[i].node)
  }

  function Entering(rs: seq<Ref>): (items: seq<Item>)
    ensures |items| == |rs|
    ensures forall i | 0 <= i < |rs| :: items[i] == Item(rs[i], false)
  {
    seq(|rs|, i requires 0 <= i < |rs| => Item(rs[i], false))
  }

  lemma OwedTop(g: Graph, rest: seq<Item>, top: Item)
    requires InGraph(g, rest + [top]) && AllFinite(g, rest + [top])
    ensures InGraph(g, rest) && AllFinite(g, rest) && top.node in g && Finite(g, top.node)
    ensures Owed(g, rest + [top]) ==
            Owed(g, rest) + (if top.leaving then 0 else ExpandedSize(g, top.node))
  {
    var stack := rest + [top];
    assert stack[..|stack| - 1] == rest && stack[|rest|] == top;
    assert forall i | 0 <= i < |rest| :: rest[i] == stack[i];
  }

  lemma EnteringLast(stack: seq<Item>, rs: seq<Ref>)
    requires rs != []
    ensures stack + Entering(rs) == stack + Entering(rs[..|rs| - 1]) + [Item(rs[|rs| - 1], false)]
  {
  }

  lemma {:induction false} OwedPush(g: Graph, stack: seq<Item>, rs: seq<Ref>, ts: seq<Tree>)
    requires InGraph(g, stack) && AllFinite(g, stack)
    requires |rs| == |ts|
    requires forall i | 0 <= i < |rs| :: rs[i] in g && Unfolds(g, rs[i], ts[i])
    ensures InGraph(g, stack + Entering(rs)) && AllFinite(g, stack + Entering(rs))
    ensures Owed(g, stack + Entering(rs)) == Owed(g, stack) + ForestSize(ts)
    decreases |rs|
  {
    if rs == [] {
      assert stack + Entering(rs) == stack;
    } else {
      var n := |rs| - 1;
      assert rs[n] in g && Unfolds(g, rs[n], ts[n]) && Finite(g, rs[n]);
      OwedPush(g, stack, rs[..n], ts[..n]);
      assert ExpandedSize(g, rs[n]) == TreeSize(ts[n]) by {
        UnfoldingUnique(g, rs[n], ts[n], Unfolding(g, rs[n]));
      }
      EnteringLast(stack, rs);
      OwedTop(g, stack + Entering(rs[..n]), Item(rs[n], false));
    }
  }

  /** The walk's account: what was charged plus what is owed is the size of the document. */
  ghost predicate Account(g: Graph, doc: Ref, budget: int, stack: seq<Item>)
    requires doc in g && InGraph(g, stack)
  {
    if Finite(g, doc) then
      && AllFinite(g, stack) && Nested(g, stack)
      && MAX_EXPANDED_NODES - budget + Owed(g, stack) == ExpandedSize(g, doc)
    else
      EndlessWaiting(g, stack)
  }

  ghost predicate Walking(g: Graph, doc: Ref, budget: int, onPath: set<Ref>, stack: seq<Item>) {
    doc in g && InGraph(g, stack) && Marked(onPath, stack) && Account(g, doc, budget, stack)
  }

  method Walkable(g: Graph, doc: Ref) returns (ok: bool)
    requires doc in g
    ensures ok <==> ExpandsWithin(g, doc, MAX_EXPANDED_NODES)
  {
    var budget: int := MAX_EXPANDED_NODES;
    var onPath: set<Ref> := {};
    var stack := [Item(doc, false)];
    WalkStart(g, doc);
    while stack != []
      invariant 0 <= budget && Walking(g, doc, budget, onPath, stack)
      decreases budget, |stack|
    {
      var top, rest := stack[|stack| - 1], stack[..|stack| - 1];
      assert stack == rest + [top];
      if top.leaving {
        WalkLeave(g, doc, budget, onPath, rest, top);
        onPath := onPath - {top.node};
        stack := rest;
        continue;
      }
      budget := budget - 1;
      if budget < 0 {
        WalkSpent(g, doc, onPath, rest, top);
        return false;
      }
      if g[top.node].Scalar? {
        WalkScalar(g, doc, budget, onPath, rest, top);
        stack := rest;
        continue;
      }
      if top.node in onPath {
        RevisitIsCycle(g, doc, budget, onPath, rest, top);
        return false;
      }
      WalkEnter(g, doc, budget, onPath, rest, top.node);
      onPath := onPath + {top.node};
      stack := rest + [Item(top.node, true)] + Entering(g[top.node].children);
    }
    WalkDone(g, doc, budget, onPath);
    return true;
  }

  lemma MarksBelow(onPath: set<Ref>, rest: seq<Item>, top: Item)
    requires Marked(onPath, rest + [top])
    ensures Marked(if top.leaving then onPath - {top.node} else onPath, rest)
  {
    var before := rest + [top];
    var left := if top.leaving then onPath - {top.node} else onPath;
    forall r | r in left
      ensures exists i :: 0 <= i < |rest| && rest[i] == Item(r, true)
    {
      var i :| 0 <= i < |before| && before[i] == Item(r, true);
      assert rest[i] == Item(r, true);
    }
    assert forall i | 0 <= i < |rest| :: rest[i] == before[i];
    assert before[|rest|] == top;
  }

  lemma MarksAbove(onPath: set<Ref>, rest: seq<Item>, r: Ref, rs: seq<Ref>)
    requires r in onPath && Marked(onPath - {r}, rest)
    ensures Marked(onPath, rest + [Item(r, true)] + Entering(rs))
  {
    var stack := rest + [Item(r, true)] + Entering(rs);
    assert stack[|rest|] == Item(r, true);
    forall x | x in onPath
      ensures exists i :: 0 <= i < |stack| && stack[i] == Item(x, true)
    {
      if x != r {
        var i :| 0 <= i < |rest| && rest[i] == Item(x, true);
        assert stack[i] == Item(x, true);
      }
    }
    assert forall i | 0 <= i < |stack| && i != |rest| && stack[i].leaving :: i < |rest| && rest[i] == stack[i];
  }

  lemma WalkStart(g: Graph, doc: Ref)
    requires doc in g
    ensures Walking(g, doc, MAX_EXPANDED_NODES, {}, [Item(doc, false)])
  {
    var stack := [Item(doc, false)];
    assert stack == [] + [Item(doc, false)] && stack[0] == Item(doc, false);
    if Finite(g, doc) {
      OwedTop(g, [], Item(doc, false));
    }
  }

  lemma WalkLeave(g: Graph, doc: Ref, budget: int, onPath: set<Ref>, rest: seq<Item>, top: Item)
    requires Walking(g, doc, budget, onPath, rest + [top]) && top.leaving
    ensures Walking(g, doc, budget, onPath - {top.node}, rest)
  {
    var stack := rest + [top];
    assert forall i | 0 <= i < |rest| :: rest[i] == stack[i];
    assert stack[|rest|] == top;
    MarksBelow(onPath, rest, top);
    if Finite(g, doc) {
      OwedTop(g, rest, top);
    }
  }

  lemma WalkScalar(g: Graph, doc: Ref, budget: int, onPath: set<Ref>, rest: seq<Item>, top: Item)
    requires Walking(g, doc, budget + 1, onPath, rest + [top]) && !top.leaving
    requires top.node in g && g[top.node].Scalar?
    ensures Walking(g, doc, budget, onPath, rest)
  {
    var stack := rest + [top];
    assert forall i | 0 <= i < |rest| :: rest[i] == stack[i];
    assert stack[|rest|] == top;
    MarksBelow(onPath, rest, top);
    ScalarUnfolds(g, top.node);
    if Finite(g, doc) {
      OwedTop(g, rest, top);
    }
  }

  lemma WalkSpent(g: Graph, doc: Ref, onPath: set<Ref>, rest: seq<Item>, top: Item)
    requires Walking(g, doc, 0, onPath, rest + [top]) && !top.leaving
    ensures !ExpandsWithin(g, doc, MAX_EXPANDED_NODES)
  {
    WithinIsSize(g, doc, MAX_EXPANDED_NODES);
    if Finite(g, doc) {
      OwedTop(g, rest, top);
    }
  }

  lemma WalkDone(g: Graph, doc: Ref, budget: nat, onPath: set<Ref>)
    requires Walking(g, doc, budget, onPath, [])
    ensures ExpandsWithin(g, doc, MAX_EXPANDED_NODES)
  {
    WithinIsSize(g, doc, MAX_EXPANDED_NODES);
  }

  lemma RevisitIsCycle(g: Graph, doc: Ref, budget: int, onPath: set<Ref>, rest: seq<Item>, top: Item)
    requires Walking(g, doc, budget + 1, onPath, rest + [top])
    requires !top.leaving && top.node in onPath
    ensures !ExpandsWithin(g, doc, MAX_EXPANDED_NODES)
  {
    WithinIsSize(g, doc, MAX_EXPANDED_NODES);
    var stack := rest + [top];
    var i :| 0 <= i < |stack| && stack[i] == Item(top.node, true);
    assert i < |rest| && stack[|rest|] == top;
  }

  lemma NestedEnter(g: Graph, rest: seq<Item>, r: Ref)
    requires r in g && g[r].Container? && InGraph(g, rest + [Item(r, false)])
    requires AllFinite(g, rest + [Item(r, false)]) && Nested(g, rest + [Item(r, false)])
    requires InGraph(g, rest + [Item(r, true)] + Entering(g[r].children))
    requires AllFinite(g, rest + [Item(r, true)] + Entering(g[r].children))
    ensures Nested(g, rest + [Item(r, true)] + Entering(g[r].children))
  {
    var before := rest + [Item(r, false)];
    var stack := rest + [Item(r, true)] + Entering(g[r].children);
    assert before[|rest|].node == r;
    forall i, j | 0 <= i < j < |stack| && stack[i].leaving
      ensures ExpandedSize(g, stack[j].node) < ExpandedSize(g, stack[i].node)
    {
      if j > |rest| {
        FiniteChild(g, r, j - |rest| - 1);
      }
      if i < |rest| {
        assert before[i] == stack[i];
        assert ExpandedSize(g, before[|rest|].node) < ExpandedSize(g, before[i].node);
        if j < |rest| {
          assert before[j] == stack[j];
        }
      }
    }
  }

  lemma EndlessEnter(g: Graph, rest: seq<Item>, r: Ref)
    requires r in g && g[r].Container? && InGraph(g, rest + [Item(r, false)])
    requires EndlessWaiting(g, rest + [Item(r, false)])
    requires InGraph(g, rest + [Item(r, true)] + Entering(g[r].children))
    ensures EndlessWaiting(g, rest + [Item(r, true)] + Entering(g[r].children))
  {
    var cs := g[r].children;
    var before := rest + [Item(r, false)];
    var stack := rest + [Item(r, true)] + Entering(cs);
    var i :| 0 <= i < |before| && !before[i].leaving && !Finite(g, before[i].node);
    if i < |rest| {
      assert stack[i] == before[i];
    } else if k :| 0 <= k < |cs| && !Finite(g, cs[k]) {
      assert stack[|rest| + 1 + k] == Item(cs[k], false);
    } else {
      FiniteFromChildren(g, r);
    }
  }

  lemma WalkEnter(g: Graph, doc: Ref, budget: int, onPath: set<Ref>, rest: seq<Item>, r: Ref)
    requires Walking(g, doc, budget + 1, onPath, rest + [Item(r, false)])
    requires r in g && g[r].Container? && r !in onPath
    ensures Walking(g, doc, budget, onPath + {r}, rest + [Item(r, true)] + Entering(g[r].children))
  {
    var cs := g[r].children;
    var before := rest + [Item(r, false)];
    var base := rest + [Item(r, true)];
    assert forall i | 0 <= i < |rest| :: rest[i] == before[i];
    assert InGraph(g, base + Entering(cs));
    MarksBelow(onPath, rest, Item(r, false));
    assert onPath + {r} - {r} == onPath;
    MarksAbove(onPath + {r}, rest, r, cs);
    if Finite(g, doc) {
      OwedTop(g, rest, Item(r, false));
      OwedTop(g, rest, Item(r, true));
      var t := Unfolding(g, r);
      OwedPush(g, base, cs, t.kids);
      NestedEnter(g, rest, r);
    } else {
      EndlessEnter(g, rest, r);
    }
  }
}
