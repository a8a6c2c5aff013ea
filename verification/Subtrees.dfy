/**
  Subtrees as values, and two ways to write one down: as the rows of a walk
  level by level, and as a list whose items name their parents by position.
 */
module Subtrees {
  import opened Wrappers
  import opened Flat
  import opened Sessions
  import opened Tables
  import opened Store
  import opened Placements
  import opened Volumes

  // ---- Sets in order ---------------------------------------------------------------

  ghost predicate Rising(q: seq<nat>) {
    forall i, j | 0 <= i < j < |q| :: q[i] < q[j]
  }

  lemma {:induction false} SmallestExists(s: set<nat>) returns (w: nat)
    requires s != {}
    ensures w in s && forall y | y in s :: w <= y
  {
    var x :| x in s;
    var rest := s - {x};
    w := x;
    if rest != {} {
      var z := SmallestExists(rest);
      if z < x { w := z; }
    }
    forall y | y in s ensures w <= y { assert y == x || y in rest; }
  }

  function Smallest(s: set<nat>): (w: nat)
    requires s != {}
    ensures w in s && forall y | y in s :: w <= y
  {
    assert exists x :: x in s && forall y | y in s :: x <= y by { var w := SmallestExists(s); }
    var x :| x in s && forall y | y in s :: x <= y;
    x
  }

  function Ordered(s: set<nat>): (q: seq<nat>)
    ensures forall x: nat :: x in q <==> x in s
    ensures Rising(q)
  {
    if s == {} then []
    else
      var x := Smallest(s);
      var rest := Ordered(s - {x});
      assert forall i | 0 <= i < |rest| :: rest[i] in rest;
      [x] + rest
  }

  /** There is only one rising list of given elements. */
  lemma {:induction false} RisingIsUnique(p: seq<nat>, q: seq<nat>)
    requires Rising(p) && Rising(q) && forall x: nat :: x in p <==> x in q
    ensures p == q
  {
    HeadIsIn(p);
    HeadIsIn(q);
    if p != [] {
      assert p[0] in q && q != [] && q[0] in p;
      forall x ensures x in p[1..] <==> x in q[1..] {
        TailOfRising(p, x);
        TailOfRising(q, x);
      }
      RisingIsUnique(p[1..], q[1..]);
      assert p == [p[0]] + p[1..] && q == [q[0]] + q[1..];
    }
  }

  lemma HeadIsIn(q: seq<nat>)
    ensures q == [] || q[0] in q
  {
  }

  lemma TailOfRising(p: seq<nat>, x: nat)
    requires Rising(p) && p != []
    ensures x in p[1..] <==> x in p && x != p[0]
  {
    assert p == [p[0]] + p[1..];
    if x in p[1..] {
      var i :| 0 <= i < |p[1..]| && p[1..][i] == x;
      assert p[i + 1] == x;
    }
  }

  lemma OrderedIs(s: set<nat>, q: seq<nat>)
    requires Rising(q) && forall x: nat :: x in q <==> x in s
    ensures Ordered(s) == q
  {
    RisingIsUnique(Ordered(s), q);
  }

  // ---- Subtrees ------------------------------------------------------------------------

  /** What there is to a node apart from its placements. */
  datatype Traits = Traits(
    kind: Kind,
    created: nat,
    modified: nat,
    metadata: map<string, string>,
    uid: Option<nat>,
    gid: Option<nat>,
    mode: Option<nat>,
    xattrs: map<string, bytes>,
    keep: Option<int>,
    data: bytes)

  datatype Tree = Tree(traits: Traits, branches: seq<(string, Tree)>)

  /** Nodes, placements, columns and content together. */
  datatype Shelf = Shelf(sp: Space, infos: map<Node, Info>, t: Tables)

  ghost predicate Complete(sh: Shelf) {
    && Guarded(sh.sp) && sh.infos.Keys == sh.sp.kinds.Keys
  }

  function TraitsOf(sh: Shelf, n: Node): Traits
    requires n in sh.sp.kinds && n in sh.infos
  {
    var info := sh.infos[n];
    Traits(sh.sp.kinds[n], info.created, Modified(info), info.metadata, info.uid, info.gid, info.mode, info.xattrs,
           if n in sh.t.content then sh.t.content[n].keep else None, BytesOf(sh.t, n))
  }

  /** The active placements in `n`, oldest first. */
  function ChildEdges(sp: Space, n: Node): (es: seq<EdgeId>)
    ensures forall i | 0 <= i < |es| :: sp.Active(es[i]) && sp.edges[es[i]].parent == n
  {
    var es := Ordered(set e | e in sp.edges && sp.Active(e) && sp.edges[e].parent == n);
    assert forall i | 0 <= i < |es| :: es[i] in es;
    es
  }

  /** The subtree of `n`, `depth` levels of it: names, traits and order of children. */
  ghost function TreeOf(sh: Shelf, n: Node, depth: nat): Tree
    requires Complete(sh) && n in sh.sp.kinds
    decreases depth
  {
    var es := ChildEdges(sh.sp, n);
    Tree(TraitsOf(sh, n),
         if depth == 0 then []
         else seq(|es|,
                  i requires 0 <= i < |es| => (sh.sp.edges[es[i]].name,
                                               TreeOf(sh, sh.sp.edges[es[i]].child, depth - 1))))
  }

  /** An item of a packed list: the position of its parent in the list, or -1. */
  datatype Item = Item(parent: int, name: string, traits: Traits)

  /** A parent comes before its children and is a container; only the first item has none. */
  ghost predicate WellFormed(items: seq<Item>) {
    && items != [] && items[0].parent == -1
    && forall k | 0 < k < |items| :: 0 <= items[k].parent < k && items[items[k].parent].traits.kind == Container
  }

  /** The positions below `n` of the items whose parent is item `j`. */
  function ChildItems(items: seq<Item>, j: int, n: nat): (q: seq<nat>)
    requires n <= |items|
    ensures forall x: nat :: x in q <==> x < n && items[x].parent == j
    ensures Rising(q)
  {
    if n == 0 then []
    else
      var before := ChildItems(items, j, n - 1);
      assert forall i | 0 <= i < |before| :: before[i] in before;
      if items[n - 1].parent == j then before + [n - 1] else before
  }

  ghost function TreeIn(items: seq<Item>, j: nat, depth: nat): Tree
    requires j < |items|
    decreases depth
  {
    var q := ChildItems(items, j, |items|);
    Tree(items[j].traits,
         if depth == 0 then []
         else seq(|q|, i requires 0 <= i < |q| => assert q[i] in q; (items[q[i]].name, TreeIn(items, q[i], depth - 1))))
  }

  // ---- Trees branch by branch ----------------------------------------------------------------

  lemma SameTree(t: Tree, u: Tree)
    requires t.traits == u.traits && |t.branches| == |u.branches|
    requires forall m | 0 <= m < |t.branches| :: t.branches[m] == u.branches[m]
    ensures t == u
  {
    assert t.branches == u.branches;
  }

  lemma BranchesIn(items: seq<Item>, j: nat, depth: nat)
    requires j < |items|
    ensures var c, t := ChildItems(items, j, |items|), TreeIn(items, j, depth);
            && (forall m | 0 <= m < |c| :: c[m] < |items|)
            && t.traits == items[j].traits && |t.branches| == (if depth == 0 then 0 else |c|)
            && (depth > 0 ==> forall m | 0 <= m < |c| :: t.branches[m] == (items[c[m]].name,
                                                                           TreeIn(items, c[m], depth - 1)))
  {
    var c := ChildItems(items, j, |items|);
    assert forall m | 0 <= m < |c| :: c[m] in c;
  }

  lemma BranchesOf(sh: Shelf, n: Node, depth: nat)
    requires Complete(sh) && n in sh.sp.kinds
    ensures var es, t := ChildEdges(sh.sp, n), TreeOf(sh, n, depth);
            && (forall m | 0 <= m < |es| :: sh.sp.edges[es[m]].child in sh.sp.kinds)
            && t.traits == TraitsOf(sh, n) && |t.branches| == (if depth == 0 then 0 else |es|)
            && (depth > 0 ==>
                  forall m | 0 <= m < |es| ::
                    t.branches[m] == (sh.sp.edges[es[m]].name, TreeOf(sh, sh.sp.edges[es[m]].child, depth - 1)))
  {
  }

  // ---- A list planted as nodes ---------------------------------------------------------------

  /** The new placement made for item `k`. */
  function Placement(target: Node, items: seq<Item>, ids: seq<Node>, k: nat): Edge
    requires k < |items| && k < |ids| && -1 <= items[k].parent < |ids|
  {
    Edge(if items[k].parent == -1 then target else ids[items[k].parent], ids[k], items[k].name, false)
  }

  ghost predicate ParentsFirst(items: seq<Item>) {
    forall k | 0 <= k < |items| :: -1 <= items[k].parent < k
  }

  ghost predicate FreshIds(sp: Space, ids: seq<Node>) {
    && (forall k | 0 <= k < |ids| :: ids[k] !in sp.kinds)
    && (forall j, k | 0 <= j < k < |ids| :: ids[j] != ids[k])
  }

  /** `sp` is `before` with a node `ids[k]`, placed by the edge `es[k]`, for every item. */
  ghost predicate PlantedAt(before: Space, sp: Space, target: Node, items: seq<Item>, ids: seq<Node>, es: seq<EdgeId>) {
    && |ids| == |items| && |es| == |items| && ParentsFirst(items)
    && FreshIds(before, ids) && Rising(es) && (forall x | x in sp.kinds :: x in before.kinds || x in ids)
    && (forall k | 0 <= k < |es| :: es[k] !in before.edges)
    && (forall k | 0 <= k < |es| :: es[k] in sp.edges && sp.edges[es[k]] == Placement(target, items, ids, k))
    && (forall e | e in sp.edges :: e in es || (e in before.edges && sp.edges[e] == before.edges[e]))
  }

  ghost predicate TraitsPlanted(sh: Shelf, items: seq<Item>, ids: seq<Node>)
    requires Complete(sh)
  {
    |ids| == |items| && forall k | 0 <= k < |ids| :: ids[k] in sh.sp.kinds && TraitsOf(sh, ids[k]) == items[k].traits
  }

  lemma PlantedChildren(before: Space, sp: Space, target: Node, items: seq<Item>, ids: seq<Node>, es: seq<EdgeId>,
                        j: nat)
    requires Guarded(before) && target in before.kinds && PlantedAt(before, sp, target, items, ids, es) && j < |items|
    ensures var q := ChildItems(items, j, |items|);
            && (forall i | 0 <= i < |q| :: q[i] < |items|)
            && ChildEdges(sp, ids[j]) == seq(|q|, i requires 0 <= i < |q| => es[q[i]])
  {
    hide Guarded, PlantedAt, Rising, Space.Active;
    var q := ChildItems(items, j, |items|);
    assert forall i | 0 <= i < |q| :: q[i] in q;
    PlantedShape(before, sp, target, items, ids, es);
    var p := seq(|q|, i requires 0 <= i < |q| => es[q[i]]);
    var placed := set e | e in sp.edges && sp.Active(e) && sp.edges[e].parent == ids[j];
    RisingThrough(es, q, p);
    forall e: nat ensures e in p <==> e in placed {
      MemberThrough(es, q, p, e);
      if e in p {
        var k :| k in q && es[k] == e;
        PlantedChild(before, sp, target, items, ids, es, j, k);
      }
      if e in placed {
        PlantedParent(before, sp, target, items, ids, es, j, e);
        var k :| 0 <= k < |es| && es[k] == e && items[k].parent == j;
        assert k in q;
      }
    }
    OrderedIs(placed, p);
  }

  lemma RisingThrough(es: seq<nat>, q: seq<nat>, p: seq<nat>)
    requires Rising(es) && Rising(q) && |p| == |q|
    requires forall i | 0 <= i < |q| :: q[i] < |es| && p[i] == es[q[i]]
    ensures Rising(p)
  {
  }

  lemma MemberThrough(es: seq<nat>, q: seq<nat>, p: seq<nat>, e: nat)
    requires |p| == |q| && forall i | 0 <= i < |q| :: q[i] < |es| && p[i] == es[q[i]]
    ensures forall k | k in q :: k < |es|
    ensures e in p <==> exists k :: k in q && es[k] == e
  {
    if e in p {
      var i :| 0 <= i < |p| && p[i] == e;
      assert q[i] in q;
    }
    if k :| k in q && es[k] == e {
      var i :| 0 <= i < |q| && q[i] == k;
      assert p[i] in p;
    }
  }

  lemma PlantedShape(before: Space, sp: Space, target: Node, items: seq<Item>, ids: seq<Node>, es: seq<EdgeId>)
    requires PlantedAt(before, sp, target, items, ids, es)
    ensures |ids| == |items| == |es| && Rising(es)
  {
  }

  /** The placement made for an item hangs off the node of its parent. */
  lemma PlantedChild(before: Space, sp: Space, target: Node, items: seq<Item>, ids: seq<Node>, es: seq<EdgeId>, j: nat,
                     k: nat)
    requires PlantedAt(before, sp, target, items, ids, es) && j < |items| && k < |items| && items[k].parent == j
    ensures |ids| == |items| == |es| && sp.Active(es[k]) && sp.edges[es[k]].parent == ids[j]
  {
    assert sp.edges[es[k]] == Placement(target, items, ids, k);
  }

  /** Only the placements made for its items hang off a planted node. */
  lemma PlantedParent(before: Space, sp: Space, target: Node, items: seq<Item>, ids: seq<Node>, es: seq<EdgeId>, j: nat,
                      e: EdgeId)
    requires Guarded(before) && target in before.kinds && PlantedAt(before, sp, target, items, ids, es) && j < |items|
    requires sp.Active(e) && sp.edges[e].parent == ids[j]
    ensures exists k :: 0 <= k < |es| && es[k] == e && items[k].parent == j
  {
    assert e in es;
    var k :| 0 <= k < |es| && es[k] == e;
    assert sp.edges[e] == Placement(target, items, ids, k);
    var parent := items[k].parent;
    assert parent != -1;
    assert ids[parent] == ids[j];
  }

  lemma PlantedNode(before: Space, sh: Shelf, target: Node, items: seq<Item>, ids: seq<Node>, es: seq<EdgeId>, k: nat)
    requires Complete(sh) && PlantedAt(before, sh.sp, target, items, ids, es) && TraitsPlanted(sh, items, ids)
    requires k < |items|
    ensures |ids| == |items| == |es| && ids[k] in sh.sp.kinds && TraitsOf(sh, ids[k]) == items[k].traits
    ensures es[k] in sh.sp.edges && sh.sp.edges[es[k]].name == items[k].name && sh.sp.edges[es[k]].child == ids[k]
  {
    assert sh.sp.edges[es[k]] == Placement(target, items, ids, k);
  }

  /** Planting a list builds the tree the list describes. */
  lemma {:induction false} PlantedIsTree(before: Space, sh: Shelf, target: Node, items: seq<Item>, ids: seq<Node>,
                                         es: seq<EdgeId>, j: nat, depth: nat)
    requires Guarded(before) && target in before.kinds && Complete(sh) && j < |items|
    requires PlantedAt(before, sh.sp, target, items, ids, es) && TraitsPlanted(sh, items, ids)
    ensures TreeOf(sh, ids[j], depth) == TreeIn(items, j, depth)
    decreases depth
  {
    hide Complete, Guarded, PlantedAt, TraitsPlanted, TraitsOf, TreeOf, TreeIn, Space.Active;
    PlantedNode(before, sh, target, items, ids, es, j);
    PlantedChildren(before, sh.sp, target, items, ids, es, j);
    BranchesOf(sh, ids[j], depth);
    BranchesIn(items, j, depth);
    var q := ChildItems(items, j, |items|);
    var t, u := TreeOf(sh, ids[j], depth), TreeIn(items, j, depth);
    if depth > 0 {
      forall i | 0 <= i < |q| ensures t.branches[i] == u.branches[i] {
        PlantedNode(before, sh, target, items, ids, es, q[i]);
        PlantedIsTree(before, sh, target, items, ids, es, q[i], depth - 1);
      }
    }
    SameTree(t, u);
  }
}
