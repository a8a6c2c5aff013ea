/**
  The walk copy and pack share: active placements level by level, oldest first
  in each level. Written down as a list whose items point at their parents, it
  describes the subtree it walked.
 */
module Listing {
  import opened Wrappers
  import opened Sessions
  import opened Store
  import opened Forest
  import opened Placements
  import opened Subtrees

  function EdgesFrom(sp: Space, above: set<Node>): set<EdgeId> {
    set e | e in sp.edges && sp.Active(e) && sp.edges[e].parent in above
  }

  function LevelNodes(sp: Space, r: Node, d: nat): set<Node> {
    if d == 0 then {r} else set e | e in EdgesFrom(sp, LevelNodes(sp, r, d - 1)) :: sp.edges[e].child
  }

  /** A placement and how far down the walk met it. */
  datatype Row = Row(edge: EdgeId, level: nat)

  function Tagged(es: seq<EdgeId>, level: nat): (q: seq<Row>)
    ensures |q| == |es| && forall i | 0 <= i < |q| :: q[i] == Row(es[i], level)
  {
    seq(|es|, i requires 0 <= i < |es| => Row(es[i], level))
  }

  /** `enumerate_subtree`, without its first row: the placements walked, by depth and then by edge id. */
  function Levels(sp: Space, r: Node, d: nat): seq<Row> {
    if d == 0 then [] else Levels(sp, r, d - 1) + Tagged(Ordered(EdgesFrom(sp, LevelNodes(sp, r, d - 1))), d)
  }

  /** The placement `e` is `d` levels beneath `r`. */
  ghost predicate AtLevel(sp: Space, r: Node, e: EdgeId, d: nat) {
    d > 0 && sp.Active(e) && Up(sp.Tree(), sp.edges[e].parent, d - 1) == Some(r)
  }

  lemma {:induction false} LevelNodesMeaning(sp: Space, r: Node, d: nat, x: Node)
    requires Guarded(sp) && sp.IsContainer(x)
    ensures x in LevelNodes(sp, r, d) <==> Up(sp.Tree(), x, d) == Some(r)
  {
    hide Space.Tree;
    if d > 0 {
      if x in LevelNodes(sp, r, d) {
        var e :| e in EdgesFrom(sp, LevelNodes(sp, r, d - 1)) && sp.edges[e].child == x;
        LevelNodesMeaning(sp, r, d - 1, sp.edges[e].parent);
        TreeAt(sp, e);
      }
      if Up(sp.Tree(), x, d) == Some(r) {
        var e := TreeEdge(sp, x);
        LevelNodesMeaning(sp, r, d - 1, sp.edges[e].parent);
        assert e in EdgesFrom(sp, LevelNodes(sp, r, d - 1));
      }
    }
  }

  lemma LevelMeaning(sp: Space, r: Node, d: nat, e: EdgeId)
    requires Guarded(sp) && d > 0
    ensures e in EdgesFrom(sp, LevelNodes(sp, r, d - 1)) <==> AtLevel(sp, r, e, d)
  {
    hide Space.Tree;
    if sp.Active(e) { LevelNodesMeaning(sp, r, d - 1, sp.edges[e].parent); }
  }

  /** A row for every placement at every level the walk meets it, and no other. */
  lemma {:induction false} LevelsMembers(sp: Space, r: Node, d: nat, row: Row)
    requires Guarded(sp)
    ensures row in Levels(sp, r, d) <==> row.level <= d && AtLevel(sp, r, row.edge, row.level)
  {
    hide AtLevel, Space.Tree, EdgesFrom, Guarded;
    if d > 0 {
      LevelsMembers(sp, r, d - 1, row);
      LevelMeaning(sp, r, d, row.edge);
      TaggedMembers(Ordered(EdgesFrom(sp, LevelNodes(sp, r, d - 1))), d, row);
    } else {
      NoLevelZero(sp, r, row.edge);
    }
  }

  lemma TaggedMembers(es: seq<EdgeId>, level: nat, row: Row)
    ensures row in Tagged(es, level) <==> row.edge in es && row.level == level
  {
    if row.edge in es && row.level == level {
      var i :| 0 <= i < |es| && es[i] == row.edge;
      assert Tagged(es, level)[i] == row;
    }
  }

  lemma NoLevelZero(sp: Space, r: Node, e: EdgeId)
    ensures !AtLevel(sp, r, e, 0)
  {
  }

  /** Rows come by depth, then by edge id. */
  ghost predicate ByLevel(q: seq<Row>) {
    forall i, j | 0 <= i < j < |q| :: q[i].level < q[j].level || (q[i].level == q[j].level && q[i].edge < q[j].edge)
  }

  lemma {:induction false} LevelsByLevel(sp: Space, r: Node, d: nat)
    requires Guarded(sp)
    ensures ByLevel(Levels(sp, r, d))
  {
    hide AtLevel, Space.Tree, EdgesFrom, Guarded, ByLevel, Tagged, Rising;
    if d == 0 {
      NothingByLevel();
    } else {
      LevelsByLevel(sp, r, d - 1);
      var above := Levels(sp, r, d - 1);
      forall i | 0 <= i < |above| ensures above[i].level <= d - 1 {
        assert above[i] in above;
        LevelsMembers(sp, r, d - 1, above[i]);
      }
      OneLevelOn(above, Ordered(EdgesFrom(sp, LevelNodes(sp, r, d - 1))), d);
    }
  }

  lemma NothingByLevel()
    ensures ByLevel([])
  {
  }

  lemma OneLevelOn(above: seq<Row>, es: seq<EdgeId>, d: nat)
    requires ByLevel(above) && Rising(es) && forall i | 0 <= i < |above| :: above[i].level < d
    ensures ByLevel(above + Tagged(es, d))
  {
  }

  // ---- Rows as items ---------------------------------------------------------------------

  predicate Known(sp: Space, q: seq<Row>) {
    forall k | 0 <= k < |q| :: q[k].edge in sp.edges
  }

  /** The node of row `i`: the root first, then the children of the placements walked. */
  function RowNode(sp: Space, r: Node, q: seq<Row>, i: nat): Node
    requires i <= |q| && Known(sp, q)
  {
    if i == 0 then r else sp.edges[q[i - 1].edge].child
  }

  function RowLevel(q: seq<Row>, i: nat): nat
    requires i <= |q|
  {
    if i == 0 then 0 else q[i - 1].level
  }

  /** `it` is row `i` of the walk `q`, pointing at the row of its parent one level up. */
  ghost predicate RowIs(sh: Shelf, r: Node, q: seq<Row>, i: nat, it: Item)
    requires Complete(sh) && Known(sh.sp, q) && i <= |q|
  {
    && RowNode(sh.sp, r, q, i) in sh.sp.kinds && it.traits == TraitsOf(sh, RowNode(sh.sp, r, q, i))
    && if i == 0 then it.parent == -1
       else
         && it.name == sh.sp.edges[q[i - 1].edge].name
         && 0 <= it.parent < i
         && IsParentRow(sh.sp, r, q, it.parent, i)
  }

  /** Row `p` is the parent of row `i`. */
  ghost predicate IsParentRow(sp: Space, r: Node, q: seq<Row>, p: nat, i: nat)
    requires Known(sp, q) && p < i <= |q|
  {
    RowNode(sp, r, q, p) == sp.edges[q[i - 1].edge].parent && RowLevel(q, p) + 1 == RowLevel(q, i)
  }

  /** `items` are the first rows of the walk `q`. */
  ghost predicate ListsUpTo(sh: Shelf, r: Node, q: seq<Row>, items: seq<Item>) {
    && Complete(sh) && r in sh.sp.kinds && Known(sh.sp, q)
    && 0 < |items| <= |q| + 1
    && forall i | 0 <= i < |items| :: RowIs(sh, r, q, i, items[i])
  }

  ghost predicate Lists(sh: Shelf, r: Node, q: seq<Row>, items: seq<Item>) {
    ListsUpTo(sh, r, q, items) && |items| == |q| + 1
  }

  /** What is known of a row below the first. */
  lemma RowMeaning(sp: Space, r: Node, d: nat, q: seq<Row>, i: nat)
    requires Guarded(sp) && q == Levels(sp, r, d) && 0 < i <= |q|
    ensures 0 < RowLevel(q, i) <= d && AtLevel(sp, r, q[i - 1].edge, RowLevel(q, i)) && sp.Active(q[i - 1].edge)
  {
    assert q[i - 1] in q;
    LevelsMembers(sp, r, d, q[i - 1]);
  }

  lemma RowHeight(sp: Space, r: Node, d: nat, q: seq<Row>, i: nat)
    requires Guarded(sp) && q == Levels(sp, r, d) && Known(sp, q) && i <= |q| && sp.IsContainer(RowNode(sp, r, q, i))
    ensures Up(sp.Tree(), RowNode(sp, r, q, i), RowLevel(q, i)) == Some(r)
  {
    if i > 0 {
      RowMeaning(sp, r, d, q, i);
      TreeAt(sp, q[i - 1].edge);
    }
  }

  /** On one level a container has one row only. */
  lemma RowIsUnique(sp: Space, r: Node, d: nat, q: seq<Row>, i: nat, j: nat)
    requires Guarded(sp) && q == Levels(sp, r, d) && Known(sp, q) && i <= j <= |q|
    requires RowNode(sp, r, q, i) == RowNode(sp, r, q, j) && sp.IsContainer(RowNode(sp, r, q, i))
    requires RowLevel(q, i) == RowLevel(q, j)
    ensures i == j
  {
    hide Space.Tree, AtLevel, Levels;
    if j > 0 { RowMeaning(sp, r, d, q, j); }
    if 0 < i < j {
      RowMeaning(sp, r, d, q, i);
      assert q[i - 1].edge == q[j - 1].edge;
      LevelsByLevel(sp, r, d);
    }
  }

  // ---- The list describes the subtree -----------------------------------------------------------

  lemma ListShape(sh: Shelf, r: Node, q: seq<Row>, items: seq<Item>)
    requires Lists(sh, r, q, items)
    ensures Complete(sh) && Guarded(sh.sp) && r in sh.sp.kinds && Known(sh.sp, q) && |items| == |q| + 1
  {
  }

  lemma RowFacts(sh: Shelf, r: Node, q: seq<Row>, items: seq<Item>, k: nat)
    requires Lists(sh, r, q, items) && k < |items|
    ensures |items| == |q| + 1 && Known(sh.sp, q) && Complete(sh)
    ensures RowNode(sh.sp, r, q, k) in sh.sp.kinds && items[k].traits == TraitsOf(sh, RowNode(sh.sp, r, q, k))
    ensures k > 0 ==> items[k].name == sh.sp.edges[q[k - 1].edge].name && 0 <= items[k].parent < k
                      && RowNode(sh.sp, r, q, items[k].parent) == sh.sp.edges[q[k - 1].edge].parent
                      && RowLevel(q, items[k].parent) + 1 == RowLevel(q, k)
    ensures k == 0 ==> items[k].parent == -1
  {
    assert RowIs(sh, r, q, k, items[k]);
  }

  /** The rows whose parent is row `i` are the placements in its node, in order. */
  lemma ListedChildren(sh: Shelf, r: Node, d: nat, q: seq<Row>, items: seq<Item>, i: nat)
    requires q == Levels(sh.sp, r, d) && Lists(sh, r, q, items)
    requires i < |items| && RowLevel(q, i) < d
    ensures var c := ChildItems(items, i, |items|);
            && (forall k | 0 <= k < |c| :: 0 < c[k] < |items|)
            && ChildEdges(sh.sp, RowNode(sh.sp, r, q, i)) == seq(|c|, k requires 0 <= k < |c| => q[c[k] - 1].edge)
  {
    hide Space.Tree, AtLevel, Levels, Complete, Lists, Guarded, Rising;
    ListShape(sh, r, q, items);
    var c := ChildItems(items, i, |items|);
    RowsBelow(sh, r, q, items, i, c);
    var p := seq(|c|, k requires 0 <= k < |c| => q[c[k] - 1].edge);
    var x := RowNode(sh.sp, r, q, i);
    var placed := set e | e in sh.sp.edges && sh.sp.Active(e) && sh.sp.edges[e].parent == x;
    forall e: nat ensures e in p <==> e in placed {
      EdgeThrough(q, c, p, e);
      if e in p {
        var k :| 0 <= k < |c| && p[k] == e;
        RowMeaning(sh.sp, r, d, q, c[k]);
      }
      if e in placed {
        ChildHasRow(sh, r, d, q, items, i, e);
        var k :| 0 < k < |items| && q[k - 1].edge == e && items[k].parent == i;
        assert k in c;
      }
    }
    RowsRise(sh, r, d, q, items, i, c, p);
    OrderedIs(placed, p);
  }

  lemma EdgeThrough(q: seq<Row>, c: seq<nat>, p: seq<EdgeId>, e: EdgeId)
    requires |p| == |c| && forall k | 0 <= k < |c| :: 0 < c[k] <= |q| && p[k] == q[c[k] - 1].edge
    ensures (exists k :: k in c && 0 < k <= |q| && q[k - 1].edge == e) ==> e in p
  {
    if k :| k in c && 0 < k <= |q| && q[k - 1].edge == e {
      var m :| 0 <= m < |c| && c[m] == k;
      assert p[m] in p;
    }
  }

  lemma RowsBelow(sh: Shelf, r: Node, q: seq<Row>, items: seq<Item>, i: nat, c: seq<nat>)
    requires Lists(sh, r, q, items) && i < |items| && c == ChildItems(items, i, |items|)
    ensures |items| == |q| + 1 && Known(sh.sp, q)
    ensures forall k | 0 <= k < |c| ::
              && 0 < c[k] < |items| && items[c[k]].parent == i
              && sh.sp.edges[q[c[k] - 1].edge].parent == RowNode(sh.sp, r, q, i)
              && q[c[k] - 1].level == RowLevel(q, i) + 1
  {
    hide Lists, Known, Complete, RowNode, RowLevel;
    RowFacts(sh, r, q, items, 0);
    forall k | 0 <= k < |c|
      ensures 0 < c[k] < |items| && items[c[k]].parent == i
      ensures sh.sp.edges[q[c[k] - 1].edge].parent == RowNode(sh.sp, r, q, i) && q[c[k] - 1].level == RowLevel(q, i) + 1
    {
      assert c[k] in c;
      RowBelow(sh, r, q, items, i, c[k]);
    }
  }

  lemma RowBelow(sh: Shelf, r: Node, q: seq<Row>, items: seq<Item>, i: nat, k: nat)
    requires Lists(sh, r, q, items) && i < |items| && k < |items| && items[k].parent == i
    ensures |items| == |q| + 1 && Known(sh.sp, q) && 0 < k
    ensures sh.sp.edges[q[k - 1].edge].parent == RowNode(sh.sp, r, q, i) && q[k - 1].level == RowLevel(q, i) + 1
  {
    hide Lists, Known, Complete, RowNode;
    RowFacts(sh, r, q, items, k);
  }

  /** Every placement in the node of a row above the cut-off has a row of its own, pointing there. */
  lemma ChildHasRow(sh: Shelf, r: Node, d: nat, q: seq<Row>, items: seq<Item>, i: nat, e: EdgeId)
    requires q == Levels(sh.sp, r, d) && Lists(sh, r, q, items)
    requires i < |items| && RowLevel(q, i) < d
    requires sh.sp.Active(e) && sh.sp.edges[e].parent == RowNode(sh.sp, r, q, i)
    ensures exists k :: 0 < k < |items| && q[k - 1].edge == e && items[k].parent == i
  {
    hide Space.Tree, Levels, Guarded, Lists, Complete;
    ListShape(sh, r, q, items);
    ParentIsContainer(sh.sp, e);
    RowHeight(sh.sp, r, d, q, i);
    var row := Row(e, RowLevel(q, i) + 1);
    assert AtLevel(sh.sp, r, e, row.level);
    LevelsMembers(sh.sp, r, d, row);
    hide AtLevel;
    var k :| 0 <= k < |q| && q[k] == row;
    RowFacts(sh, r, q, items, k + 1);
    var p := items[k + 1].parent;
    if p <= i { RowIsUnique(sh.sp, r, d, q, p, i); } else { RowIsUnique(sh.sp, r, d, q, i, p); }
    assert q[(k + 1) - 1].edge == e;
  }

  /** Rows of one parent are on one level, so they come by edge id. */
  lemma RowsRise(sh: Shelf, r: Node, d: nat, q: seq<Row>, items: seq<Item>, i: nat, c: seq<nat>, p: seq<EdgeId>)
    requires q == Levels(sh.sp, r, d) && Guarded(sh.sp) && |items| == |q| + 1 && i <= |q|
    requires Rising(c) && |p| == |c|
    requires forall k | 0 <= k < |c| ::
               0 < c[k] < |items| && q[c[k] - 1].level == RowLevel(q, i) + 1 && p[k] == q[c[k] - 1].edge
    ensures Rising(p)
  {
    hide Levels, Guarded;
    LevelsByLevel(sh.sp, r, d);
  }

  /** Read back as a tree, the list of a walk of `d` levels is the subtree, as many levels of it. */
  lemma {:induction false} ListedIsTree(sh: Shelf, r: Node, d: nat, q: seq<Row>, items: seq<Item>, i: nat, k: nat)
    requires q == Levels(sh.sp, r, d) && Lists(sh, r, q, items)
    requires i < |items| && RowLevel(q, i) + k <= d
    ensures RowNode(sh.sp, r, q, i) in sh.sp.kinds && TreeIn(items, i, k) == TreeOf(sh, RowNode(sh.sp, r, q, i), k)
    decreases k
  {
    hide Space.Tree, AtLevel, Levels, Lists, Known, Complete, Guarded, TraitsOf, TreeIn, TreeOf, ChildItems, ChildEdges;
    ListShape(sh, r, q, items);
    RowFacts(sh, r, q, items, i);
    var t, u := TreeIn(items, i, k), TreeOf(sh, RowNode(sh.sp, r, q, i), k);
    BranchesIn(items, i, k);
    BranchesOf(sh, RowNode(sh.sp, r, q, i), k);
    if k > 0 {
      ListedChildren(sh, r, d, q, items, i);
      var c := ChildItems(items, i, |items|);
      RowsBelow(sh, r, q, items, i, c);
      forall m | 0 <= m < |c| ensures t.branches[m] == u.branches[m] {
        RowFacts(sh, r, q, items, c[m]);
        ListedIsTree(sh, r, d, q, items, c[m], k - 1);
      }
    }
    SameTree(t, u);
  }

  /** Where the walk stops, so does the list. */
  lemma {:induction false} ListEnds(sh: Shelf, r: Node, d: nat, q: seq<Row>, items: seq<Item>, i: nat, k: nat)
    requires q == Levels(sh.sp, r, d) && Lists(sh, r, q, items)
    requires i < |items| && RowLevel(q, i) <= d <= RowLevel(q, i) + k
    ensures TreeIn(items, i, k) == TreeIn(items, i, d - RowLevel(q, i))
    decreases k
  {
    hide Space.Tree, AtLevel, Levels, Lists, Known, Complete, Guarded, TreeIn, ChildItems;
    ListShape(sh, r, q, items);
    var c := ChildItems(items, i, |items|);
    RowsBelow(sh, r, q, items, i, c);
    var l := RowLevel(q, i);
    BranchesIn(items, i, k);
    BranchesIn(items, i, d - l);
    var t, u := TreeIn(items, i, k), TreeIn(items, i, d - l);
    if l == d {
      if c != [] { RowMeaning(sh.sp, r, d, q, c[0]); }
    } else {
      forall m | 0 <= m < |c| ensures t.branches[m] == u.branches[m] {
        ListEnds(sh, r, d, q, items, c[m], k - 1);
      }
    }
    SameTree(t, u);
  }

  lemma ListsWellFormed(sh: Shelf, r: Node, q: seq<Row>, items: seq<Item>)
    requires Lists(sh, r, q, items)
    ensures WellFormed(items)
  {
    hide Lists;
    ListShape(sh, r, q, items);
    forall k | 0 <= k < |items|
      ensures k == 0 ==> items[k].parent == -1
      ensures k > 0 ==> 0 <= items[k].parent < k && items[items[k].parent].traits.kind == Container
    {
      RowFacts(sh, r, q, items, k);
      if k > 0 {
        RowFacts(sh, r, q, items, items[k].parent);
        ParentIsContainer(sh.sp, q[k - 1].edge);
      }
    }
  }

  // ---- What the depth bound cuts off ----------------------------------------------------------------

  /** No placement is `d` levels beneath `r`, and so none is further down. */
  ghost predicate NothingAt(sp: Space, r: Node, d: nat) {
    forall e :: !AtLevel(sp, r, e, d)
  }

  /** The walk has a row for every placement in the subtree exactly when none is further down than it goes. */
  lemma WalkIsWhole(sp: Space, r: Node, d: nat)
    requires Guarded(sp)
    ensures (forall e, k: nat | AtLevel(sp, r, e, k) :: Row(e, k) in Levels(sp, r, d)) <==> NothingAt(sp, r, d + 1)
  {
    hide Space.Tree, Levels, AtLevel, Guarded;
    forall e, k: nat | AtLevel(sp, r, e, k) ensures Row(e, k) in Levels(sp, r, d) <==> k <= d {
      LevelsMembers(sp, r, d, Row(e, k));
    }
    if NothingAt(sp, r, d + 1) {
      forall e, k: nat | AtLevel(sp, r, e, k) ensures k <= d {
        if k > d { SomethingBetween(sp, r, e, k, d + 1); }
      }
    }
  }

  /** Above a deep placement there is one at every level. */
  lemma SomethingBetween(sp: Space, r: Node, e: EdgeId, k: nat, d: nat)
    requires AtLevel(sp, r, e, k) && 0 < d <= k
    ensures exists f :: AtLevel(sp, r, f, d)
  {
    hide Space.Tree;
    if d < k {
      var x := sp.edges[e].parent;
      var p := sp.Tree();
      UpDefinedBelow(p, x, k - 1, k - 1 - d);
      var y := Up(p, x, k - 1 - d).value;
      UpAdds(p, x, y, k - 1 - d, d);
      assert Up(p, y, d) == Some(r);
      var f := TreeEdge(sp, y);
      assert AtLevel(sp, r, f, d);
    }
  }

  /** One level more shows nothing new exactly when nothing is placed there. */
  lemma {:induction false} OneLevelMore(sh: Shelf, n: Node, d: nat)
    requires Complete(sh) && n in sh.sp.kinds
    ensures TreeOf(sh, n, d + 1) == TreeOf(sh, n, d) <==> NothingAt(sh.sp, n, d + 1)
    decreases d
  {
    hide TreeOf, ChildEdges, Space.Tree, AtLevel, Guarded, NothingAt;
    if d == 0 {
      FirstLevel(sh, n);
    } else {
      var es := ChildEdges(sh.sp, n);
      BranchesDiffer(sh, n, d);
      LevelsUnder(sh.sp, n, d);
      forall i | 0 <= i < |es|
        ensures TreeOf(sh, sh.sp.edges[es[i]].child, d) == TreeOf(sh, sh.sp.edges[es[i]].child, d - 1)
                <==> NothingAt(sh.sp, sh.sp.edges[es[i]].child, d)
      {
        OneLevelMore(sh, sh.sp.edges[es[i]].child, d - 1);
      }
    }
  }

  lemma FirstLevel(sh: Shelf, n: Node)
    requires Complete(sh) && n in sh.sp.kinds
    ensures TreeOf(sh, n, 1) == TreeOf(sh, n, 0) <==> NothingAt(sh.sp, n, 1)
  {
    LevelsUnder(sh.sp, n, 0);
    hide Space.Tree, AtLevel, Guarded, NothingAt;
    assert |TreeOf(sh, n, 1).branches| == |ChildEdges(sh.sp, n)|;
  }

  lemma ChildrenKnown(sp: Space, n: Node)
    requires Guarded(sp)
    ensures var es := ChildEdges(sp, n); forall i | 0 <= i < |es| :: sp.edges[es[i]].child in sp.kinds
  {
  }

  lemma BranchesDiffer(sh: Shelf, n: Node, d: nat)
    requires Complete(sh) && n in sh.sp.kinds && d > 0
    ensures var es := ChildEdges(sh.sp, n);
            && (forall i | 0 <= i < |es| :: sh.sp.edges[es[i]].child in sh.sp.kinds)
            && (TreeOf(sh, n, d + 1) == TreeOf(sh, n, d)
                <==> forall i | 0 <= i < |es| ::
                       TreeOf(sh, sh.sp.edges[es[i]].child, d) == TreeOf(sh, sh.sp.edges[es[i]].child, d - 1))
  {
    hide Space.Tree;
    ChildrenKnown(sh.sp, n);
    var es := ChildEdges(sh.sp, n);
    var a, b := TreeOf(sh, n, d + 1).branches, TreeOf(sh, n, d).branches;
    assert |a| == |es| && |b| == |es|;
    if a == b {
      forall i | 0 <= i < |es|
        ensures TreeOf(sh, sh.sp.edges[es[i]].child, d) == TreeOf(sh, sh.sp.edges[es[i]].child, d - 1)
      {
        assert a[i].1 == b[i].1;
      }
    }
  }

  /** What is `d + 1` levels beneath a node is `d` levels beneath one of its children. */
  lemma LevelsUnder(sp: Space, n: Node, d: nat)
    requires Guarded(sp)
    ensures d == 0 ==> (NothingAt(sp, n, 1) <==> ChildEdges(sp, n) == [])
    ensures d > 0 ==> (NothingAt(sp, n, d + 1)
                       <==> forall i | 0 <= i < |ChildEdges(sp, n)| ::
                              NothingAt(sp, sp.edges[ChildEdges(sp, n)[i]].child, d))
  {
    hide Space.Tree;
    var es := ChildEdges(sp, n);
    var placed := set e | e in sp.edges && sp.Active(e) && sp.edges[e].parent == n;
    assert es == Ordered(placed);
    if d == 0 {
      forall e ensures AtLevel(sp, n, e, 1) <==> e in placed {}
      if es != [] { assert es[0] in placed; }
      if e :| AtLevel(sp, n, e, 1) { assert e in es; }
    } else {
      var l := d + 1;
      if e :| AtLevel(sp, n, e, l) {
        var f := TopOf(sp, n, e, d);
        assert f in es;
        var i :| 0 <= i < |es| && es[i] == f;
        assert !NothingAt(sp, sp.edges[es[i]].child, d);
      }
      forall i, e | 0 <= i < |es| && AtLevel(sp, sp.edges[es[i]].child, e, d) ensures AtLevel(sp, n, e, d + 1) {
        UnderChild(sp, n, es[i], e, d);
      }
    }
  }

  lemma TopOf(sp: Space, n: Node, e: EdgeId, d: nat) returns (f: EdgeId)
    requires d > 0 && AtLevel(sp, n, e, d + 1)
    ensures sp.Active(f) && sp.edges[f].parent == n && AtLevel(sp, sp.edges[f].child, e, d)
  {
    var x, p := sp.edges[e].parent, sp.Tree();
    UpDefinedBelow(p, x, d, d - 1);
    var y := Up(p, x, d - 1).value;
    UpLast(p, x, y, d - 1);
    f := TreeEdge(sp, y);
  }

  lemma UnderChild(sp: Space, n: Node, f: EdgeId, e: EdgeId, d: nat)
    requires Guarded(sp) && sp.Active(f) && sp.edges[f].parent == n && AtLevel(sp, sp.edges[f].child, e, d)
    ensures AtLevel(sp, n, e, d + 1)
  {
    var x, y, p := sp.edges[e].parent, sp.edges[f].child, sp.Tree();
    UpIsContainer(sp, x, d - 1, y);
    TreeAt(sp, f);
    UpLast(p, x, y, d - 1);
  }

  lemma {:induction false} UpIsContainer(sp: Space, x: Node, k: nat, y: Node)
    requires Guarded(sp) && sp.IsContainer(x) && Up(sp.Tree(), x, k) == Some(y)
    ensures sp.IsContainer(y)
    decreases k
  {
    if k > 0 {
      var e := TreeEdge(sp, x);
      UpIsContainer(sp, sp.edges[e].parent, k - 1, y);
    }
  }

  /** Once a level shows nothing new, no deeper one does. */
  lemma {:induction false} NothingDeeper(sh: Shelf, n: Node, d: nat, k: nat)
    requires Complete(sh) && n in sh.sp.kinds && NothingAt(sh.sp, n, d + 1) && d <= k
    ensures TreeOf(sh, n, k) == TreeOf(sh, n, d)
    decreases k
  {
    hide TreeOf, NothingAt, Guarded;
    if d < k {
      NothingDeeper(sh, n, d, k - 1);
      NoDeeperLevel(sh.sp, n, d, k - 1);
      OneLevelMore(sh, n, k - 1);
    }
  }

  lemma NoDeeperLevel(sp: Space, n: Node, d: nat, k: nat)
    requires NothingAt(sp, n, d + 1) && d <= k
    ensures NothingAt(sp, n, k + 1)
  {
    hide Space.Tree, AtLevel;
    var l := k + 1;
    forall e ensures !AtLevel(sp, n, e, l) {
      if AtLevel(sp, n, e, l) { SomethingBetween(sp, n, e, l, d + 1); }
    }
  }

  // ---- What a copy leaves behind --------------------------------------------------------------------

  /** `copy` carries times, metadata and content, not ownership, extended attributes or retention. */
  function Bare(t: Traits): Traits {
    t.(uid := None, gid := None, mode := None, xattrs := map[], keep := None)
  }

  function BareTree(t: Tree): Tree {
    Tree(Bare(t.traits),
         seq(|t.branches|, i requires 0 <= i < |t.branches| => (t.branches[i].0, BareTree(t.branches[i].1))))
  }

  ghost predicate BareItems(items: seq<Item>, bare: seq<Item>) {
    && |bare| == |items|
    && forall k | 0 <= k < |items| ::
         && bare[k].parent == items[k].parent && bare[k].traits == Bare(items[k].traits)
         && (k > 0 ==> bare[k].name == items[k].name)
  }

  lemma {:induction false} SameChildItems(items: seq<Item>, bare: seq<Item>, j: int, n: nat)
    requires BareItems(items, bare) && n <= |items|
    ensures ChildItems(bare, j, n) == ChildItems(items, j, n)
  {
    if n > 0 { SameChildItems(items, bare, j, n - 1); }
  }

  lemma {:induction false} BareIsBare(items: seq<Item>, bare: seq<Item>, j: nat, depth: nat)
    requires BareItems(items, bare) && j < |items| && items[0].parent == -1
    ensures |bare| == |items| && TreeIn(bare, j, depth) == BareTree(TreeIn(items, j, depth))
    decreases depth
  {
    hide BareItems, TreeIn, ChildItems, Bare;
    BareItem(items, bare, j);
    SameChildItems(items, bare, j, |items|);
    BranchesIn(items, j, depth);
    BranchesIn(bare, j, depth);
    var q := ChildItems(items, j, |items|);
    var t, u := TreeIn(items, j, depth), TreeIn(bare, j, depth);
    if depth > 0 {
      RootOutside(items, j, q);
      forall i | 0 <= i < |q| ensures u.branches[i] == (t.branches[i].0, BareTree(t.branches[i].1)) {
        BareItem(items, bare, q[i]);
        BareIsBare(items, bare, q[i], depth - 1);
      }
    }
    SameTree(u, BareTree(t));
  }

  lemma RootOutside(items: seq<Item>, j: nat, q: seq<nat>)
    requires items != [] && items[0].parent == -1 && q == ChildItems(items, j, |items|)
    ensures forall i | 0 <= i < |q| :: 0 < q[i] < |items|
  {
    assert forall i | 0 <= i < |q| :: q[i] in q;
  }

  lemma BareItem(items: seq<Item>, bare: seq<Item>, k: nat)
    requires BareItems(items, bare) && k < |items|
    ensures |bare| == |items| && bare[k].parent == items[k].parent && bare[k].traits == Bare(items[k].traits)
    ensures k > 0 ==> bare[k].name == items[k].name
  {
  }

  lemma BareBranches(t: Tree)
    ensures |BareTree(t).branches| == |t.branches|
    ensures forall i | 0 <= i < |t.branches| :: BareTree(t).branches[i] == (t.branches[i].0, BareTree(t.branches[i].1))
  {
  }

  lemma CompleteIsGuarded(sh: Shelf)
    requires Complete(sh)
    ensures Guarded(sh.sp)
  {
  }

  /** A level that holds something shows even when the traits are bare. */
  lemma {:induction false} BareSees(sh: Shelf, n: Node, d: nat)
    requires Complete(sh) && n in sh.sp.kinds && !NothingAt(sh.sp, n, d + 1)
    ensures BareTree(TreeOf(sh, n, d + 1)) != BareTree(TreeOf(sh, n, d))
    decreases d
  {
    hide Space.Tree, AtLevel, Complete, Guarded, NothingAt, TreeOf, BareTree, ChildEdges, TraitsOf;
    CompleteIsGuarded(sh);
    LevelsUnder(sh.sp, n, d);
    var es := ChildEdges(sh.sp, n);
    var a, b := TreeOf(sh, n, d + 1), TreeOf(sh, n, d);
    BranchesOf(sh, n, d + 1);
    BranchesOf(sh, n, d);
    BareBranches(a);
    BareBranches(b);
    if d > 0 {
      var i :| 0 <= i < |es| && !NothingAt(sh.sp, sh.sp.edges[es[i]].child, d);
      BareSees(sh, sh.sp.edges[es[i]].child, d - 1);
      assert BareTree(a).branches[i].1 != BareTree(b).branches[i].1;
    }
  }
}
