/**
  Copy, pack and unpack. One pass over the rows of a subtree, threading a map
  from old nodes to new: the parent of every row has been met before it.
 */
module Copying {
  import opened Wrappers
  import opened Sessions
  import opened Tables
  import opened Store
  import opened Forest
  import opened Placements
  import opened Resolution
  import opened Namespace
  import opened Volumes
  import opened Subtrees
  import opened Listing

  // ---- Parents come first ------------------------------------------------------------

  /** The parent of a row is on an earlier row, one level up. */
  lemma RowParent(sp: Space, r: Node, d: nat, q: seq<Row>, i: nat) returns (p: nat)
    requires Guarded(sp) && q == Levels(sp, r, d) && 0 < i <= |q| && Known(sp, q)
    ensures p < i && IsParentRow(sp, r, q, p, i)
  {
    hide Space.Tree, Levels, AtLevel, Guarded;
    var l, e := RowLevel(q, i), q[i - 1].edge;
    RowMeaning(sp, r, d, q, i);
    if l == 1 {
      FirstLevelParent(sp, r, e);
      p := 0;
    } else {
      var f := EdgeAbove(sp, r, e, l);
      LevelsMembers(sp, r, d, Row(f, l - 1));
      var k :| 0 <= k < |q| && q[k] == Row(f, l - 1);
      LevelsByLevel(sp, r, d);
      p := k + 1;
    }
  }

  lemma FirstLevelParent(sp: Space, r: Node, e: EdgeId)
    requires AtLevel(sp, r, e, 1)
    ensures sp.edges[e].parent == r
  {
  }

  lemma EdgeAbove(sp: Space, r: Node, e: EdgeId, l: nat) returns (f: EdgeId)
    requires AtLevel(sp, r, e, l) && l > 1
    ensures AtLevel(sp, r, f, l - 1) && sp.edges[f].child == sp.edges[e].parent
  {
    f := TreeEdge(sp, sp.edges[e].parent);
  }

  /** No row of that node comes after row `k`, among the first `n`. */
  ghost predicate IsLatest(sp: Space, r: Node, q: seq<Row>, k: nat, n: nat)
    requires Known(sp, q) && k < n <= |q| + 1
  {
    forall j | k < j < n :: RowNode(sp, r, q, j) != RowNode(sp, r, q, k)
  }

  /** Until a row's turn comes, its parent's node has had no later row, even where the walk goes round a cycle. */
  lemma ParentIsLatest(sp: Space, r: Node, d: nat, q: seq<Row>, p: nat, i: nat)
    requires Guarded(sp) && q == Levels(sp, r, d) && Known(sp, q) && p < i <= |q| && IsParentRow(sp, r, q, p, i)
    ensures IsLatest(sp, r, q, p, i)
  {
    hide Space.Tree, Levels, AtLevel, Guarded;
    forall j | p < j < i ensures RowNode(sp, r, q, j) != RowNode(sp, r, q, p) {
      if RowNode(sp, r, q, j) == RowNode(sp, r, q, p) { NotRepeated(sp, r, d, q, p, j, i); }
    }
  }

  lemma NotRepeated(sp: Space, r: Node, d: nat, q: seq<Row>, p: nat, j: nat, i: nat)
    requires Guarded(sp) && q == Levels(sp, r, d) && Known(sp, q) && p < j < i <= |q| && IsParentRow(sp, r, q, p, i)
    ensures RowNode(sp, r, q, j) != RowNode(sp, r, q, p)
  {
    hide Space.Tree, Levels, AtLevel, Guarded;
    if RowNode(sp, r, q, j) == RowNode(sp, r, q, p) {
      RowEdgeKnown(sp, r, d, q, i);
      ParentIsContainer(sp, q[i - 1].edge);
      LevelsByLevel(sp, r, d);
      var x := RowNode(sp, r, q, p);
      RowHeight(sp, r, d, q, p);
      RowHeight(sp, r, d, q, j);
      if RowLevel(q, j) == RowLevel(q, p) {
        RowIsUnique(sp, r, d, q, p, j);
      } else {
        RowMeaning(sp, r, d, q, j);
        assert RowLevel(q, j) == RowLevel(q, p) + 1;
        UpAdds(sp.Tree(), x, r, RowLevel(q, p), 1);
        assert Up(sp.Tree(), r, 1) == Some(r);
        NotOwnParent(sp, r);
      }
    }
  }

  lemma RowEdgeKnown(sp: Space, r: Node, d: nat, q: seq<Row>, i: nat)
    requires Known(sp, q) && 0 < i <= |q|
    ensures q[i - 1].edge in sp.edges
  {
  }

  lemma NotOwnParent(sp: Space, r: Node)
    requires Guarded(sp)
    ensures Up(sp.Tree(), r, 1) != Some(r)
  {
    hide Space.Tree;
    if Up(sp.Tree(), r, 1) == Some(r) {
      assert Up(sp.Tree(), sp.Tree()[r], 0) == Some(r);
      var e := TreeEdge(sp, r);
    }
  }

  lemma LevelsKnown(sp: Space, r: Node, d: nat)
    requires Guarded(sp)
    ensures Known(sp, Levels(sp, r, d))
  {
    var q := Levels(sp, r, d);
    forall k | 0 <= k < |q| ensures q[k].edge in sp.edges { RowMeaning(sp, r, d, q, k + 1); }
  }

  lemma RowIsKnown(sp: Space, r: Node, q: seq<Row>, i: nat)
    requires Guarded(sp) && Known(sp, q) && i <= |q| && r in sp.kinds
    ensures RowNode(sp, r, q, i) in sp.kinds
    ensures i > 0 ==> sp.IsContainer(sp.edges[q[i - 1].edge].parent)
  {
  }

  /** The rows of every subtree can be written as a list. */
  lemma ListExists(sh: Shelf, r: Node, d: nat) returns (items: seq<Item>)
    requires Complete(sh) && r in sh.sp.kinds
    ensures Lists(sh, r, Levels(sh.sp, r, d), items)
  {
    hide Space.Tree, Levels, Guarded, ListsUpTo, Lists;
    var q := Levels(sh.sp, r, d);
    LevelsKnown(sh.sp, r, d);
    items := ListRoot(sh, r, q);
    for i := 1 to |q| + 1
      invariant |items| == i && ListsUpTo(sh, r, q, items)
    {
      var p := RowParent(sh.sp, r, d, q, i);
      items := ListRow(sh, r, q, items, p);
    }
    IsWhole(sh, r, q, items);
  }

  lemma IsWhole(sh: Shelf, r: Node, q: seq<Row>, items: seq<Item>)
    requires ListsUpTo(sh, r, q, items) && |items| == |q| + 1
    ensures Lists(sh, r, q, items)
  {
  }

  lemma ListRoot(sh: Shelf, r: Node, q: seq<Row>) returns (items: seq<Item>)
    requires Complete(sh) && r in sh.sp.kinds && Known(sh.sp, q)
    ensures ListsUpTo(sh, r, q, items)
    ensures items == [Item(-1, sh.infos[r].name, TraitsOf(sh, r))]
  {
    items := [Item(-1, sh.infos[r].name, TraitsOf(sh, r))];
  }

  lemma ListRow(sh: Shelf, r: Node, q: seq<Row>, items: seq<Item>, p: nat) returns (items': seq<Item>)
    requires ListsUpTo(sh, r, q, items) && |items| <= |q| && Known(sh.sp, q)
    requires p < |items| && IsParentRow(sh.sp, r, q, p, |items|)
    ensures RowNode(sh.sp, r, q, |items|) in sh.sp.kinds && sh.infos.Keys == sh.sp.kinds.Keys
    ensures ListsUpTo(sh, r, q, items')
    ensures items' == items + [Item(p, sh.sp.edges[q[|items| - 1].edge].name,
                                    TraitsOf(sh, RowNode(sh.sp, r, q, |items|)))]
  {
    var i := |items|;
    RowIsKnown(sh.sp, r, q, i);
    var it := Item(p, sh.sp.edges[q[i - 1].edge].name, TraitsOf(sh, RowNode(sh.sp, r, q, i)));
    items' := items + [it];
    assert RowIs(sh, r, q, i, it);
    hide RowIs, Space.Tree, Guarded;
    forall k | 0 <= k < |items'| ensures RowIs(sh, r, q, k, items'[k]) {
      if k < i { assert RowIs(sh, r, q, k, items[k]); }
    }
  }

  // ---- Planting one more node -----------------------------------------------------------

  ghost predicate KeptFrom(sh0: Shelf, sh: Shelf)
    requires Complete(sh0) && Complete(sh)
  {
    && (forall x | x in sh0.sp.kinds :: x in sh.sp.kinds && TraitsOf(sh, x) == TraitsOf(sh0, x))
    && (forall e | e in sh0.sp.edges :: e in sh.sp.edges && sh.sp.edges[e] == sh0.sp.edges[e])
  }

  /** Midway: `sh` is `sh0` with the nodes of `done` planted under `target`, and nothing else touched. */
  ghost predicate Planting(sh0: Shelf, sh: Shelf, target: Node, done: seq<Item>, ids: seq<Node>, es: seq<EdgeId>) {
    && Complete(sh0) && Complete(sh) && KeptFrom(sh0, sh)
    && PlantedAt(sh0.sp, sh.sp, target, done, ids, es)
    && TraitsPlanted(sh, done, ids)
  }

  lemma PlantOneEdge(before: Space, sp: Space, target: Node, done: seq<Item>, ids: seq<Node>, es: seq<EdgeId>,
                     it: Item, n: Node, id: EdgeId)
    requires PlantedAt(before, sp, target, done, ids, es) && -1 <= it.parent < |done|
    requires Unused(sp, n) && Unused(sp, id) && n < id
    requires forall k | 0 <= k < |es| :: es[k] < id
    requires forall x | x in before.kinds :: x in sp.kinds
    requires forall e | e in before.edges :: e in sp.edges
    requires forall k | 0 <= k < |ids| :: ids[k] in sp.kinds
    ensures var parent := if it.parent == -1 then target else ids[it.parent];
            PlantedAt(before, Placing(Adding(sp, n, it.traits.kind), id, parent, n, it.name), target,
                      done + [it], ids + [n], es + [id])
  {
    hide FreshIds, Rising, ParentsFirst;
    var parent := if it.parent == -1 then target else ids[it.parent];
    var sp' := Placing(Adding(sp, n, it.traits.kind), id, parent, n, it.name);
    ListsGrow(before, done, ids, es, it, n, id);
    OnlyPlanted(before, sp, target, done, ids, es, it, n, id, parent);
    forall k | 0 <= k < |es + [id]|
      ensures (es + [id])[k] in sp'.edges && sp'.edges[(es + [id])[k]] == Placement(target, done + [it], ids + [n], k)
    {
      PlacementStays(before, sp, target, done, ids, es, it, n, id, k);
    }
  }

  /** No other node is new, and no other placement new or changed. */
  lemma OnlyPlanted(before: Space, sp: Space, target: Node, done: seq<Item>, ids: seq<Node>, es: seq<EdgeId>, it: Item,
                    n: Node, id: EdgeId, parent: Node)
    requires PlantedAt(before, sp, target, done, ids, es)
    ensures var sp' := Placing(Adding(sp, n, it.traits.kind), id, parent, n, it.name);
            && (forall e | e in sp'.edges :: e in es + [id] || (e in before.edges && sp'.edges[e] == before.edges[e]))
            && forall x | x in sp'.kinds :: x in before.kinds || x in ids + [n]
  {
    hide FreshIds, Rising, ParentsFirst;
    var sp' := Placing(Adding(sp, n, it.traits.kind), id, parent, n, it.name);
    forall e | e in sp'.edges && e !in es + [id] ensures e in before.edges && sp'.edges[e] == before.edges[e] {
      InLonger(es, id, e);
    }
    forall x | x in sp'.kinds ensures x in before.kinds || x in ids + [n] { InLonger(ids, n, x); }
  }

  lemma InLonger(q: seq<nat>, y: nat, x: nat)
    ensures x in q + [y] <==> x in q || x == y
  {
  }

  /** The lists stay in order, fresh and parents first. */
  lemma ListsGrow(before: Space, done: seq<Item>, ids: seq<Node>, es: seq<EdgeId>, it: Item, n: Node, id: EdgeId)
    requires FreshIds(before, ids) && Rising(es) && ParentsFirst(done) && -1 <= it.parent < |done|
    requires n !in before.kinds && forall k | 0 <= k < |ids| :: ids[k] != n
    requires forall k | 0 <= k < |es| :: es[k] < id
    ensures FreshIds(before, ids + [n]) && Rising(es + [id]) && ParentsFirst(done + [it])
  {
  }

  lemma PlacementStays(before: Space, sp: Space, target: Node, done: seq<Item>, ids: seq<Node>, es: seq<EdgeId>,
                       it: Item, n: Node, id: EdgeId, k: nat)
    requires PlantedAt(before, sp, target, done, ids, es) && -1 <= it.parent < |done| && Unused(sp, id) && k <= |es|
    ensures var parent := if it.parent == -1 then target else ids[it.parent];
            var sp' := Placing(Adding(sp, n, it.traits.kind), id, parent, n, it.name);
            && -1 <= (done + [it])[k].parent < |ids + [n]|
            && (es + [id])[k] in sp'.edges && sp'.edges[(es + [id])[k]] == Placement(target, done + [it], ids + [n], k)
  {
    hide FreshIds, Rising;
    if k < |es| { assert sp.edges[es[k]] == Placement(target, done, ids, k); }
  }

  /** A node with the given columns and its placement were made, and nothing else. */
  ghost predicate RowMade(sh: Shelf, sh': Shelf, parent: Node, name: string, traits: Traits, n: Node, id: EdgeId,
                          info: Info) {
    && Complete(sh') && Unused(sh.sp, n) && Unused(sh.sp, id) && n < id
    && sh'.sp == Placing(Adding(sh.sp, n, traits.kind), id, parent, n, name)
    && sh'.infos == sh.infos[n := info] && KeptBut(sh.t, sh'.t, n)
    && n in sh'.sp.kinds && TraitsOf(sh', n) == traits
  }

  lemma PlantOne(sh0: Shelf, sh: Shelf, sh': Shelf, target: Node, done: seq<Item>, ids: seq<Node>, es: seq<EdgeId>,
                 it: Item, n: Node, id: EdgeId, info: Info)
    requires Planting(sh0, sh, target, done, ids, es) && -1 <= it.parent < |done|
    requires forall k | 0 <= k < |es| :: es[k] < id
    requires RowMade(sh, sh', if it.parent == -1 then target else ids[it.parent], it.name, it.traits, n, id, info)
    ensures Planting(sh0, sh', target, done + [it], ids + [n], es + [id])
  {
    hide BytesOf, Guarded, Complete, TraitsOf, PlantedAt, KeptBut, Unused;
    OthersKept(sh, sh', n, it.traits.kind, id, if it.parent == -1 then target else ids[it.parent], it.name, info);
    PlantOneEdge(sh0.sp, sh.sp, target, done, ids, es, it, n, id);
  }

  /** One more node and its placement leave every other as it was. */
  lemma OthersKept(sh: Shelf, sh': Shelf, n: Node, kind: Kind, id: EdgeId, parent: Node, name: string, info: Info)
    requires Complete(sh) && Complete(sh') && Unused(sh.sp, n) && Unused(sh.sp, id)
    requires sh'.sp == Placing(Adding(sh.sp, n, kind), id, parent, n, name)
    requires sh'.infos == sh.infos[n := info] && KeptBut(sh.t, sh'.t, n)
    ensures KeptFrom(sh, sh') && n in sh'.sp.kinds
  {
    hide BytesOf, Guarded;
    forall x | x in sh.sp.kinds ensures x in sh'.sp.kinds && TraitsOf(sh', x) == TraitsOf(sh, x) {
      TraitsStay(sh, sh', n, x);
    }
  }

  lemma TraitsStay(sh: Shelf, sh': Shelf, n: Node, x: Node)
    requires Complete(sh) && Complete(sh') && x in sh.sp.kinds && x in sh'.sp.kinds && x != n
    requires sh'.sp.kinds[x] == sh.sp.kinds[x] && sh'.infos[x] == sh.infos[x] && KeptBut(sh.t, sh'.t, n)
    ensures TraitsOf(sh', x) == TraitsOf(sh, x)
  {
  }

  // ---- Planting keeps the tree ------------------------------------------------------------------

  /** Whatever `target` hung off before, everything placed hangs off now. */
  ghost predicate StillRooted(sp0: Space, sp: Space, target: Node) {
    forall z | Rooted(sp0, z) && Beneath(sp0.Tree(), z, target) :: Rooted(sp, z) && Beneath(sp.Tree(), z, target)
  }

  lemma StillRootedNext(sp0: Space, sp: Space, target: Node, parent: Node, n: Node, kind: Kind, name: string,
                        id: EdgeId)
    requires StillRooted(sp0, sp, target) && Guarded(sp) && Unused(sp, n) && Unused(sp, id) && n < id
    requires target in sp.kinds
    requires sp.IsContainer(parent) && (parent == target || sp.Placed(parent))
    ensures StillRooted(sp0, Placing(Adding(sp, n, kind), id, parent, n, name), target)
  {
    forall z | Rooted(sp0, z) && Beneath(sp0.Tree(), z, target)
      ensures Rooted(Placing(Adding(sp, n, kind), id, parent, n, name), z)
      ensures Beneath(Placing(Adding(sp, n, kind), id, parent, n, name).Tree(), z, target)
    {
      PlacedIsBeneath(sp, z, parent);
      hide Space.Tree, Guarded, Rooted;
      AddedRooted(sp, z, parent, name, kind, n, id);
      AddedStaysBeneath(sp, z, parent, name, kind, n, id, target);
    }
  }

  lemma PlacedIsBeneath(sp: Space, root: Node, x: Node)
    requires Guarded(sp) && Rooted(sp, root) && sp.IsContainer(x)
    ensures sp.Placed(x) ==> Beneath(sp.Tree(), root, x)
  {
    RootedIsTree(sp, root);
    if e :| sp.Active(e) && sp.edges[e].child == x { TreeAt(sp, e); }
  }

  // ---- copy -----------------------------------------------------------------------------------

  function ShelfOf(v: Volume): Shelf
    reads v, v.db
  {
    Shelf(v.Now(), v.infos, v.db.tables)
  }

  lemma ValidIsComplete(v: Volume)
    requires v.Valid()
    ensures Complete(ShelfOf(v))
  {
  }

  function BareInfo(info: Info, name: string): Info {
    Info(name, info.created, Some(Modified(info)), info.metadata, None, None, None, map[])
  }

  /** One new node like `node`, without what copies leave behind, and its placement. */
  method CopyRow(v: Volume, node: Node, parent: Node, name: string) returns (n: Node, id: EdgeId)
    requires v.Valid() && node in v.db.kinds && v.Now().IsContainer(parent)
    modifies v`lastId, v`infos, v`edges, v.db`kinds, v.db`tables
    ensures v.Valid() && (old(v.NamesAgree()) ==> v.NamesAgree())
    ensures Unused(old(v.Now()), n) && Unused(old(v.Now()), id) && old(v.lastId) < n < id == v.lastId
    ensures old(Masked(v.infos)) ==> Masked(v.infos)
    ensures v.Now() == Placing(Adding(old(v.Now()), n, old(v.db.kinds[node])), id, parent, n, name)
    ensures v.infos == old(v.infos)[n := BareInfo(old(v.infos[node]), name)]
    ensures KeptBut(old(v.db.tables), v.db.tables, n)
    ensures RowMade(old(ShelfOf(v)), ShelfOf(v), parent, name, Bare(old(TraitsOf(ShelfOf(v), node))), n, id,
                    BareInfo(old(v.infos[node]), name))
  {
    hide SingleParent, Guarded, Space.Tree, Unused, ContainersNamed, KeptBut, BytesOf, Sound, Masked;
    ghost var sh := ShelfOf(v);
    var kind := v.db.kinds[node];
    n := v.NewNode(kind, BareInfo(v.infos[node], name), Shared(node));
    UnusedAfter(sh.sp, n, kind);
    id := v.Place(parent, n, None);
    ContainersAreEmpty(sh.t, node);
    ContainersAreEmpty(v.db.tables, n);
    CopiedTraits(sh, ShelfOf(v), node, n, name);
    ValidIsComplete(v);
    if Masked(sh.infos) { MaskedWith(sh.infos, n, v.infos[n]); }
  }

  lemma ContainersAreEmpty(t: Tables, n: Node)
    ensures n !in t.content ==> BytesOf(t, n) == []
  {
  }

  lemma CopiedTraits(sh: Shelf, sh': Shelf, node: Node, n: Node, name: string)
    requires node in sh.sp.kinds && node in sh.infos && n in sh'.sp.kinds && n in sh'.infos
    requires sh'.sp.kinds[n] == sh.sp.kinds[node] && sh'.infos[n] == BareInfo(sh.infos[node], name)
    requires BytesOf(sh'.t, n) == BytesOf(sh.t, node) && Unkept(sh'.t, n)
    ensures TraitsOf(sh', n) == Bare(TraitsOf(sh, node))
  {
  }

  /** The items a copy plants: the listed rows made bare, the first one renamed. */
  ghost function BareOf(items: seq<Item>, name: string): seq<Item> {
    seq(|items|, i requires 0 <= i < |items| =>
      Item(items[i].parent, if i == 0 then name else items[i].name, Bare(items[i].traits)))
  }

  /** The latest row of each container met so far is mapped to the node made for it. */
  ghost predicate Mapped(sp: Space, r: Node, q: seq<Row>, idmap: map<Node, Node>, ids: seq<Node>)
    requires Known(sp, q) && |ids| <= |q| + 1
  {
    forall k | 0 <= k < |ids| && sp.IsContainer(RowNode(sp, r, q, k)) && IsLatest(sp, r, q, k, |ids|) ::
      RowNode(sp, r, q, k) in idmap && idmap[RowNode(sp, r, q, k)] == ids[k]
  }

  lemma MapOneMore(sp: Space, r: Node, q: seq<Row>, idmap: map<Node, Node>, ids: seq<Node>, n: Node)
    requires Known(sp, q) && |ids| <= |q| && Mapped(sp, r, q, idmap, ids)
    ensures Mapped(sp, r, q, idmap[RowNode(sp, r, q, |ids|) := n], ids + [n])
  {
    hide Known;
    var x := RowNode(sp, r, q, |ids|);
    forall k | 0 <= k <= |ids| && sp.IsContainer(RowNode(sp, r, q, k)) && IsLatest(sp, r, q, k, |ids| + 1)
      ensures RowNode(sp, r, q, k) in idmap[x := n] && idmap[x := n][RowNode(sp, r, q, k)] == (ids + [n])[k]
    {
      if k < |ids| {
        assert RowNode(sp, r, q, k) != x;
        assert IsLatest(sp, r, q, k, |ids|);
      }
    }
  }

  /** So the parent of the next row is mapped to the node made for its row. */
  lemma ParentMapped(sp: Space, r: Node, d: nat, q: seq<Row>, idmap: map<Node, Node>, ids: seq<Node>, p: nat, i: nat)
    requires Guarded(sp) && Known(sp, q) && p < i == |ids| <= |q| && Mapped(sp, r, q, idmap, ids)
    requires q == Levels(sp, r, d) && IsParentRow(sp, r, q, p, i)
    ensures sp.edges[q[i - 1].edge].parent in idmap && idmap[sp.edges[q[i - 1].edge].parent] == ids[p]
  {
    hide Levels, Known, Guarded, IsLatest;
    RowEdgeKnown(sp, r, d, q, i);
    ParentIsContainer(sp, q[i - 1].edge);
    ParentIsLatest(sp, r, d, q, p, i);
  }

  /**
    A subtree grafted on: the old nodes and placements are as they were, every
    new placement is of a new node of its own, and only the root's is in an old one.
   */
  ghost predicate Grafted(sh0: Shelf, sh: Shelf, target: Node, root: Node, name: string)
    requires Complete(sh0) && Complete(sh)
  {
    && KeptFrom(sh0, sh) && root !in sh0.sp.kinds && root in sh.sp.kinds
    && (exists e :: GraftEdge(sh0, sh, target, root, name, e))
    && forall x | x in sh.sp.kinds && x !in sh0.sp.kinds :: HasEdge(sh.sp, x)
  }

  /** The node is placed somewhere, or was. */
  ghost predicate HasEdge(sp: Space, x: Node) {
    exists e :: e in sp.edges && sp.edges[e].child == x
  }

  ghost predicate GraftEdge(sh0: Shelf, sh: Shelf, target: Node, root: Node, name: string, e: EdgeId) {
    && IsNew(sh0.sp, sh.sp, e) && sh.sp.edges[e] == Edge(target, root, name, false)
    && (forall f | IsNew(sh0.sp, sh.sp, f) ::
          sh.sp.edges[f].child !in sh0.sp.kinds && (f == e || sh.sp.edges[f].parent !in sh0.sp.kinds))
    && (forall f, g | IsNew(sh0.sp, sh.sp, f) && IsNew(sh0.sp, sh.sp, g) && f != g ::
          sh.sp.edges[f].child != sh.sp.edges[g].child)
  }

  predicate IsNew(before: Space, after: Space, e: EdgeId) {
    e in after.edges && e !in before.edges
  }

  lemma PlantedIsGrafted(sh0: Shelf, sh: Shelf, target: Node, items: seq<Item>, ids: seq<Node>, es: seq<EdgeId>)
    requires Planting(sh0, sh, target, items, ids, es) && WellFormed(items)
    ensures Grafted(sh0, sh, target, ids[0], items[0].name)
  {
    hide Guarded, TraitsOf, PlantedAt, WellFormed, IsNew, FreshIds;
    var a, b := sh0.sp, sh.sp;
    PlantedRoot(items);
    PlantedPlacement(a, b, target, items, ids, es, 0);
    forall f | IsNew(a, b, f)
      ensures f in b.edges && b.edges[f].child !in a.kinds && (f == es[0] || b.edges[f].parent !in a.kinds)
    {
      var k := NewEdge(a, b, target, items, ids, es, f);
    }
    forall f, g | IsNew(a, b, f) && IsNew(a, b, g) && f != g
      ensures f in b.edges && g in b.edges && b.edges[f].child != b.edges[g].child
    {
      var k := NewEdge(a, b, target, items, ids, es, f);
      var l := NewEdge(a, b, target, items, ids, es, g);
      DistinctIds(a, ids, k, l);
    }
    EdgeIsPlacement(b, es[0], target, ids[0], items[0].name);
    assert GraftEdge(sh0, sh, target, ids[0], items[0].name, es[0]);
    forall x | x in b.kinds && x !in a.kinds ensures HasEdge(b, x) {
      NewIsPlanted(a, b, target, items, ids, es, x);
      var k :| 0 <= k < |ids| && ids[k] == x;
      PlantedPlacement(a, b, target, items, ids, es, k);
      hide IsNew;
      assert es[k] in b.edges && b.edges[es[k]].child == x;
    }
  }

  lemma PlantedRoot(items: seq<Item>)
    requires WellFormed(items)
    ensures items != []
  {
  }

  lemma EdgeIsPlacement(sp: Space, e: EdgeId, parent: Node, child: Node, name: string)
    requires e in sp.edges && sp.edges[e].parent == parent && sp.edges[e].child == child && sp.edges[e].name == name
    requires !sp.edges[e].archived
    ensures sp.edges[e] == Edge(parent, child, name, false)
  {
  }

  /** Every new placement is that of an item. */
  lemma NewEdge(before: Space, sp: Space, target: Node, items: seq<Item>, ids: seq<Node>, es: seq<EdgeId>, f: EdgeId)
    returns (k: nat)
    requires PlantedAt(before, sp, target, items, ids, es) && WellFormed(items) && IsNew(before, sp, f)
    ensures |ids| == |items| == |es| && k < |es| && es[k] == f && f in sp.edges && sp.edges[f].child == ids[k]
    ensures ids[k] !in before.kinds && (k > 0 ==> sp.edges[f].parent !in before.kinds)
  {
    assert f in es;
    k :| 0 <= k < |es| && es[k] == f;
    PlantedPlacement(before, sp, target, items, ids, es, k);
  }

  lemma NewIsPlanted(before: Space, sp: Space, target: Node, items: seq<Item>, ids: seq<Node>, es: seq<EdgeId>, x: Node)
    requires PlantedAt(before, sp, target, items, ids, es) && x in sp.kinds && x !in before.kinds
    ensures x in ids
  {
  }

  /** The placement made for item `k`: of its own new node, in the target only for the first. */
  lemma PlantedPlacement(before: Space, sp: Space, target: Node, items: seq<Item>, ids: seq<Node>, es: seq<EdgeId>,
                         k: nat)
    requires PlantedAt(before, sp, target, items, ids, es) && WellFormed(items) && k < |items|
    ensures |ids| == |items| == |es| && FreshIds(before, ids) && ids[k] !in before.kinds
    ensures IsNew(before, sp, es[k]) && es[k] in sp.edges && sp.edges[es[k]].child == ids[k]
    ensures !sp.edges[es[k]].archived
    ensures sp.edges[es[k]].name == items[k].name
    ensures k == 0 ==> sp.edges[es[k]].parent == target
    ensures k > 0 ==> sp.edges[es[k]].parent !in before.kinds
  {
    assert sp.edges[es[k]] == Placement(target, items, ids, k);
  }

  lemma DistinctIds(before: Space, ids: seq<Node>, k: nat, l: nat)
    requires FreshIds(before, ids) && k < |ids| && l < |ids| && k != l
    ensures ids[k] != ids[l]
  {
    if k < l { assert ids[k] != ids[l]; } else { assert ids[l] != ids[k]; }
  }

  lemma BareLength(items: seq<Item>, name: string)
    ensures |BareOf(items, name)| == |items| && (items != [] ==> BareOf(items, name)[0].name == name)
  {
  }

  lemma RootRow(sh: Shelf, r: Node, q: seq<Row>, items: seq<Item>)
    requires Lists(sh, r, q, items)
    ensures items[0].parent == -1 && Known(sh.sp, q) && RowNode(sh.sp, r, q, 0) == r
  {
    RowFacts(sh, r, q, items, 0);
  }

  lemma BareWellFormed(items: seq<Item>, name: string)
    requires WellFormed(items)
    ensures WellFormed(BareOf(items, name)) && BareItems(items, BareOf(items, name))
  {
  }

  lemma NothingPlanted(sh: Shelf, target: Node)
    requires Complete(sh)
    ensures Planting(sh, sh, target, [], [], []) && StillRooted(sh.sp, sh.sp, target)
  {
  }

  /** The pass over the rows. New ids come in row order, and every parent has been mapped before it is needed. */
  method CopyRows(v: Volume, src: Node, target: Node, name: string) returns (root: Node)
    requires v.Valid() && src in v.db.kinds && v.Now().IsContainer(target)
    modifies v`lastId, v`infos, v`edges, v.db`kinds, v.db`tables
    ensures v.Valid() && (old(v.NamesAgree()) ==> v.NamesAgree()) && (old(Masked(v.infos)) ==> Masked(v.infos))
    ensures Complete(old(ShelfOf(v))) && Complete(ShelfOf(v))
    ensures Grafted(old(ShelfOf(v)), ShelfOf(v), target, root, name) && StillRooted(old(v.Now()), v.Now(), target)
    ensures BareCopyOf(old(ShelfOf(v)), ShelfOf(v), src, root)
  {
    hide Space.Tree, Guarded, SingleParent, Levels, ContainersNamed, Lists, Copied, Known, BytesOf, Unused, KeptBut,
         Complete, Grafted, StillRooted, Space.Placed, Masked, BareOf, RowMade;
    ghost var sh0 := ShelfOf(v);
    ValidIsComplete(v);
    var sp := v.Now();
    var q := Levels(sp, src, DEPTH_BOUND);
    ghost var items := ListExists(sh0, src, DEPTH_BOUND);
    LevelsKnown(sp, src, DEPTH_BOUND);
    ListShape(sh0, src, q, items);
    var idmap: map<Node, Node> := map[];
    ghost var ids: seq<Node>, es: seq<EdgeId> := [], [];
    root := 0;
    NothingCopied(sh0, src, q, items, target, name, v.lastId);
    for i := 0 to |q| + 1
      invariant v.Valid() && (old(v.NamesAgree()) ==> v.NamesAgree()) && (old(Masked(v.infos)) ==> Masked(v.infos))
      invariant |ids| == i && Copied(sh0, ShelfOf(v), src, q, items, target, name, ids, es, idmap, v.lastId)
      invariant i > 0 ==> root == ids[0]
    {
      ghost var sh := ShelfOf(v);
      NextRow(sh0, sh, src, q, items, target, name, ids, es, idmap, v.lastId);
      var node := RowNode(sp, src, q, i);
      var parent, title := target, name;
      if i > 0 {
        parent, title := idmap[sp.edges[q[i - 1].edge].parent], sp.edges[q[i - 1].edge].name;
      }
      ghost var last := v.lastId;
      var n, id := CopyRow(v, node, parent, title);
      ValidIsComplete(v);
      RowCopied(sh0, sh, ShelfOf(v), src, q, items, target, name, ids, es, idmap, last, parent, title, node, n, id,
                v.infos[n]);
      idmap := idmap[node := n];
      ids, es := ids + [n], es + [id];
      if i == 0 {
        root := n;
      }
    }
    AllCopied(sh0, ShelfOf(v), src, q, items, target, name, ids, es, idmap, v.lastId);
  }

  /** Midway: the rows up to the last of `ids` are planted under `target`, and the map leads to their copies. */
  ghost predicate Copied(sh0: Shelf, sh: Shelf, src: Node, q: seq<Row>, items: seq<Item>, target: Node, name: string,
                         ids: seq<Node>, es: seq<EdgeId>, idmap: map<Node, Node>, last: nat)
  {
    && |ids| == |es| <= |items| == |q| + 1 && Known(sh0.sp, q)
    && Planting(sh0, sh, target, BareOf(items, name)[..|ids|], ids, es)
    && Mapped(sh0.sp, src, q, idmap, ids) && StillRooted(sh0.sp, sh.sp, target)
    && forall k | 0 <= k < |es| :: es[k] <= last
  }

  lemma NothingCopied(sh: Shelf, src: Node, q: seq<Row>, items: seq<Item>, target: Node, name: string, last: nat)
    requires Complete(sh) && Known(sh.sp, q) && |items| == |q| + 1
    ensures Copied(sh, sh, src, q, items, target, name, [], [], map[], last)
  {
    hide Complete, Known, Planting, Mapped, StillRooted;
    NothingPlanted(sh, target);
    NothingMapped(sh.sp, src, q);
    assert BareOf(items, name)[..0] == [];
  }

  /** The next row is that of `node`, to be placed in `parent` as `title`. */
  ghost predicate IsNextRow(sp: Space, src: Node, q: seq<Row>, target: Node, name: string, idmap: map<Node, Node>,
                            i: nat,
                            node: Node, parent: Node, title: string)
  {
    && i <= |q| && Known(sp, q) && node == RowNode(sp, src, q, i)
    && if i == 0 then parent == target && title == name
       else
         var e := sp.edges[q[i - 1].edge];
         e.parent in idmap && parent == idmap[e.parent] && title == e.name
  }

  /** `items` are the rows `q` of the walk from `src`. */
  ghost predicate Listed(sh: Shelf, src: Node, q: seq<Row>, items: seq<Item>) {
    q == Levels(sh.sp, src, DEPTH_BOUND) && Lists(sh, src, q, items)
  }

  /** One more row. */
  lemma RowCopied(sh0: Shelf, sh: Shelf, sh': Shelf, src: Node, q: seq<Row>, items: seq<Item>, target: Node,
                  name: string,
                  ids: seq<Node>, es: seq<EdgeId>, idmap: map<Node, Node>, last: nat, parent: Node, title: string,
                  node: Node, n: Node, id: EdgeId, info: Info)
    requires Listed(sh0, src, q, items) && sh0.sp.IsContainer(target) && |BareOf(items, name)| == |q| + 1
    requires Copied(sh0, sh, src, q, items, target, name, ids, es, idmap, last)
    requires IsNextRow(sh0.sp, src, q, target, name, idmap, |ids|, node, parent, title)
    requires RowMade(sh, sh', parent, title, BareOf(items, name)[|ids|].traits, n, id, info) && last < id
    ensures Copied(sh0, sh', src, q, items, target, name, ids + [n], es + [id], idmap[node := n], id)
  {
    hide Space.Tree, Guarded, Levels, Lists, Planting, Mapped, Known, Unused, KeptBut, Complete, StillRooted, TraitsOf,
         Space.Placed, BareOf, RowMade;
    var i, bare := |ids|, BareOf(items, name);
    NextRow(sh0, sh, src, q, items, target, name, ids, es, idmap, last);
    PlantOne(sh0, sh, sh', target, bare[..i], ids, es, bare[i], n, id, info);
    RowRooted(sh0.sp, sh, sh', target, parent, title, bare[i].traits, n, id, info);
    MapOneMore(sh0.sp, src, q, idmap, ids, n);
    assert bare[..i + 1] == bare[..i] + [bare[i]];
  }

  lemma RowRooted(sp0: Space, sh: Shelf, sh': Shelf, target: Node, parent: Node, name: string, traits: Traits,
                  n: Node, id: EdgeId, info: Info)
    requires StillRooted(sp0, sh.sp, target) && Complete(sh) && target in sh.sp.kinds
    requires sh.sp.IsContainer(parent) && (parent == target || sh.sp.Placed(parent))
    requires RowMade(sh, sh', parent, name, traits, n, id, info)
    ensures StillRooted(sp0, sh'.sp, target)
  {
    hide StillRooted, Guarded, Space.Tree, Space.Placed, Unused, KeptBut, TraitsOf;
    StillRootedNext(sp0, sh.sp, target, parent, n, traits.kind, name, id);
  }

  lemma AllCopied(sh0: Shelf, sh: Shelf, src: Node, q: seq<Row>, items: seq<Item>, target: Node, name: string,
                  ids: seq<Node>, es: seq<EdgeId>, idmap: map<Node, Node>, last: nat)
    requires Lists(sh0, src, q, items) && q == Levels(sh0.sp, src, DEPTH_BOUND) && target in sh0.sp.kinds
    requires Copied(sh0, sh, src, q, items, target, name, ids, es, idmap, last) && |ids| == |items|
    ensures Complete(sh0) && Complete(sh) && ids != [] && Grafted(sh0, sh, target, ids[0], name)
    ensures StillRooted(sh0.sp, sh.sp, target) && BareCopyOf(sh0, sh, src, ids[0])
  {
    hide Space.Tree, Guarded, Levels, Lists, Planting, Mapped, Known, Complete, StillRooted, BareCopyOf, Grafted;
    CopyIsTree(sh0, sh, src, q, items, target, name, ids, es);
  }

  lemma NothingMapped(sp: Space, r: Node, q: seq<Row>)
    requires Known(sp, q)
    ensures Mapped(sp, r, q, map[], [])
  {
  }

  /** What the next row needs is there: its old node unchanged, its parent mapped to a container already planted. */
  lemma NextRow(sh0: Shelf, sh: Shelf, src: Node, q: seq<Row>, items: seq<Item>, target: Node, name: string,
                ids: seq<Node>, es: seq<EdgeId>, idmap: map<Node, Node>, last: nat)
    requires Lists(sh0, src, q, items) && q == Levels(sh0.sp, src, DEPTH_BOUND) && |ids| <= |q| && Known(sh0.sp, q)
    requires Copied(sh0, sh, src, q, items, target, name, ids, es, idmap, last) && sh0.sp.IsContainer(target)
    ensures |BareOf(items, name)| == |items| == |q| + 1
    ensures var i := |ids|;
            var node, it := RowNode(sh0.sp, src, q, i), BareOf(items, name)[i];
            && Complete(sh) && node in sh.sp.kinds && it.traits == Bare(TraitsOf(sh, node))
            && sh.sp.kinds[node] == it.traits.kind
            && -1 <= it.parent < i
            && sh.sp.IsContainer(target)
            && (i == 0 ==> it.parent == -1 && it.name == name)
            && (i > 0 ==>
                  && it.parent >= 0 && it.name == sh0.sp.edges[q[i - 1].edge].name
                  && sh0.sp.edges[q[i - 1].edge].parent in idmap
                  && idmap[sh0.sp.edges[q[i - 1].edge].parent] == ids[it.parent]
                  && sh.sp.IsContainer(ids[it.parent]) && sh.sp.Placed(ids[it.parent]))
  {
    hide Lists, Levels, Mapped, StillRooted, Planting, Known, Complete, TraitsOf;
    var i, done := |ids|, BareOf(items, name)[..|ids|];
    RowFacts(sh0, src, q, items, i);
    KeptWhilePlanting(sh0, sh, target, done, ids, es, RowNode(sh0.sp, src, q, i));
    KeptWhilePlanting(sh0, sh, target, done, ids, es, target);
    if i > 0 {
      var p := items[i].parent;
      RowFacts(sh0, src, q, items, p);
      RowParentIsContainer(sh0, src, q, p, i);
      ParentMapped(sh0.sp, src, DEPTH_BOUND, q, idmap, ids, p, i);
      PlantedContainer(sh0, sh, target, done, ids, es, p);
    }
  }

  lemma RowParentIsContainer(sh: Shelf, r: Node, q: seq<Row>, p: nat, i: nat)
    requires Complete(sh) && Known(sh.sp, q) && p < i <= |q| && RowNode(sh.sp, r, q, p) in sh.sp.kinds
    requires RowNode(sh.sp, r, q, p) == sh.sp.edges[q[i - 1].edge].parent
    ensures Guarded(sh.sp) && q[i - 1].edge in sh.sp.edges && sh.sp.IsContainer(RowNode(sh.sp, r, q, p))
    ensures RowNode(sh.sp, r, q, p) in sh.infos && TraitsOf(sh, RowNode(sh.sp, r, q, p)).kind == Container
  {
    ParentIsContainer(sh.sp, q[i - 1].edge);
  }

  /** What was there is there still. */
  lemma KeptWhilePlanting(sh0: Shelf, sh: Shelf, target: Node, done: seq<Item>, ids: seq<Node>, es: seq<EdgeId>,
                          n: Node)
    requires Planting(sh0, sh, target, done, ids, es) && n in sh0.sp.kinds
    ensures |ids| == |es| == |done| && Complete(sh0) && Complete(sh) && n in sh.sp.kinds && n in sh.infos
    ensures n in sh0.infos && TraitsOf(sh, n) == TraitsOf(sh0, n) && sh.sp.kinds[n] == TraitsOf(sh0, n).kind
    ensures sh.sp.IsContainer(n) == sh0.sp.IsContainer(n)
  {
    hide PlantedAt, TraitsPlanted, Guarded, BytesOf;
    assert |ids| == |es| == |done| by { PlantedShape(sh0.sp, sh.sp, target, done, ids, es); }
  }

  /** A container planted earlier can take the next row. */
  lemma PlantedContainer(sh0: Shelf, sh: Shelf, target: Node, done: seq<Item>, ids: seq<Node>, es: seq<EdgeId>, p: nat)
    requires Planting(sh0, sh, target, done, ids, es) && p < |done| && done[p].traits.kind == Container
    ensures |ids| == |es| == |done| && sh.sp.IsContainer(ids[p]) && sh.sp.Placed(ids[p])
  {
    hide KeptFrom, Guarded, BytesOf, FreshIds, Rising;
    assert TraitsOf(sh, ids[p]) == done[p].traits;
    assert sh.sp.edges[es[p]] == Placement(target, done, ids, p);
    assert sh.sp.Active(es[p]);
  }

  /** How much of `d` levels the walk covers. */
  function AsFar(d: nat): nat {
    if d < DEPTH_BOUND then d else DEPTH_BOUND
  }

  /** Read as deep as one likes, the copy shows what the source shows, bare, down to where the walk stops. */
  ghost predicate BareCopyOf(sh0: Shelf, sh: Shelf, src: Node, root: Node) {
    && Complete(sh0) && Complete(sh) && src in sh0.sp.kinds && root in sh.sp.kinds
    && forall d: nat :: TreeOf(sh, root, d) == BareTree(TreeOf(sh0, src, AsFar(d)))
  }

  /** A list of a walk describes the subtree, down to where the walk stops. */
  ghost predicate Describes(items: seq<Item>, sh: Shelf, r: Node) {
    && Complete(sh) && r in sh.sp.kinds && items != []
    && forall d: nat :: TreeIn(items, 0, d) == TreeOf(sh, r, AsFar(d))
  }

  lemma ListedWhole(sh: Shelf, r: Node, items: seq<Item>)
    requires Lists(sh, r, Levels(sh.sp, r, DEPTH_BOUND), items)
    ensures Describes(items, sh, r)
  {
    hide Space.Tree, Levels, Lists, TreeOf, TreeIn, Complete, RowNode;
    var q := Levels(sh.sp, r, DEPTH_BOUND);
    ListShape(sh, r, q, items);
    RootRow(sh, r, q, items);
    forall d: nat ensures TreeIn(items, 0, d) == TreeOf(sh, r, AsFar(d)) {
      ListedIsTree(sh, r, DEPTH_BOUND, q, items, 0, AsFar(d));
      if d > DEPTH_BOUND { ListEnds(sh, r, DEPTH_BOUND, q, items, 0, d); }
    }
  }

  lemma CopyIsTree(sh0: Shelf, sh: Shelf, src: Node, q: seq<Row>, items: seq<Item>, target: Node, name: string,
                   ids: seq<Node>, es: seq<EdgeId>)
    requires Lists(sh0, src, q, items) && q == Levels(sh0.sp, src, DEPTH_BOUND)
    requires |ids| == |items| && Planting(sh0, sh, target, BareOf(items, name)[..|items|], ids, es)
    requires target in sh0.sp.kinds
    ensures Complete(sh0) && Complete(sh) && Grafted(sh0, sh, target, ids[0], name)
    ensures BareCopyOf(sh0, sh, src, ids[0])
  {
    hide Space.Tree, Levels, Guarded, BareOf, BareItems, BareTree, TreeOf, TreeIn, Lists, WellFormed, Grafted,
         PlantedAt, TraitsPlanted, KeptFrom, Known;
    var bare := BareOf(items, name);
    BareLength(items, name);
    assert bare[..|items|] == bare;
    ListsWellFormed(sh0, src, q, items);
    BareWellFormed(items, name);
    RootRow(sh0, src, q, items);
    PlantedIsGrafted(sh0, sh, target, bare, ids, es);
    ListedWhole(sh0, src, items);
    GraftHasRoot(sh0, sh, target, ids[0], name);
    forall d: nat ensures TreeOf(sh, ids[0], d) == BareTree(TreeOf(sh0, src, AsFar(d))) {
      PlantedIsTree(sh0.sp, sh, target, bare, ids, es, 0, d);
      BareIsBare(items, bare, 0, d);
    }
  }

  lemma GraftHasRoot(sh0: Shelf, sh: Shelf, target: Node, root: Node, name: string)
    requires Complete(sh0) && Complete(sh) && Grafted(sh0, sh, target, root, name)
    ensures root in sh.sp.kinds
  {
  }

  /** A copy is the bare source at every depth exactly when nothing of the source lies deeper than the walk goes. */
  lemma CopyIsWhole(sh0: Shelf, sh: Shelf, src: Node, root: Node)
    requires BareCopyOf(sh0, sh, src, root)
    ensures (forall d: nat :: TreeOf(sh, root, d) == BareTree(TreeOf(sh0, src, d)))
            <==> NothingAt(sh0.sp, src, DEPTH_BOUND + 1)
  {
    hide TreeOf, NothingAt, Guarded, BareTree;
    if NothingAt(sh0.sp, src, DEPTH_BOUND + 1) {
      forall d: nat ensures TreeOf(sh, root, d) == BareTree(TreeOf(sh0, src, d)) {
        if d > DEPTH_BOUND { NothingDeeper(sh0, src, DEPTH_BOUND, d); }
      }
    } else {
      BareSees(sh0, src, DEPTH_BOUND);
      var d := DEPTH_BOUND + 1;
      assert TreeOf(sh, root, d) != BareTree(TreeOf(sh0, src, d));
    }
  }

  /** The part of a tree that a path of branch numbers leads to. */
  function Part(t: Tree, path: seq<nat>): Option<Tree> {
    if path == [] then Some(t)
    else if path[0] < |t.branches| then Part(t.branches[path[0]].1, path[1..])
    else None
  }

  /** Of two nodes in the same place, `b` is a copy of `a`, and its children come by the same names. */
  predicate Carries(a: Tree, b: Tree) {
    && b.traits.kind == a.traits.kind && b.traits.data == a.traits.data
    && b.traits.created == a.traits.created && b.traits.modified == a.traits.modified
    && b.traits.metadata == a.traits.metadata
    && b.traits.uid == None && b.traits.gid == None && b.traits.mode == None
    && b.traits.xattrs == map[] && b.traits.keep == None
    && |b.branches| == |a.branches| && forall i | 0 <= i < |a.branches| :: b.branches[i].0 == a.branches[i].0
  }

  /**
    Place by place: as deep as one reads, up to where the walk stops, every node of the
    source has its copy, of the same kind, times, metadata and bytes, without
    owner, mode, attributes or policy; and the copy has no other.
   */
  lemma CopyCarries(sh0: Shelf, sh: Shelf, src: Node, root: Node, d: nat, path: seq<nat>)
    requires BareCopyOf(sh0, sh, src, root)
    ensures var a := Part(TreeOf(sh0, src, if d < DEPTH_BOUND then d else DEPTH_BOUND), path);
            var b := Part(TreeOf(sh, root, d), path);
            (a.Some? <==> b.Some?) && (a.Some? ==> Carries(a.value, b.value))
  {
    hide TreeOf, Carries;
    PartOfBare(TreeOf(sh0, src, AsFar(d)), path);
  }

  lemma {:induction false} PartOfBare(t: Tree, path: seq<nat>)
    ensures var a, b := Part(t, path), Part(BareTree(t), path);
            (a.Some? <==> b.Some?) && (a.Some? ==> Carries(a.value, b.value))
  {
    if path != [] && path[0] < |t.branches| { PartOfBare(t.branches[path[0]].1, path[1..]); }
  }

  /** Why `copy` is refused, if it is. Locks on the source do not count: nothing about it changes. */
  function CopyRefusal(sp: Space, s: Sessions, m: MountId, at: Node, src: string, dst: string): Option<Error> {
    if MountRefusal(s, m).Some? then MountRefusal(s, m)
    else if Resolve(sp, at, src).Failure? then Some(Resolve(sp, at, src).error)
    else if ResolveParent(sp, at, dst).Failure? then Some(ResolveParent(sp, at, dst).error)
    else None
  }

  /** Copy what `src` shows to `dst`. The new subtree is the old one, as deep as the walk goes. */
  method Copy(v: Volume, m: MountId, src: string, dst: string) returns (r: Result<Node, Error>)
    requires v.Valid()
    modifies v`lastId, v`infos, v`edges, v.db`kinds, v.db`tables
    ensures v.Valid() && (old(v.NamesAgree()) ==> v.NamesAgree()) && (old(Masked(v.infos)) ==> Masked(v.infos))
    ensures ValidMount(v.db.sessions, m) ==> m in v.anchors
    ensures var refusal := if ValidMount(v.db.sessions, m) then CopyRefusal(old(v.Now()), v.db.sessions, m,
                                                                            v.anchors[m], src, dst)
                           else Some(MountInvalid);
            if refusal.Some? then r == Failure(refusal.value) && ShelfOf(v) == old(ShelfOf(v))
            else r.Success? && CopyMade(old(ShelfOf(v)), ShelfOf(v), v.anchors[m], src, dst, r.value)
  {
    hide Space.Tree, Guarded, SingleParent, ContainersNamed, Masked, Grafted, BareCopyOf, Resolve, ResolveParent,
         Complete, Unused, StillRooted;
    if !ValidMount(v.db.sessions, m) {
      return Failure(MountInvalid);
    }
    if !v.db.sessions.mounts[m].writable {
      return Failure(ReadOnlyMount);
    }
    var sp := v.Now();
    var found := Resolve(sp, v.anchors[m], src);
    if found.Failure? {
      return Failure(found.error);
    }
    var target := ResolveParent(sp, v.anchors[m], dst);
    if target.Failure? {
      return Failure(target.error);
    }
    ResolvedIsKnown(sp, v.anchors[m], src);
    ParentIsConfined(sp, v.anchors[m], dst);
    var root := CopyRows(v, found.value, target.value.container, target.value.name);
    r := Success(root);
  }

  /** The effect of a copy on the whole volume. */
  ghost predicate CopyMade(sh0: Shelf, sh: Shelf, at: Node, src: string, dst: string, root: Node) {
    var found, target := Resolve(sh0.sp, at, src), ResolveParent(sh0.sp, at, dst);
    && Complete(sh0) && Complete(sh) && found.Success? && target.Success? && found.value in sh0.sp.kinds
    && Grafted(sh0, sh, target.value.container, root, target.value.name)
    && StillRooted(sh0.sp, sh.sp, target.value.container)
    && BareCopyOf(sh0, sh, found.value, root)
  }
}
