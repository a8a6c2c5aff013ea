/**
  Pack folds a container's subtree into the bytes of one entry; unpack restores
  it. The byte format is any injective encoding of a list of items: `table`
  holds the pairs met so far.
 */
module Packing {
  import opened Wrappers
  import opened Flat
  import opened Sessions
  import opened Tables
  import opened Store
  import opened Forest
  import opened Placements
  import opened Resolution
  import opened Namespace
  import opened Naming
  import opened Volumes
  import opened Subtrees
  import opened Listing
  import opened Copying

  /** What the columns of a node can hold: permission bits only, and no content in a container. */
  ghost predicate Sane(t: Traits) {
    && (t.mode.Some? ==> t.mode.value < 0x1000)
    && (t.kind == Container ==> t.data == [] && t.keep == None)
  }

  ghost predicate SaneItems(items: seq<Item>) {
    WellFormed(items) && forall k | 0 <= k < |items| :: Sane(items[k].traits)
  }

  /** What packed bytes stand for. Packing only ever adds to it. */
  type Format = map<bytes, seq<Item>>

  lemma {:induction false} LongerExists(blobs: set<bytes>) returns (n: nat)
    ensures forall b | b in blobs :: |b| < n
  {
    if blobs == {} {
      n := 0;
    } else {
      var b :| b in blobs;
      var m := LongerExists(blobs - {b});
      n := Max(m, |b| + 1);
      forall x | x in blobs ensures |x| < n { assert x == b || x in blobs - {b}; }
    }
  }

  lemma FreshBlob(blobs: set<bytes>)
    ensures exists b :: b !in blobs && b != []
  {
    var n := LongerExists(blobs);
    assert |Zeros(n + 1)| == n + 1;
    assert Zeros(n + 1) !in blobs;
  }

  function PackRefusal(sp: Space, s: Sessions, m: MountId, at: Node, path: string): Option<Error> {
    var found := Resolve(sp, at, path);
    if MountRefusal(s, m).Some? then MountRefusal(s, m)
    else if found.Failure? then Some(found.error)
    else if !sp.IsContainer(found.value) then Some(NotAContainer)
    else if AnyHeldByOther(s, Members(sp, found.value), m) then Some(LockHeld)
    else if PlacementsOf(sp, found.value) == {} then Some(NotFound)
    else None
  }

  class Packer {
    const v: Volume
    var table: Format

    constructor (v: Volume)
      ensures this.v == v && table == map[]
    {
      this.v, table := v, map[];
    }

    ghost predicate Valid()
      reads this, v, v.db
    {
      && v.Valid() && Masked(v.infos)
      && forall b | b in table :: SaneItems(table[b])
    }

    /** Some blob that stands for this list and no other. */
    method Encode(items: seq<Item>) returns (blob: bytes)
      requires SaneItems(items) && forall b | b in table :: SaneItems(table[b])
      modifies `table
      ensures blob in table && table[blob] == items
      ensures Extends(old(table), table)
      ensures forall b | b in table :: SaneItems(table[b])
    {
      if b :| b in table && table[b] == items {
        blob := b;
      } else {
        FreshBlob(table.Keys);
        blob :| blob !in table && blob != [];
        table := table[blob := items];
      }
    }

    /** The pass over the rows. Every parent has an index before a child asks for it. */
    method ListNodes(r: Node) returns (items: seq<Item>)
      requires Valid() && r in v.db.kinds
      ensures Lists(ShelfOf(v), r, Levels(v.Now(), r, DEPTH_BOUND), items) && SaneItems(items)
      ensures items[0].name == v.infos[r].name
    {
      hide Space.Tree, Guarded, SingleParent, Levels, Lists, ListsUpTo, Mapped, Known, BytesOf, Unused, Complete,
           IsParentRow;
      var sp, sh := v.Now(), ShelfOf(v);
      ValidIsComplete(v);
      var q := Levels(sp, r, DEPTH_BOUND);
      LevelsKnown(sp, r, DEPTH_BOUND);
      items := [Item(-1, v.infos[r].name, TraitsOf(sh, r))];
      ghost var first := ListRoot(sh, r, q);
      TraitsAreSane(v, r);
      ghost var positions: seq<Node> := [0];
      var index: map<Node, nat> := map[r := 0];
      NothingMapped(sp, r, q);
      MapOneMore(sp, r, q, map[], [], 0);
      assert RowNode(sp, r, q, 0) == r && map[][r := 0] == index && [] + [0] == positions;
      for i := 1 to |q| + 1
        invariant |items| == i == |positions| && ListsUpTo(sh, r, q, items) && items[0].name == v.infos[r].name
        invariant Mapped(sp, r, q, index, positions)
        invariant forall k | 0 <= k < i :: positions[k] == k && Sane(items[k].traits)
      {
        ghost var p := RowParent(sp, r, DEPTH_BOUND, q, i);
        ParentMapped(sp, r, DEPTH_BOUND, q, index, positions, p, i);
        ghost var more := ListRow(sh, r, q, items, p);
        RowEdgeKnown(sp, r, DEPTH_BOUND, q, i);
        var node := RowNode(sp, r, q, i);
        TraitsAreSane(v, node);
        var parent := index[sp.edges[q[i - 1].edge].parent];
        items := items + [Item(parent, sp.edges[q[i - 1].edge].name, TraitsOf(sh, node))];
        assert items == more;
        MapOneMore(sp, r, q, index, positions, i);
        index, positions := index[node := i], positions + [i];
      }
      IsWhole(sh, r, q, items);
      ListsWellFormed(sh, r, q, items);
    }

    /** Fold the subtree of a container into one entry in its place. */
    method Pack(m: MountId, path: string) returns (r: Result<Node, Error>)
      requires Valid()
      modifies `table, v`lastId, v`infos, v`edges, v.db`kinds, v.db`tables
      ensures Valid() && (ValidMount(v.db.sessions, m) ==> m in v.anchors) && (old(v.NamesAgree()) ==> v.NamesAgree())
      ensures Extends(old(table), table)
      ensures var refusal := if ValidMount(v.db.sessions, m) then PackRefusal(old(v.Now()), v.db.sessions, m,
                                                                              v.anchors[m], path)
                             else Some(MountInvalid);
              if refusal.Some? then r == Failure(refusal.value) && ShelfOf(v) == old(ShelfOf(v))
              else r.Success? && PackMade(table, old(ShelfOf(v)), ShelfOf(v), v.anchors[m], path, r.value)
    {
      hide Space.Tree, Guarded, SingleParent, Resolve, Complete, Unused, Members, HeldByOther, Packed, v.NamesAgree;
      if !ValidMount(v.db.sessions, m) {
        return Failure(MountInvalid);
      }
      if !v.db.sessions.mounts[m].writable {
        return Failure(ReadOnlyMount);
      }
      var sp := v.Now();
      var found := Resolve(sp, v.anchors[m], path);
      if found.Failure? {
        return Failure(found.error);
      }
      var node := found.value;
      if !sp.IsContainer(node) {
        return Failure(NotAContainer);
      }
      if AnyHeldByOther(v.db.sessions, Members(sp, node), m) {
        return Failure(LockHeld);
      }
      var placements := PlacementsOf(sp, node);
      if placements == {} {
        return Failure(NotFound);
      }
      var e :| e in placements;
      var n := PackNode(node, e);
      r := Success(n);
    }

    method PackNode(node: Node, e: EdgeId) returns (n: Node)
      requires Valid() && v.Now().IsContainer(node) && v.Now().Active(e) && v.edges[e].child == node
      modifies `table, v`lastId, v`infos, v`edges, v.db`kinds, v.db`tables
      ensures Valid() && (old(v.NamesAgree()) ==> v.NamesAgree()) && Extends(old(table), table)
      ensures Packed(table, old(ShelfOf(v)), ShelfOf(v), node, n)
    {
      hide Space.Tree, Guarded, SingleParent, Levels, Lists, Unused, SaneItems, Describes, KeptBut, BytesOf, v.Valid,
           v.NamesAgree, PackedBy;
      ValidIsComplete(v);
      ghost var sh := ShelfOf(v);
      var items := ListNodes(node);
      HasRoot(items);
      ListedWhole(sh, node, items);
      var blob := Encode(items);
      ghost var id;
      n, id := Fold(node, e, blob);
      ValidIsComplete(v);
      PackedHere(table, sh, ShelfOf(v), node, e, n, id);
    }

    /** The blob takes the place of what was listed. */
    method Fold(node: Node, e: EdgeId, blob: bytes) returns (n: Node, ghost id: EdgeId)
      requires Valid() && v.Now().Active(e) && v.edges[e].child == node && node in v.infos
      modifies v`lastId, v`infos, v`edges, v.db`kinds, v.db`tables
      ensures Valid() && (old(v.NamesAgree()) ==> v.NamesAgree())
      ensures PackedBy(old(v.Now()), v.Now(), node, e, old(v.infos[node].name), n, id)
      ensures BytesOf(v.db.tables, n) == blob && KeptBut(old(v.db.tables), v.db.tables, n)
      ensures v.infos == old(v.infos)[n := NewInfo(old(v.infos[node].name), v.db.sessions.now)]
    {
      hide Space.Tree, Guarded, SingleParent, Unused, SaneItems, KeptBut, BytesOf, Members, IncomingOf, v.NamesAgree,
           v.db.Valid, v.NoStrayRows, Masked;
      ghost var sp, infos := v.Now(), v.infos;
      var parent, name := v.edges[e].parent, v.infos[node].name;
      EdgeEndsKnown(v.Now(), e);
      v.Archive(IncomingOf(v.Now(), Members(v.Now(), node)));
      ghost var cut := v.Now();
      n := v.NewNode(Entry, NewInfo(name, v.db.sessions.now), Given(blob));
      UnusedAfter(cut, n, Entry);
      assert v.db.Current(n) == BytesOf(v.db.tables, n);
      id := v.Place(parent, n, None);
      MaskedWith(infos, n, v.infos[n]);
      SameIds(sp, cut, n);
      SameIds(sp, cut, id);
    }

    // ---- unpack -----------------------------------------------------------------------

    /** One item restored under `parent`, its columns set the way the live operations set them. */
    method RestoreRow(it: Item, parent: Node) returns (n: Node, id: EdgeId)
      requires Valid() && v.Now().IsContainer(parent) && Sane(it.traits)
      modifies v`lastId, v`infos, v`edges, v.db`kinds, v.db`tables
      ensures Valid() && Unused(old(v.Now()), n) && Unused(old(v.Now()), id) && old(v.lastId) < n < id == v.lastId
      ensures old(v.NamesAgree()) ==> v.NamesAgree()
      ensures v.Now() == Placing(Adding(old(v.Now()), n, it.traits.kind), id, parent, n, it.name)
      ensures n in v.infos && v.infos == old(v.infos)[n := v.infos[n]]
      ensures KeptBut(old(v.db.tables), v.db.tables, n)
      ensures TraitsOf(ShelfOf(v), n) == it.traits
    {
      hide Space.Tree, Guarded, SingleParent, Unused, KeptBut, ContainersNamed, BytesOf, v.db.Valid, v.NoStrayRows,
           Masked, Sane, SaneItems;
      ghost var sp := v.Now();
      ghost var t := v.db.tables;
      var tr := it.traits;
      n := v.NewNode(tr.kind, Info(it.name, tr.created, Some(tr.modified), tr.metadata, None, None, None, map[]),
                     Given(tr.data));
      UnusedAfter(sp, n, tr.kind);
      MaskedWith(old(v.infos), n, v.infos[n]);
      id := v.Place(parent, n, None);
      ghost var placed := v.infos;
      RestoreColumns(n, it.name, tr);
      SameNames(v.Now(), placed, v.infos);
      RestoreKeep(n, tr, t);
      assert v.db.Current(n) == BytesOf(v.db.tables, n);
      RestoredTraits(ShelfOf(v), n, it);
    }

    method RestoreColumns(n: Node, name: string, tr: Traits)
      requires v.Valid() && forall b | b in table :: SaneItems(table[b])
      requires n in v.infos && Sane(tr) && Masked(v.infos)
      requires v.infos[n] == Info(name, tr.created, Some(tr.modified), tr.metadata, None, None, None, map[])
      modifies v`infos
      ensures Valid()
      ensures v.infos == old(v.infos)[n := Info(name, tr.created, Some(tr.modified), tr.metadata, tr.uid, tr.gid,
                                                tr.mode, tr.xattrs)]
    {
      hide Space.Tree, Guarded, SingleParent, NotInItself, Unused, SaneItems, v.db.Valid, v.NoStrayRows, Masked;
      if tr.uid.Some? || tr.gid.Some? || tr.mode.Some? {
        var mode := if tr.mode.Some? then Some(tr.mode.value % 0x1000) else None;
        v.infos := v.infos[n := v.infos[n].(uid := tr.uid, gid := tr.gid, mode := mode)];
      }
      v.infos := v.infos[n := v.infos[n].(xattrs := tr.xattrs)];
      MaskedWith(old(v.infos), n, v.infos[n]);
      assert v.infos == old(v.infos)[n := v.infos[n]];
    }

    method RestoreKeep(n: Node, tr: Traits, ghost t: Tables)
      requires Valid() && n in v.db.kinds && v.db.kinds[n] == tr.kind
      requires KeptBut(t, v.db.tables, n) && Unkept(v.db.tables, n)
      modifies v.db`tables
      ensures Valid() && KeptBut(t, v.db.tables, n) && v.db.Current(n) == old(v.db.Current(n))
      ensures n in v.db.tables.content <==> tr.kind != Container
      ensures tr.kind != Container ==> v.db.tables.content[n].keep == tr.keep
    {
      hide Space.Tree, Guarded, SingleParent, Unused, SaneItems, Masked, Sound, BytesOf;
      if tr.keep.Some? && tr.kind != Container {
        ghost var t1 := v.db.tables;
        v.db.SetKeep(n, tr.keep);
        assert forall o :: BytesOf(v.db.tables, o) == v.db.Current(o) == BytesOf(t1, o);
        KeepKeepsOthers(t, t1, n, tr.keep);
        RowsUnmoved(t1, n, tr.keep);
      }
    }

    /** Plant every item under `target` or under the node made for its parent. */
    method PlantItems(items: seq<Item>, target: Node) returns (root: Node)
      requires Valid() && SaneItems(items) && v.Now().IsContainer(target)
      modifies v`lastId, v`infos, v`edges, v.db`kinds, v.db`tables
      ensures Valid() && Complete(old(ShelfOf(v))) && Complete(ShelfOf(v))
      ensures old(v.NamesAgree()) ==> v.NamesAgree()
      ensures Grafted(old(ShelfOf(v)), ShelfOf(v), target, root, items[0].name)
      ensures StillRooted(old(v.Now()), v.Now(), target)
      ensures forall d: nat :: TreeOf(ShelfOf(v), root, d) == TreeIn(items, 0, d)
    {
      hide Space.Tree, Guarded, SingleParent, Planting, Unused, KeptBut, Complete, Grafted, StillRooted, Space.Placed,
           v.Valid, v.NamesAgree, Masked, SaneItems, Sane, TreeOf, TreeIn;
      ghost var sh0 := ShelfOf(v);
      ValidIsComplete(v);
      HasRoot(items);
      NothingPlanted(sh0, target);
      assert items[..0] == [];
      var idmap: seq<Node>, es: seq<EdgeId> := [], [];
      root := 0;
      for i := 0 to |items|
        invariant Valid() && |idmap| == i && (i > 0 ==> root == idmap[0]) && (old(v.NamesAgree()) ==> v.NamesAgree())
        invariant |es| == i && forall k | 0 <= k < i :: es[k] <= v.lastId
        invariant Planting(sh0, ShelfOf(v), target, items[..i], idmap, es) && StillRooted(sh0.sp, v.Now(), target)
      {
        ghost var sh := ShelfOf(v);
        NextItem(sh0, sh, items, target, idmap, es, i);
        var parent := if items[i].parent == -1 then target else idmap[items[i].parent];
        var n, id := RestoreRow(items[i], parent);
        ValidIsComplete(v);
        PlantOne(sh0, sh, ShelfOf(v), target, items[..i], idmap, es, items[i], n, id, v.infos[n]);
        StillRootedNext(sh0.sp, sh.sp, target, parent, n, items[i].traits.kind, items[i].name, id);
        assert items[..i + 1] == items[..i] + [items[i]];
        idmap, es := idmap + [n], es + [id];
        if i == 0 {
          root := n;
        }
      }
      assert items[..|items|] == items;
      PlantedTree(sh0, ShelfOf(v), target, items, idmap, es);
    }

    /** Restore a packed entry's subtree in the place of whichever of its placements `placement_of` returns. */
    method Unpack(m: MountId, path: string) returns (r: Result<(), Error>, ghost e: EdgeId, ghost root: Node)
      requires Valid()
      modifies v`lastId, v`infos, v`edges, v.db`kinds, v.db`tables
      ensures Valid() && Complete(ShelfOf(v)) && (ValidMount(v.db.sessions, m) ==> m in v.anchors)
      ensures old(v.NamesAgree()) ==> v.NamesAgree()
      ensures var refusal := if ValidMount(v.db.sessions, m) then old(UnpackRefusal(m, v.anchors[m], path))
                             else Some(MountInvalid);
              if refusal.Some? then r == Failure(refusal.value) && ShelfOf(v) == old(ShelfOf(v))
              else r.Success? && UnpackMade(table, old(ShelfOf(v)), ShelfOf(v), v.anchors[m], path, e, root)
    {
      hide Space.Tree, Guarded, SingleParent, Resolve, Complete, Unused, HeldByOther, RestoredFrom, SaneItems, Masked,
           BytesOf, v.NamesAgree;
      e, root := 0, 0;
      ValidIsComplete(v);
      if !ValidMount(v.db.sessions, m) {
        return Failure(MountInvalid), 0, 0;
      }
      if !v.db.sessions.mounts[m].writable {
        return Failure(ReadOnlyMount), 0, 0;
      }
      var sp := v.Now();
      var found := Resolve(sp, v.anchors[m], path);
      if found.Failure? {
        return Failure(found.error), 0, 0;
      }
      var node := found.value;
      if sp.IsContainer(node) {
        return Failure(NotAnEntry), 0, 0;
      }
      if HeldByOther(v.db.sessions, node, m) {
        return Failure(LockHeld), 0, 0;
      }
      var blob := BytesOf(v.db.tables, node);
      if blob !in table {
        return Failure(Corrupt), 0, 0;
      }
      var placements := PlacementsOf(sp, node);
      if placements == {} {
        return Failure(NotFound), 0, 0;
      }
      var chosen :| chosen in placements;
      e := chosen;
      root := UnpackAt(node, chosen, table[blob]);
      r := Success(());
    }

    ghost function UnpackRefusal(m: MountId, at: Node, path: string): Option<Error>
      reads this, v, v.db
    {
      var found := Resolve(v.Now(), at, path);
      if MountRefusal(v.db.sessions, m).Some? then MountRefusal(v.db.sessions, m)
      else if found.Failure? then Some(found.error)
      else if v.Now().IsContainer(found.value) then Some(NotAnEntry)
      else if HeldByOther(v.db.sessions, found.value, m) then Some(LockHeld)
      else if v.db.Current(found.value) !in table then Some(Corrupt)
      else if PlacementsOf(v.Now(), found.value) == {} then Some(NotFound)
      else None
    }

    method UnpackAt(node: Node, e: EdgeId, items: seq<Item>) returns (root: Node)
      requires Valid() && SaneItems(items) && v.Now().Active(e) && v.edges[e].child == node
      modifies v`lastId, v`infos, v`edges, v.db`kinds, v.db`tables
      ensures Valid() && Complete(old(ShelfOf(v))) && Complete(ShelfOf(v)) && (old(v.NamesAgree()) ==> v.NamesAgree())
      ensures RestoredFrom(old(ShelfOf(v)), ShelfOf(v), node, items, root, e)
    {
      hide Space.Tree, Guarded, SingleParent, Unused, Grafted, StillRooted, SaneItems, Masked, v.NamesAgree;
      ghost var sh := ShelfOf(v);
      ValidIsComplete(v);
      var parent := v.edges[e].parent;
      EdgeEndsKnown(v.Now(), e);
      HasRoot(items);
      v.Archive({e});
      ghost var sh1 := ShelfOf(v);
      assert sh1 == Without(sh, e);
      ValidIsComplete(v);
      root := PlantItems(items, parent);
    }
  }

  ghost predicate Extends(before: Format, after: Format) {
    forall b | b in before :: b in after && after[b] == before[b]
  }

  lemma SameIds(sp: Space, cut: Space, id: nat)
    requires cut.kinds == sp.kinds && cut.edges.Keys == sp.edges.Keys && Unused(cut, id)
    ensures Unused(sp, id)
  {
  }

  /** The subtree of `node` is folded into the entry `n`, whose bytes describe it in the given format. */
  ghost predicate Packed(format: Format, sh: Shelf, sh': Shelf, node: Node, n: Node) {
    && Complete(sh) && Complete(sh') && PackedAway(sh.sp, sh'.sp, node, sh.infos, n)
    && KeptBut(sh.t, sh'.t, n) && (forall x | x in sh.infos && x != n :: x in sh'.infos && sh'.infos[x] == sh.infos[x])
    && BytesOf(sh'.t, n) in format && Describes(format[BytesOf(sh'.t, n)], sh, node)
    && format[BytesOf(sh'.t, n)][0].name == sh.infos[node].name
  }

  ghost predicate PackMade(format: Format, sh: Shelf, sh': Shelf, at: Node, path: string, n: Node) {
    Resolve(sh.sp, at, path).Success? && Packed(format, sh, sh', Resolve(sh.sp, at, path).value, n)
  }

  lemma PackedHere(format: Format, sh: Shelf, sh': Shelf, node: Node, e: EdgeId, n: Node, id: EdgeId)
    requires Complete(sh) && Complete(sh') && node in sh.infos
    requires PackedBy(sh.sp, sh'.sp, node, e, sh.infos[node].name, n, id)
    requires KeptBut(sh.t, sh'.t, n) && sh'.infos.Keys == sh.infos.Keys + {n}
    requires forall x | x in sh.infos && x != n :: sh'.infos[x] == sh.infos[x]
    requires BytesOf(sh'.t, n) in format && Describes(format[BytesOf(sh'.t, n)], sh, node)
    requires format[BytesOf(sh'.t, n)][0].name == sh.infos[node].name
    ensures Packed(format, sh, sh', node, n)
  {
  }

  /** The packed entry's placement is archived, and a tree as the items describe it is planted beside it. */
  ghost predicate RestoredFrom(sh: Shelf, sh': Shelf, node: Node, items: seq<Item>, root: Node, e: EdgeId) {
    && Complete(sh) && Complete(sh') && sh.sp.Active(e) && sh.sp.edges[e].child == node && items != []
    && Complete(Without(sh, e))
    && Grafted(Without(sh, e), sh', sh.sp.edges[e].parent, root, items[0].name)
    && StillRooted(Without(sh, e).sp, sh'.sp, sh.sp.edges[e].parent)
    && forall d: nat :: TreeOf(sh', root, d) == TreeIn(items, 0, d)
  }

  function Without(sh: Shelf, e: EdgeId): Shelf {
    sh.(sp := Archiving(sh.sp, {e}))
  }

  ghost predicate UnpackMade(format: Format, sh: Shelf, sh': Shelf, at: Node, path: string, e: EdgeId, root: Node) {
    && Resolve(sh.sp, at, path).Success?
    && var node := Resolve(sh.sp, at, path).value;
       && !sh.sp.IsContainer(node) && BytesOf(sh.t, node) in format
       && RestoredFrom(sh, sh', node, format[BytesOf(sh.t, node)], root, e)
  }

  lemma HasRoot(items: seq<Item>)
    requires SaneItems(items)
    ensures items != [] && items[0].parent == -1
  {
  }

  lemma NextItem(sh0: Shelf, sh: Shelf, items: seq<Item>, target: Node, ids: seq<Node>, es: seq<EdgeId>, i: nat)
    requires SaneItems(items) && i < |items| && |ids| == i && Planting(sh0, sh, target, items[..i], ids, es)
    requires sh0.sp.IsContainer(target)
    ensures Sane(items[i].traits) && -1 <= items[i].parent < i
    ensures var parent := if items[i].parent == -1 then target else ids[items[i].parent];
            sh.sp.IsContainer(parent) && (parent == target || sh.sp.Placed(parent))
    ensures target in sh.sp.kinds && sh.sp.IsContainer(target) && Complete(sh)
  {
    var p := items[i].parent;
    if p >= 0 {
      assert items[..i][p] == items[p];
      assert sh.sp.edges[es[p]] == Placement(target, items[..i], ids, p);
      assert sh.sp.Active(es[p]);
    }
    assert TraitsOf(sh, target) == TraitsOf(sh0, target);
  }

  lemma PlantedTree(sh0: Shelf, sh: Shelf, target: Node, items: seq<Item>, ids: seq<Node>, es: seq<EdgeId>)
    requires Planting(sh0, sh, target, items, ids, es) && SaneItems(items) && target in sh0.sp.kinds
    ensures Complete(sh0) && Complete(sh) && Grafted(sh0, sh, target, ids[0], items[0].name)
    ensures forall d: nat :: TreeOf(sh, ids[0], d) == TreeIn(items, 0, d)
  {
    assert |ids| == |items| > 0;
    hide TreeOf, TreeIn, Grafted, PlantedAt, TraitsPlanted, KeptFrom, Guarded;
    PlantedIsGrafted(sh0, sh, target, items, ids, es);
    forall d: nat ensures TreeOf(sh, ids[0], d) == TreeIn(items, 0, d) {
      PlantedIsTree(sh0.sp, sh, target, items, ids, es, 0, d);
    }
  }

  lemma SameNames(sp: Space, infos: map<Node, Info>, infos': map<Node, Info>)
    requires infos'.Keys == infos.Keys && forall n | n in infos :: infos'[n].name == infos[n].name
    ensures ContainersNamed(sp, infos) ==> ContainersNamed(sp, infos')
  {
  }

  lemma RowsUnmoved(t: Tables, n: Node, keep: Option<int>)
    requires n in t.content
    ensures forall u: Ver :: t.(content := t.content[n := t.content[n].(keep := keep)]).Rows(u) == t.Rows(u)
  {
  }

  lemma RestoredTraits(sh: Shelf, n: Node, it: Item)
    requires n in sh.sp.kinds && n in sh.infos && sh.sp.kinds[n] == it.traits.kind && Sane(it.traits)
    requires sh.infos[n] == Info(it.name, it.traits.created, Some(it.traits.modified), it.traits.metadata,
                                 it.traits.uid, it.traits.gid, it.traits.mode, it.traits.xattrs)
    requires n in sh.t.content <==> it.traits.kind != Container
    requires it.traits.kind != Container ==>
               sh.t.content[n].keep == it.traits.keep && BytesOf(sh.t, n) == it.traits.data
    ensures TraitsOf(sh, n) == it.traits
  {
  }

  // ---- What packing leaves ---------------------------------------------------------------

  function PackedSpace(sp: Space, node: Node, parent: Node, name: string, n: Node, id: EdgeId): Space {
    Placing(Adding(Archiving(sp, IncomingOf(sp, Members(sp, node))), n, Entry), id, parent, n, name)
  }

  /** The subtree's placements are archived and `n` is placed where `node` was, under its name. */
  ghost predicate PackedBy(sp: Space, sp': Space, node: Node, e: EdgeId, name: string, n: Node, id: EdgeId) {
    && sp.Active(e) && sp.edges[e].child == node && Unused(sp, n) && Unused(sp, id) && n < id
    && sp' == PackedSpace(sp, node, sp.edges[e].parent, name, n, id)
  }

  ghost predicate PackedAway(sp: Space, sp': Space, node: Node, infos: map<Node, Info>, n: Node) {
    node in infos && exists e, id :: PackedBy(sp, sp', node, e, infos[node].name, n, id)
  }

  lemma EdgeEndsKnown(sp: Space, e: EdgeId)
    requires Guarded(sp) && e in sp.edges
    ensures sp.IsContainer(sp.edges[e].parent) && sp.edges[e].child in sp.kinds
  {
  }

  lemma KeepKeepsOthers(t: Tables, t1: Tables, n: Node, keep: Option<int>)
    requires KeptBut(t, t1, n) && n in t1.content
    ensures var t2 := t1.(content := t1.content[n := t1.content[n].(keep := keep)]);
            (forall o :: BytesOf(t2, o) == BytesOf(t1, o)) ==> KeptBut(t, t2, n)
  {
  }

  lemma TraitsAreSane(v: Volume, n: Node)
    requires v.Valid() && Masked(v.infos) && n in v.db.kinds
    ensures Sane(TraitsOf(ShelfOf(v), n))
  {
  }

  // ---- What the operations keep ------------------------------------------------------------

  /** A copy keeps everything hanging off the root exactly when the mount point still does. */
  lemma CopyRooted(sh0: Shelf, sh: Shelf, at: Node, src: string, dst: string, root: Node, z: Node)
    requires CopyMade(sh0, sh, at, src, dst, root) && sh0.sp.IsContainer(at) && Rooted(sh0.sp, z)
    ensures Rooted(sh.sp, z) <==> Beneath(sh0.sp.Tree(), z, at)
  {
    hide BareCopyOf, Space.Tree, Resolve, ResolveParent, Rooted;
    var p := ResolveParent(sh0.sp, at, dst).value.container;
    RootedIsTree(sh0.sp, z);
    ParentIsConfined(sh0.sp, at, dst);
    AnchorDecides(sh0.sp.Tree(), z, at, p);
    if Rooted(sh.sp, z) && !Beneath(sh0.sp.Tree(), z, p) {
      var e :| GraftEdge(sh0, sh, p, root, ResolveParent(sh0.sp, at, dst).value.name, e);
      HangsOff(sh.sp, z, e);
      GraftLeavesOld(sh0, sh, p, root, ResolveParent(sh0.sp, at, dst).value.name);
      SameAncestors(sh0.sp, sh.sp, z, p);
    }
  }

  lemma HangsOff(sp: Space, z: Node, e: EdgeId)
    requires Rooted(sp, z) && sp.Active(e)
    ensures Beneath(sp.Tree(), z, sp.edges[e].parent)
  {
  }

  /** Placements that stay and new ones of new nodes leave the ancestors of an old container as they were. */
  lemma {:induction false} SameUp(a: Space, b: Space, x: Node, k: nat)
    requires Guarded(a) && Guarded(b) && x in a.kinds && OldStay(a, b)
    ensures Up(b.Tree(), x, k) == Up(a.Tree(), x, k)
    decreases k
  {
    hide Space.Tree, Guarded;
    if k > 0 {
      SameParent(a, b, x);
      if x in a.Tree() {
        var e := TreeEdge(a, x);
        EdgeEndsKnown(a, e);
        SameUp(a, b, a.Tree()[x], k - 1);
      }
    }
  }

  ghost predicate OldStay(a: Space, b: Space) {
    && (forall x | x in a.kinds :: x in b.kinds && b.kinds[x] == a.kinds[x])
    && (forall e | e in a.edges :: e in b.edges && b.edges[e] == a.edges[e])
    && (forall e | IsNew(a, b, e) :: b.edges[e].child !in a.kinds)
  }

  lemma GraftLeavesOld(sh0: Shelf, sh: Shelf, target: Node, root: Node, name: string)
    requires Complete(sh0) && Complete(sh) && Grafted(sh0, sh, target, root, name)
    ensures OldStay(sh0.sp, sh.sp)
  {
    forall x | x in sh0.sp.kinds ensures x in sh.sp.kinds && sh.sp.kinds[x] == sh0.sp.kinds[x] {
      assert TraitsOf(sh, x) == TraitsOf(sh0, x);
    }
  }

  lemma SameParent(a: Space, b: Space, x: Node)
    requires Guarded(a) && Guarded(b) && x in a.kinds && OldStay(a, b)
    ensures x in b.Tree() <==> x in a.Tree()
    ensures x in a.Tree() ==> b.Tree()[x] == a.Tree()[x]
  {
    hide Space.Tree;
    if x in a.Tree() {
      var e := TreeEdge(a, x);
      TreeAt(b, e);
    }
    if x in b.Tree() {
      var e := TreeEdge(b, x);
      TreeAt(a, e);
    }
  }

  lemma SameAncestors(a: Space, b: Space, z: Node, x: Node)
    requires Guarded(a) && Guarded(b) && x in a.kinds && OldStay(a, b)
    ensures Beneath(b.Tree(), z, x) <==> Beneath(a.Tree(), z, x)
  {
    hide Space.Tree, Guarded;
    if Beneath(b.Tree(), z, x) {
      var k: nat :| Up(b.Tree(), x, k) == Some(z);
      SameUp(a, b, x, k);
    }
    if Beneath(a.Tree(), z, x) {
      var k: nat :| Up(a.Tree(), x, k) == Some(z);
      SameUp(a, b, x, k);
    }
  }

  /** Packing leaves everything else hanging off the root exactly when the walk saw the whole subtree. */
  lemma PackRooted(sp: Space, sp': Space, node: Node, e: EdgeId, name: string, n: Node, id: EdgeId, z: Node)
    requires Guarded(sp) && Rooted(sp, z) && sp.IsContainer(node) && PackedBy(sp, sp', node, e, name, n, id)
    ensures Guarded(sp') && (Rooted(sp', z) <==> forall x | InSubtree(sp, node, x) :: x in Members(sp, node))
  {
    hide Space.Tree, Members, Guarded, SingleParent, Rooted, CutBelow, Archiving, IncomingOf, Unused, PackedSpace;
    var gone := IncomingOf(sp, Members(sp, node));
    var cut := Archiving(sp, gone);
    var parent := sp.edges[e].parent;
    EdgeEndsKnown(sp, e);
    IncomingMeaning(sp, Members(sp, node));
    MembersCut(sp, node, gone, n, id);
    CutRooted(sp, z, node, gone);
    ParentOutsideCut(sp, node, e, z, gone);
    PackedIs(sp, cut, node, parent, name, n, id);
    AddedLeaf(cut, parent, n, name, id);
    if Rooted(cut, z) {
      AddedRooted(cut, z, parent, name, Entry, n, id);
    } else if Rooted(sp', z) {
      RootedIsContainer(sp, cut, z);
      LeafUnderRooted(cut, sp', z);
    }
  }

  lemma IncomingMeaning(sp: Space, nodes: set<Node>)
    ensures Incoming(sp, nodes, IncomingOf(sp, nodes))
  {
  }

  lemma PackedIs(sp: Space, cut: Space, node: Node, parent: Node, name: string, n: Node, id: EdgeId)
    requires cut == Archiving(sp, IncomingOf(sp, Members(sp, node)))
    ensures PackedSpace(sp, node, parent, name, n, id) == Placing(Adding(cut, n, Entry), id, parent, n, name)
  {
  }

  lemma MembersCut(sp: Space, node: Node, gone: set<EdgeId>, n: Node, id: EdgeId)
    requires Guarded(sp) && Unused(sp, n) && Unused(sp, id) && n < id
    ensures var cut := Archiving(sp, gone); Guarded(cut) && Unused(cut, n) && Unused(cut, id) && cut.kinds == sp.kinds
  {
    ArchivingKeeps(sp, gone);
  }

  lemma AddedLeaf(cut: Space, parent: Node, n: Node, name: string, id: EdgeId)
    requires Guarded(cut) && Unused(cut, n) && Unused(cut, id) && n < id && cut.IsContainer(parent)
    ensures var sp' := Placing(Adding(cut, n, Entry), id, parent, n, name);
            && Guarded(sp') && sp'.Tree() == cut.Tree()
            && forall e | cut.Active(e) :: sp'.Active(e) && sp'.edges[e] == cut.edges[e]
  {
    AddingKeeps(cut, n, Entry);
    PlacingKeeps(Adding(cut, n, Entry), id, parent, n, name);
    hide Space.Tree;
  }

  lemma RootedIsContainer(sp: Space, cut: Space, z: Node)
    requires Rooted(sp, z) && cut.kinds == sp.kinds
    ensures cut.IsContainer(z)
  {
  }

  lemma ParentOutsideCut(sp: Space, node: Node, e: EdgeId, z: Node, gone: set<EdgeId>)
    requires Guarded(sp) && Rooted(sp, z) && sp.IsContainer(node) && sp.Active(e) && sp.edges[e].child == node
    requires Incoming(sp, Members(sp, node), gone)
    ensures Beneath(Archiving(sp, gone).Tree(), z, sp.edges[e].parent)
  {
    hide Space.Tree, Members, Guarded, SingleParent, Rooted, CutBelow, Archiving;
    RootedIsTree(sp, z);
    ParentNotInside(sp, node, e, z);
    ArchivedTree(sp, node, gone);
    CutDetaches(sp.Tree(), Archiving(sp, gone).Tree(), z, node, DEPTH_BOUND, sp.edges[e].parent);
  }

  /** The parent of a placed node hangs off the root without passing the node. */
  lemma ParentNotInside(sp: Space, node: Node, e: EdgeId, z: Node)
    requires Guarded(sp) && Rooted(sp, z) && sp.IsContainer(node) && sp.Active(e) && sp.edges[e].child == node
    ensures Beneath(sp.Tree(), z, sp.edges[e].parent) && !Beneath(sp.Tree(), node, sp.edges[e].parent)
  {
    RootedIsTree(sp, z);
    TreeAt(sp, e);
    hide Space.Tree;
    if Beneath(sp.Tree(), node, sp.edges[e].parent) { NotAboveItself(sp.Tree(), node, node); }
  }

  lemma LeafUnderRooted(cut: Space, sp': Space, z: Node)
    requires Rooted(sp', z) && sp'.Tree() == cut.Tree()
    requires forall e | cut.Active(e) :: sp'.Active(e) && sp'.edges[e] == cut.edges[e]
    requires cut.IsContainer(z)
    ensures Rooted(cut, z)
  {
    hide Space.Tree;
    forall e | cut.Active(e) ensures Beneath(cut.Tree(), z, cut.edges[e].parent) && cut.edges[e].child != z {
      assert sp'.Active(e);
    }
  }

  /** Unpacking always keeps everything hanging off the root. */
  lemma UnpackRooted(sh: Shelf, sh': Shelf, node: Node, items: seq<Item>, root: Node, e: EdgeId, z: Node)
    requires RestoredFrom(sh, sh', node, items, root, e) && !sh.sp.IsContainer(node) && Rooted(sh.sp, z)
    ensures Complete(sh') && Rooted(sh'.sp, z)
  {
    hide TreeOf, TreeIn, Grafted;
    LeafCut(sh.sp, e, z);
  }

  lemma LeafCut(sp: Space, e: EdgeId, z: Node)
    requires Guarded(sp) && Rooted(sp, z) && sp.Active(e) && !sp.IsContainer(sp.edges[e].child)
    ensures Rooted(Archiving(sp, {e}), z) && Beneath(Archiving(sp, {e}).Tree(), z, sp.edges[e].parent)
  {
    hide Space.Tree, Guarded, SingleParent;
    var cut := Archiving(sp, {e});
    LeafCutTree(sp, e);
    forall f | cut.Active(f) ensures sp.Active(f) && cut.edges[f] == sp.edges[f] {}
  }

  lemma LeafCutTree(sp: Space, e: EdgeId)
    requires Guarded(sp) && sp.Active(e) && !sp.IsContainer(sp.edges[e].child)
    ensures Archiving(sp, {e}).Tree() == sp.Tree()
  {
    hide Space.Tree, Guarded, SingleParent;
    ArchivingKeeps(sp, {e});
    hide Archiving;
    var p, q := sp.Tree(), Archiving(sp, {e}).Tree();
    forall x: Node ensures x in q <==> x in p {
      if x in p { var f := TreeEdge(sp, x); }
    }
    SameButFor(p, q, 0, false);
  }

  /** Neither packing nor unpacking archives a placement of a node another mount holds locked. */
  lemma PackSparesLocked(format: Format, sh: Shelf, sh': Shelf, s: Sessions, m: MountId, at: Node, path: string,
                         n: Node, f: EdgeId)
    requires PackRefusal(sh.sp, s, m, at, path).None? && PackMade(format, sh, sh', at, path, n)
    requires sh.sp.Active(f) && HeldByOther(s, sh.sp.edges[f].child, m)
    ensures f in sh'.sp.edges && sh'.sp.edges[f] == sh.sp.edges[f]
  {
    hide HeldByOther, Resolve, Members, Describes, KeptBut, Complete, BytesOf, Guarded;
    var node := Resolve(sh.sp, at, path).value;
    var e, id :| PackedBy(sh.sp, sh'.sp, node, e, sh.infos[node].name, n, id);
  }

  lemma UnpackSparesLocked(sh: Shelf, sh': Shelf, s: Sessions, m: MountId, node: Node, items: seq<Item>, root: Node,
                           e: EdgeId, f: EdgeId)
    requires RestoredFrom(sh, sh', node, items, root, e) && !HeldByOther(s, node, m)
    requires sh.sp.Active(f) && HeldByOther(s, sh.sp.edges[f].child, m)
    ensures f in sh'.sp.edges && sh'.sp.edges[f] == sh.sp.edges[f]
  {
    hide HeldByOther, TreeOf, TreeIn, Guarded;
    assert Without(sh, e).sp.edges[f] == sh.sp.edges[f];
  }
}
