/**
  Whole runs of calls by any mounts: the active placements stay a tree of
  containers under the root, and bytes change only where they are written.
 */
module Histories {
  import opened Wrappers
  import opened Flat
  import opened Sessions
  import opened Tables
  import opened Store
  import opened Forest
  import opened Placements
  import opened Resolution
  import opened Namespace
  import opened Volumes
  import opened Subtrees
  import opened Copying
  import opened Packing

  /** Every call that changes names, placements or bytes. `Edit` is any change of one entry's content. */
  datatype Act =
    | Ask(rq: Request)
    | Copy(src: string, dst: string)
    | Pack(path: string)
    | Unpack(path: string)
    | Edit(node: Node, data: bytes)

  /** A call through a mount that resolves from `at`, in the sessions `s` of that moment. */
  datatype Call = Call(s: Sessions, mount: MountId, at: Node, act: Act)

  /** The content of every node there was, but for one, is what it was. */
  ghost predicate BytesStay(sh: Shelf, sh': Shelf, but: Option<Node>) {
    forall x | x in sh.sp.kinds :: x in sh'.sp.kinds && (but != Some(x) ==> BytesOf(sh'.t, x) == BytesOf(sh.t, x))
  }

  ghost predicate Happened(format: Format, sh: Shelf, sh': Shelf, c: Call) {
    && Complete(sh) && Complete(sh') && sh.sp.IsContainer(c.at)
    && match c.act
       case Ask(rq) => Step(sh.sp, sh'.sp, c.s, c.mount, c.at, rq) && BytesStay(sh, sh', None)
       case Copy(src, dst) =>
         && CopyRefusal(sh.sp, c.s, c.mount, c.at, src, dst).None?
         && exists root :: CopyMade(sh, sh', c.at, src, dst, root)
       case Pack(path) =>
         && PackRefusal(sh.sp, c.s, c.mount, c.at, path).None?
         && exists n :: PackMade(format, sh, sh', c.at, path, n)
       case Unpack(path) =>
         && MountRefusal(c.s, c.mount).None?
         && Resolve(sh.sp, c.at, path).Success? && !HeldByOther(c.s, Resolve(sh.sp, c.at, path).value, c.mount)
         && exists e, root :: UnpackMade(format, sh, sh', c.at, path, e, root)
       case Edit(node, data) =>
         sh'.sp == sh.sp && node in sh.sp.kinds && BytesOf(sh'.t, node) == data && BytesStay(sh, sh', Some(node))
  }

  /** What a caller would have to check before the call for the tree to stay whole. */
  ghost predicate Keeps(sh: Shelf, root: Node, c: Call) {
    match c.act
    case Ask(rq) => KeepsTree(sh.sp, root, c.at, rq)
    case Copy(_, _) => Beneath(sh.sp.Tree(), root, c.at)
    case Pack(path) =>
      Resolve(sh.sp, c.at, path).Success? ==>
        forall n | InSubtree(sh.sp, Resolve(sh.sp, c.at, path).value, n) ::
          n in Members(sh.sp, Resolve(sh.sp, c.at, path).value)
    case _ => true
  }

  /** Each call keeps everything placed hanging off the root exactly under its condition. */
  lemma CallRooted(format: Format, sh: Shelf, sh': Shelf, c: Call, root: Node)
    requires Happened(format, sh, sh', c) && Rooted(sh.sp, root)
    ensures Rooted(sh'.sp, root) <==> Keeps(sh, root, c)
  {
    hide Rooted, Step, CopyMade, Packed, RestoredFrom, KeepsTree, Space.Tree, Members, Resolve, InSubtree, HeldByOther,
         Guarded;
    match c.act
    case Ask(rq) => StepRooted(sh.sp, sh'.sp, c.s, c.mount, c.at, rq, root);
    case Copy(src, dst) =>
      var r :| CopyMade(sh, sh', c.at, src, dst, r);
      CopyRooted(sh, sh', c.at, src, dst, r, root);
    case Pack(path) =>
      var n :| PackMade(format, sh, sh', c.at, path, n);
      PackCallRooted(format, sh, sh', Resolve(sh.sp, c.at, path).value, n, root);
    case Unpack(path) =>
      var e, r :| UnpackMade(format, sh, sh', c.at, path, e, r);
      var node := Resolve(sh.sp, c.at, path).value;
      UnpackRooted(sh, sh', node, format[BytesOf(sh.t, node)], r, e, root);
    case Edit(node, data) =>
  }

  lemma PackCallRooted(format: Format, sh: Shelf, sh': Shelf, node: Node, n: Node, root: Node)
    requires sh.sp.IsContainer(node) && Packed(format, sh, sh', node, n) && Rooted(sh.sp, root)
    ensures Rooted(sh'.sp, root) <==> forall x | InSubtree(sh.sp, node, x) :: x in Members(sh.sp, node)
  {
    hide Rooted, Members, Guarded, PackedBy, Describes;
    var e, id :| PackedBy(sh.sp, sh'.sp, node, e, sh.infos[node].name, n, id);
    PackRooted(sh.sp, sh'.sp, node, e, sh.infos[node].name, n, id, root);
  }

  ghost predicate Run(format: Format, shelves: seq<Shelf>, calls: seq<Call>) {
    && |shelves| == |calls| + 1
    && forall i | 0 <= i < |calls| :: Happened(format, shelves[i], shelves[i + 1], calls[i])
  }

  /**
    Over any run of any mounts' calls, in which every call met its condition,
    every container has at most one parent, there is no cycle, and every
    active placement's chain reaches the root.
   */
  lemma {:induction false} RunKeepsTree(format: Format, shelves: seq<Shelf>, calls: seq<Call>, root: Node, k: nat)
    requires Run(format, shelves, calls) && Complete(shelves[0]) && Rooted(shelves[0].sp, root) && k <= |calls|
    requires forall i | 0 <= i < k :: Keeps(shelves[i], root, calls[i])
    ensures Complete(shelves[k]) && SingleParent(shelves[k].sp) && Rooted(shelves[k].sp, root)
    ensures Acyclic(shelves[k].sp.Tree())
  {
    hide Rooted, Keeps, Space.Tree, Acyclic;
    if k > 0 {
      RunKeepsTree(format, shelves, calls, root, k - 1);
      assert Happened(format, shelves[k - 1], shelves[k - 1 + 1], calls[k - 1]);
      CallRooted(format, shelves[k - 1], shelves[k], calls[k - 1], root);
    }
    RootedIsTree(shelves[k].sp, root);
  }

  /** The first call that misses its condition is where the tree stops being whole. */
  lemma FirstMissBreaks(format: Format, shelves: seq<Shelf>, calls: seq<Call>, root: Node, k: nat)
    requires Run(format, shelves, calls) && Complete(shelves[0]) && Rooted(shelves[0].sp, root) && k < |calls|
    requires forall i | 0 <= i < k :: Keeps(shelves[i], root, calls[i])
    requires !Keeps(shelves[k], root, calls[k])
    ensures !Rooted(shelves[k + 1].sp, root)
  {
    RunKeepsTree(format, shelves, calls, root, k);
    hide Rooted, Keeps, Happened;
    CallRooted(format, shelves[k], shelves[k + 1], calls[k], root);
  }

  /**
    In every run, whatever else happens, no call archives or renames a placement of
    a node another mount holds locked.
   */
  lemma LockedIsSpared(format: Format, sh: Shelf, sh': Shelf, c: Call, e: EdgeId)
    requires Happened(format, sh, sh', c) && sh.sp.Active(e) && HeldByOther(c.s, sh.sp.edges[e].child, c.mount)
    ensures e in sh'.sp.edges && sh'.sp.edges[e] == sh.sp.edges[e]
  {
    hide Step, Packed, RestoredFrom, Space.Tree, Members, Resolve, InSubtree, HeldByOther, Guarded, BareCopyOf;
    match c.act
    case Ask(rq) => LockedStaysPlaced(sh.sp, sh'.sp, c.s, c.mount, c.at, rq, e);
    case Copy(src, dst) =>
    case Pack(path) =>
      var n :| PackMade(format, sh, sh', c.at, path, n);
      PackSparesLocked(format, sh, sh', c.s, c.mount, c.at, path, n, e);
    case Unpack(path) =>
      var f, r :| UnpackMade(format, sh, sh', c.at, path, f, r);
      var node := Resolve(sh.sp, c.at, path).value;
      UnpackSparesLocked(sh, sh', c.s, c.mount, node, format[BytesOf(sh.t, node)], r, f, e);
    case Edit(node, data) =>
  }

  // ---- Bytes over a run ------------------------------------------------------------------------

  /** Only an edit of a node changes its bytes: no call made by path does. */
  lemma CallBytes(format: Format, sh: Shelf, sh': Shelf, c: Call)
    requires Happened(format, sh, sh', c)
    ensures BytesStay(sh, sh', if c.act.Edit? then Some(c.act.node) else None)
  {
    hide Step, PackedAway, Space.Tree, Resolve, ResolveParent, HeldByOther, Guarded, BareCopyOf, BytesOf, TreeOf,
         TreeIn, StillRooted, Describes;
    match c.act
    case Ask(rq) =>
    case Copy(src, dst) =>
      var root :| CopyMade(sh, sh', c.at, src, dst, root);
      var p := ResolveParent(sh.sp, c.at, dst).value;
      GraftBytes(sh, sh', p.container, root, p.name);
    case Pack(path) =>
      var n :| PackMade(format, sh, sh', c.at, path, n);
      PackedKinds(sh.sp, sh'.sp, Resolve(sh.sp, c.at, path).value, sh.infos, n);
    case Unpack(path) =>
      var e, root :| UnpackMade(format, sh, sh', c.at, path, e, root);
      var items := format[BytesOf(sh.t, Resolve(sh.sp, c.at, path).value)];
      GraftBytes(Without(sh, e), sh', sh.sp.edges[e].parent, root, items[0].name);
    case Edit(node, data) =>
  }

  lemma GraftBytes(sh: Shelf, sh': Shelf, target: Node, root: Node, name: string)
    requires Complete(sh) && Complete(sh') && Grafted(sh, sh', target, root, name)
    ensures BytesStay(sh, sh', None)
  {
    hide BytesOf, Guarded;
    forall x | x in sh.sp.kinds ensures x in sh'.sp.kinds && BytesOf(sh'.t, x) == BytesOf(sh.t, x) {
      assert TraitsOf(sh', x).data == TraitsOf(sh, x).data;
    }
  }

  lemma PackedKinds(sp: Space, sp': Space, node: Node, infos: map<Node, Info>, n: Node)
    requires PackedAway(sp, sp', node, infos, n)
    ensures n !in sp.kinds && sp'.kinds == sp.kinds[n := Entry]
  {
  }

  /** The data of the last edit of `n` among the first `k` calls after the `i`th, or `first` when there is none. */
  function LastData(calls: seq<Call>, n: Node, i: nat, k: nat, first: bytes): bytes
    requires i <= k <= |calls|
    decreases k
  {
    if k == i then first
    else if calls[k - 1].act.Edit? && calls[k - 1].act.node == n then calls[k - 1].act.data
    else LastData(calls, n, i, k - 1, first)
  }

  /** Whatever else is called, an entry holds what was last written to it. */
  lemma {:induction false} RunBytes(format: Format, shelves: seq<Shelf>, calls: seq<Call>, n: Node, i: nat, k: nat)
    requires Run(format, shelves, calls) && i <= k <= |calls| && n in shelves[i].sp.kinds
    ensures n in shelves[k].sp.kinds
    ensures BytesOf(shelves[k].t, n) == LastData(calls, n, i, k, BytesOf(shelves[i].t, n))
    decreases k
  {
    hide Happened, BytesOf;
    if k > i {
      RunBytes(format, shelves, calls, n, i, k - 1);
      assert Happened(format, shelves[k - 1], shelves[k - 1 + 1], calls[k - 1]);
      CallBytes(format, shelves[k - 1], shelves[k], calls[k - 1]);
      if calls[k - 1].act.Edit? { EditedData(format, shelves[k - 1], shelves[k], calls[k - 1]); }
    }
  }

  lemma EditedData(format: Format, sh: Shelf, sh': Shelf, c: Call)
    requires Happened(format, sh, sh', c) && c.act.Edit?
    ensures BytesOf(sh'.t, c.act.node) == c.act.data
  {
  }

  // ---- Nodes without a placement -----------------------------------------------------------------

  /** The nodes `prune_nodes` deletes: never placed anywhere, and not the root. */
  function Volatile(sp: Space, root: Node): set<Node> {
    set x | x in sp.kinds && x != root && forall e | e in sp.edges :: sp.edges[e].child != x
  }

  ghost predicate EachPlaced(sp: Space, root: Node) {
    forall x | x in sp.kinds && x != root :: HasEdge(sp, x)
  }

  /** Placements are archived, never deleted, and a call that makes a node places it. */
  lemma CallPlaces(format: Format, sh: Shelf, sh': Shelf, c: Call, root: Node)
    requires Happened(format, sh, sh', c) && EachPlaced(sh.sp, root)
    ensures EachPlaced(sh'.sp, root)
  {
    hide Step, PackedAway, Space.Tree, Resolve, ResolveParent, HeldByOther, Guarded, BareCopyOf, BytesOf, TreeOf,
         TreeIn,
         StillRooted, Describes, KeptBut;
    match c.act
    case Ask(rq) => StepPlaces(sh.sp, sh'.sp, c.s, c.mount, c.at, rq, root);
    case Copy(src, dst) =>
      var r :| CopyMade(sh, sh', c.at, src, dst, r);
      GraftPlaces(sh, sh', ResolveParent(sh.sp, c.at, dst).value.container, r,
                  ResolveParent(sh.sp, c.at, dst).value.name, root);
    case Pack(path) =>
      var n :| PackMade(format, sh, sh', c.at, path, n);
      PackPlaces(sh.sp, sh'.sp, Resolve(sh.sp, c.at, path).value, sh.infos, n, root);
    case Unpack(path) =>
      var e, r :| UnpackMade(format, sh, sh', c.at, path, e, r);
      var items := format[BytesOf(sh.t, Resolve(sh.sp, c.at, path).value)];
      assert EachPlaced(Without(sh, e).sp, root) by { ArchivingPlaces(sh.sp, {e}, root); }
      GraftPlaces(Without(sh, e), sh', sh.sp.edges[e].parent, r, items[0].name, root);
    case Edit(node, data) =>
  }

  /** Keeping what was placed, and placing what is new. */
  lemma MorePlaced(a: Space, b: Space, root: Node)
    requires EachPlaced(a, root)
    requires forall e | e in a.edges :: e in b.edges && b.edges[e].child == a.edges[e].child
    requires forall x | x in b.kinds && x !in a.kinds :: HasEdge(b, x)
    ensures EachPlaced(b, root)
  {
    forall x | x in b.kinds && x != root ensures HasEdge(b, x) {
      if x in a.kinds {
        var e :| e in a.edges && a.edges[e].child == x;
        assert b.edges[e].child == x;
      }
    }
  }

  lemma ArchivingPlaces(sp: Space, gone: set<EdgeId>, root: Node)
    requires EachPlaced(sp, root)
    ensures EachPlaced(Archiving(sp, gone), root)
  {
    MorePlaced(sp, Archiving(sp, gone), root);
  }

  lemma PlacingPlaces(sp: Space, id: EdgeId, parent: Node, child: Node, name: string, root: Node)
    requires id !in sp.edges && (forall x | x in sp.kinds && x != root && x != child :: HasEdge(sp, x))
    ensures EachPlaced(Placing(sp, id, parent, child, name), root)
  {
    var after := Placing(sp, id, parent, child, name);
    forall x | x in after.kinds && x != root ensures HasEdge(after, x) {
      if x == child {
        assert after.edges[id].child == x;
      } else {
        var e :| e in sp.edges && sp.edges[e].child == x;
        assert after.edges[e].child == x;
      }
    }
  }

  lemma StepPlaces(sp: Space, sp': Space, s: Sessions, m: MountId, at: Node, rq: Request, root: Node)
    requires Step(sp, sp', s, m, at, rq) && EachPlaced(sp, root)
    ensures EachPlaced(sp', root)
  {
    hide Resolve, ResolveParent, Walked, RefusalOf, Members, IncomingOf, EachPlaced, Archiving;
    var n: Node, id: EdgeId :| Effect(sp, sp', at, rq, n, id);
    match rq
    case Create(path, kind) =>
      var p := ResolveParent(sp, at, path).value;
      AddingPlaces(sp, n, kind, root);
      PlacingPlaces(Adding(sp, n, kind), id, p.container, n, p.name, root);
    case Rename(path, name) =>
      RenamingPlaces(sp, Walked(sp, ResolveParent(sp, at, path).value, Resolve(sp, at, path).value), name, root);
    case Link(src, dst) =>
      var p := ResolveParent(sp, at, dst).value;
      PlacedUnfolds(sp, root);
      PlacingPlaces(sp, id, p.container, Resolve(sp, at, src).value, p.name, root);
    case Move(src, dst) =>
      var gone := Walked(sp, ResolveParent(sp, at, src).value, Resolve(sp, at, src).value);
      var p := ResolveParent(sp, at, dst).value;
      ArchivingPlaces(sp, gone, root);
      PlacedUnfolds(Archiving(sp, gone), root);
      SameKeys(sp, gone);
      PlacingPlaces(Archiving(sp, gone), id, p.container, Resolve(sp, at, src).value, p.name, root);
    case Remove(path) =>
      ArchivingPlaces(sp, Walked(sp, ResolveParent(sp, at, path).value, Resolve(sp, at, path).value), root);
    case RemoveRecursive(path) =>
      ArchivingPlaces(sp, IncomingOf(sp, Members(sp, Resolve(sp, at, path).value)), root);
  }

  lemma SameKeys(sp: Space, gone: set<EdgeId>)
    ensures Archiving(sp, gone).edges.Keys == sp.edges.Keys
  {
  }

  lemma PlacedUnfolds(sp: Space, root: Node)
    requires EachPlaced(sp, root)
    ensures forall x | x in sp.kinds && x != root :: HasEdge(sp, x)
  {
  }

  lemma AddingPlaces(sp: Space, n: Node, kind: Kind, root: Node)
    requires EachPlaced(sp, root)
    ensures forall x | x in Adding(sp, n, kind).kinds && x != root && x != n :: HasEdge(Adding(sp, n, kind), x)
  {
    forall x | x in sp.kinds && x != root ensures HasEdge(Adding(sp, n, kind), x) {
      var e :| e in sp.edges && sp.edges[e].child == x;
      assert Adding(sp, n, kind).edges[e].child == x;
    }
  }

  lemma RenamingPlaces(sp: Space, which: set<EdgeId>, name: string, root: Node)
    requires EachPlaced(sp, root)
    ensures EachPlaced(Renaming(sp, which, name), root)
  {
    MorePlaced(sp, Renaming(sp, which, name), root);
  }

  lemma GraftPlaces(sh: Shelf, sh': Shelf, target: Node, r: Node, name: string, root: Node)
    requires Complete(sh) && Complete(sh') && Grafted(sh, sh', target, r, name) && EachPlaced(sh.sp, root)
    ensures EachPlaced(sh'.sp, root)
  {
    hide TraitsOf, Guarded;
    MorePlaced(sh.sp, sh'.sp, root);
  }

  lemma PackPlaces(sp: Space, sp': Space, node: Node, infos: map<Node, Info>, n: Node, root: Node)
    requires PackedAway(sp, sp', node, infos, n) && EachPlaced(sp, root)
    ensures EachPlaced(sp', root)
  {
    hide Members, IncomingOf, Archiving, EachPlaced;
    var e, id :| PackedBy(sp, sp', node, e, infos[node].name, n, id);
    var gone := IncomingOf(sp, Members(sp, node));
    ArchivingPlaces(sp, gone, root);
    SameKeys(sp, gone);
    AddingPlaces(Archiving(sp, gone), n, Entry, root);
    PlacingPlaces(Adding(Archiving(sp, gone), n, Entry), id, sp.edges[e].parent, n, infos[node].name, root);
  }

  /** In no run from a new volume is there ever anything for `prune_nodes` to delete. */
  lemma NothingToPrune(format: Format, shelves: seq<Shelf>, calls: seq<Call>, root: Node, k: nat)
    requires Run(format, shelves, calls) && shelves[0].sp == Space(map[root := Container], map[]) && k <= |calls|
    ensures Volatile(shelves[k].sp, root) == {}
  {
    StaysPlaced(format, shelves, calls, root, k);
    NoneVolatile(shelves[k].sp, root);
  }

  lemma {:induction false} StaysPlaced(format: Format, shelves: seq<Shelf>, calls: seq<Call>, root: Node, k: nat)
    requires Run(format, shelves, calls) && EachPlaced(shelves[0].sp, root) && k <= |calls|
    ensures EachPlaced(shelves[k].sp, root)
  {
    hide Happened;
    if k > 0 {
      StaysPlaced(format, shelves, calls, root, k - 1);
      assert Happened(format, shelves[k - 1], shelves[k - 1 + 1], calls[k - 1]);
      CallPlaces(format, shelves[k - 1], shelves[k], calls[k - 1], root);
    }
  }

  lemma NoneVolatile(sp: Space, root: Node)
    requires EachPlaced(sp, root)
    ensures Volatile(sp, root) == {}
  {
    forall x | x in sp.kinds && x != root ensures x !in Volatile(sp, root) { assert HasEdge(sp, x); }
  }
}
