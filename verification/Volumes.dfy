/**
  A volume: its nodes, their placements, and the operations that create, name
  and place them. Each method is one transaction; a refused one changes nothing.
 */
module Volumes {
  import opened Wrappers
  import opened Flat
  import opened Sessions
  import opened Tables
  import opened Store
  import opened Forest
  import opened Placements
  import opened Resolution
  import opened Namespace

  /** A node's own columns. `modified` is empty until something sets it, and then reads as `created`. */
  datatype Info = Info(
    name: string,
    created: nat,
    modified: Option<nat>,
    metadata: map<string, string>,
    uid: Option<nat>,
    gid: Option<nat>,
    mode: Option<nat>,
    xattrs: map<string, bytes>)

  /** Every stored mode has been masked to permission bits. */
  ghost predicate Masked(infos: map<Node, Info>) {
    forall n | n in infos :: infos[n].mode.Some? ==> infos[n].mode.value < 0x1000
  }

  lemma MaskedWith(infos: map<Node, Info>, n: Node, info: Info)
    requires Masked(infos) && (info.mode.Some? ==> info.mode.value < 0x1000)
    ensures Masked(infos[n := info])
  {
  }

  function NewInfo(name: string, now: nat): Info {
    Info(name, now, None, map[], None, None, None, map[])
  }

  function Modified(info: Info): nat {
    if info.modified.Some? then info.modified.value else info.created
  }

  /** The node's own name, which its placements default to, changes; the touch trigger follows. */
  function Retitled(info: Info, name: string, now: nat): Info {
    if info.name == name then info else info.(name := name, modified := Some(now))
  }

  /** A new node is made and last modified at the moment it is created, and has no other columns set. */
  lemma NewColumns(name: string, now: nat)
    ensures var i := NewInfo(name, now);
            && i.name == name && i.created == now && Modified(i) == now && i.metadata == map[]
            && i.uid == None && i.gid == None && i.mode == None && i.xattrs == map[]
  {
  }

  /** Renaming a node counts as modifying it; giving it the name it has does not. */
  lemma RetitledColumns(info: Info, name: string, now: nat)
    ensures var i := Retitled(info, name, now);
            && i.name == name && Modified(i) == (if name == info.name then Modified(info) else now)
            && i.created == info.created && i.metadata == info.metadata
            && i.uid == info.uid && i.gid == info.gid && i.mode == info.mode && i.xattrs == info.xattrs
  {
  }

  /** Where a new node's content comes from: given bytes, or another node's chunks by reference. */
  datatype Source = Given(data: bytes) | Shared(node: Node)

  /** No retention policy is set. */
  predicate Unkept(t: Tables, n: Node) {
    n in t.content ==> t.content[n].keep == None
  }

  /** A container's own name is the name it is placed by. */
  ghost predicate ContainersNamed(sp: Space, infos: map<Node, Info>) {
    forall e | sp.Active(e) && sp.IsContainer(sp.edges[e].child) && sp.edges[e].child in infos ::
      sp.edges[e].name == infos[sp.edges[e].child].name
  }

  lemma UnusedAfter(sp: Space, n: nat, kind: Kind)
    requires Unused(sp, n)
    ensures n !in sp.kinds && n !in sp.edges && forall id | Unused(Adding(sp, n, kind), id) :: Unused(sp, id) && id != n
  {
  }

  /** There is always an id left above any other. */
  lemma UnusedExists(sp: Space, last: nat)
    ensures exists id: nat :: id > last && Unused(sp, id)
  {
    var id := Max(last, Max(Largest(sp.kinds.Keys), Largest(sp.edges.Keys))) + 1;
    assert Unused(sp, id);
  }

  /** A node placed nowhere yet may have any name. */
  lemma AddingAgrees(sp: Space, infos: map<Node, Info>, n: Node, kind: Kind, info: Info)
    requires Guarded(sp) && n !in sp.kinds
    ensures ContainersNamed(sp, infos) ==> ContainersNamed(Adding(sp, n, kind), infos[n := info])
  {
  }

  lemma PlacingAgrees(sp: Space, infos: map<Node, Info>, id: EdgeId, parent: Node, child: Node, name: string)
    requires ContainersNamed(sp, infos) && id !in sp.edges
    ensures !sp.IsContainer(child) || (child in infos && name == infos[child].name) ==>
              ContainersNamed(Placing(sp, id, parent, child, name), infos)
  {
  }

  lemma {:induction false} OneElement(s: set<EdgeId>, e: EdgeId)
    requires e in s && forall f | f in s :: f == e
    ensures |s| == 1
  {
    assert s == {e};
  }

  lemma SolePlacement(sp: Space, e: EdgeId)
    requires SingleParent(sp) && sp.Active(e) && sp.IsContainer(sp.edges[e].child)
    ensures |PlacementsOf(sp, sp.edges[e].child)| == 1
  {
    OneElement(PlacementsOf(sp, sp.edges[e].child), e);
  }

  /** Renaming a container's placement renames the container. */
  lemma RenameAgrees(sp: Space, infos: map<Node, Info>, p: Parent, n: Node, name: string, now: nat)
    requires Guarded(sp) && ContainersNamed(sp, infos) && n in infos && Walked(sp, p, n) != {}
    ensures var sp' := Renaming(sp, Walked(sp, p, n), name);
            ContainersNamed(sp',
                            if |PlacementsOf(sp', n)| == 1 then infos[n := Retitled(infos[n], name, now)] else infos)
  {
    var sp' := Renaming(sp, Walked(sp, p, n), name);
    RenamingKeeps(sp, Walked(sp, p, n), name);
    if sp.IsContainer(n) {
      WalkedIsSole(sp, p, n);
      var e :| e in Walked(sp, p, n);
      SolePlacement(sp', e);
    }
  }

  /** A moved container takes the name it is moved to. */
  lemma MoveAgrees(sp: Space, infos: map<Node, Info>, p: Parent, n: Node, id: EdgeId, to: Node, name: string, now: nat)
    requires Guarded(sp) && ContainersNamed(sp, infos) && n in infos && Walked(sp, p, n) != {} && id !in sp.edges
    requires Guarded(Placing(Archiving(sp, Walked(sp, p, n)), id, to, n, name))
    ensures var sp' := Placing(Archiving(sp, Walked(sp, p, n)), id, to, n, name);
            ContainersNamed(sp',
                            if |PlacementsOf(sp', n)| == 1 then infos[n := Retitled(infos[n], name, now)] else infos)
  {
    var sp' := Placing(Archiving(sp, Walked(sp, p, n)), id, to, n, name);
    assert sp'.Active(id);
    if sp.IsContainer(n) {
      WalkedIsSole(sp, p, n);
      SolePlacement(sp', id);
    }
  }

  class Volume {
    const db: Db
    var infos: map<Node, Info>
    var edges: map<EdgeId, Edge>
    var anchors: map<MountId, Node>
    /** The last id this session minted. */
    var lastId: nat

    /** A new volume: a root container and nothing else. */
    constructor (db: Db)
      requires db.Valid() && db.kinds == map[] && db.tables.versions == map[] && db.sessions.mounts == map[]
      modifies db`kinds
      ensures this.db == db && Valid() && Rooted(Now(), 0) && NamesAgree() && Now() == Space(map[0 := Container], map[])
    {
      this.db := db;
      infos, edges, anchors, lastId := map[0 := NewInfo("/", db.sessions.now)], map[], map[], 0;
      new;
      db.AddContainer(0);
      assert Now().Tree() == map[];
    }

    function Now(): Space
      reads this, db
    {
      Space(db.kinds, edges)
    }

    ghost predicate Valid()
      reads this, db
    {
      && db.Valid() && Guarded(Now())
      && infos.Keys == db.kinds.Keys
      && NoStrayRows()
      && (forall m | m in db.sessions.mounts :: m in anchors && Now().IsContainer(anchors[m]))
    }

    /** Only known nodes have chunk rows. */
    ghost predicate NoStrayRows()
      reads db
    {
      forall u: Ver | u.node !in db.kinds :: db.tables.Rows(u) == map[]
    }

    ghost predicate NamesAgree()
      reads this, db
    {
      ContainersNamed(Now(), infos)
    }

    /** Why a request through `m` is refused, if it is. */
    function RefusalAt(m: MountId, rq: Request): Option<Error>
      reads this, db
    {
      if ValidMount(db.sessions, m) && m in anchors then RefusalOf(Now(), db.sessions, m, anchors[m], rq)
      else Some(MountInvalid)
    }

    /** An id above every one this session has minted, and used by no session. */
    method Mint() returns (id: nat)
      requires Valid()
      modifies `lastId
      ensures Valid() && Unused(Now(), id) && old(lastId) < id == lastId
    {
      UnusedExists(Now(), lastId);
      id :| id > lastId && Unused(Now(), id);
      lastId := id;
    }

    /** Place a node, under its own name unless another is given. */
    method Place(parent: Node, child: Node, name: Option<string>) returns (id: EdgeId)
      requires Valid() && Now().IsContainer(parent) && child in db.kinds && child != parent
      requires Now().IsContainer(child) ==> !Now().Placed(child)
      modifies `lastId, `edges
      ensures Valid() && Unused(old(Now()), id) && old(lastId) < id == lastId
      ensures Now() == Placing(old(Now()), id, parent, child, if name.Some? then name.value else infos[child].name)
      ensures old(NamesAgree()) && (name.None? || !Now().IsContainer(child)) ==> NamesAgree()
    {
      hide SingleParent, Guarded, Space.Tree, Space.Placed, ContainersNamed, db.Valid, NoStrayRows;
      id := Mint();
      var title := if name.Some? then name.value else infos[child].name;
      PlacingKeeps(Now(), id, parent, child, title);
      if NamesAgree() { PlacingAgrees(Now(), infos, id, parent, child, title); }
      edges := edges[id := Edge(parent, child, title, false)];
    }

    method NewNode(kind: Kind, info: Info, from: Source) returns (n: Node)
      requires Valid() && (kind != Container && from.Shared? ==> from.node in db.tables.content)
      modifies `lastId, `infos, db`kinds, db`tables
      ensures Valid() && Unused(old(Now()), n) && old(lastId) < n == lastId
      ensures Now() == Adding(old(Now()), n, kind) && infos == old(infos)[n := info] && !Now().Placed(n)
      ensures old(NamesAgree()) ==> NamesAgree()
      ensures kind != Container ==> db.Current(n) == old(SourceBytes(from))
      ensures KeptBut(old(db.tables), db.tables, n) && Unkept(db.tables, n)
    {
      hide SingleParent, Guarded, Space.Tree, db.Valid, NoStrayRows, db.Current, ContainersNamed, Space.Placed, Unused,
           KeptBut, SourceBytes;
      n := Mint();
      assert Now() == old(Now());
      UnusedAfter(Now(), n, kind);
      AddingKeeps(Now(), n, kind);
      AddingAgrees(Now(), infos, n, kind, info);
      InsertRow(n, kind, from);
      infos := infos[n := info];
      assert Now() == Adding(old(Now()), n, kind);
    }

    /** The bytes a new node starts with. */
    ghost function SourceBytes(from: Source): bytes
      reads db
    {
      match from
      case Given(data) => data
      case Shared(o) => db.Current(o)
    }

    method InsertRow(n: Node, kind: Kind, from: Source)
      requires db.Valid() && n !in db.kinds && NoStrayRows()
      requires kind != Container && from.Shared? ==> from.node in db.tables.content
      modifies db`kinds, db`tables
      ensures db.Valid() && NoStrayRows() && db.kinds == old(db.kinds)[n := kind]
      ensures kind != Container ==> db.Current(n) == old(SourceBytes(from))
      ensures KeptBut(old(db.tables), db.tables, n) && Unkept(db.tables, n)
    {
      if kind == Container {
        db.AddContainer(n);
      } else if from.Given? {
        db.PutInitialContent(n, kind, from.data);
        BornKeepsOthers(db.chunkSize, old(db.tables), db.tables, n, from.data);
      } else {
        db.CopyContent(from.node, n, kind);
        BornKeepsOthers(db.chunkSize, old(db.tables), db.tables, n, old(db.Current(from.node)));
      }
    }

    /** Detach the placements of `node` that the path walked. They stay in the table, archived. */
    method Archive(gone: set<EdgeId>)
      requires Valid()
      modifies `edges
      ensures Valid() && Now() == Archiving(old(Now()), gone)
      ensures old(NamesAgree()) ==> NamesAgree()
    {
      ArchivingKeeps(Now(), gone);
      edges := Archiving(Now(), gone).edges;
    }

    method RenameIfSole(n: Node, name: string)
      requires Valid() && n in infos
      modifies `infos
      ensures Valid()
      ensures infos == if |PlacementsOf(Now(), n)| == 1
                       then old(infos)[n := Retitled(old(infos)[n], name, db.sessions.now)]
                       else old(infos)
    {
      if |PlacementsOf(Now(), n)| == 1 {
        infos := infos[n := Retitled(infos[n], name, db.sessions.now)];
      }
    }

    // ---- Creating -------------------------------------------------------------------

    method Create(m: MountId, path: string, kind: Kind, data: bytes) returns (r: Result<Node, Error>)
      requires Valid()
      modifies `lastId, `infos, `edges, db`kinds, db`tables
      ensures Valid() && (old(NamesAgree()) ==> NamesAgree())
      ensures r.Failure? ==>
                && old(RefusalAt(m, Namespace.Create(path, kind))) == Some(r.error)
                && Now() == old(Now()) && infos == old(infos) && db.tables == old(db.tables)
      ensures r.Success? ==>
                && old(RefusalAt(m, Namespace.Create(path, kind))).None?
                && (exists id :: Effect(old(Now()), Now(), anchors[m], Namespace.Create(path, kind), r.value, id))
                && infos == old(infos)[r.value := NewInfo(ResolveParent(old(Now()), anchors[m], path).value.name,
                                                          db.sessions.now)]
                && (kind != Container ==> db.Current(r.value) == data)
                && KeptBut(old(db.tables), db.tables, r.value)
    {
      hide ResolveParent, Space.Tree, SingleParent, Guarded, Unused, db.Valid, ContainersNamed;
      if !ValidMount(db.sessions, m) {
        return Failure(MountInvalid);
      }
      if !db.sessions.mounts[m].writable {
        return Failure(ReadOnlyMount);
      }
      var parent := ResolveParent(Now(), anchors[m], path);
      if parent.Failure? {
        return Failure(parent.error);
      }
      ParentIsConfined(Now(), anchors[m], path);
      var n, id := CreateIn(parent.value, kind, data);
      assert Effect(old(Now()), Now(), anchors[m], Namespace.Create(path, kind), n, id);
      r := Success(n);
    }

    method CreateIn(p: Parent, kind: Kind, data: bytes) returns (n: Node, id: EdgeId)
      requires Valid() && Now().IsContainer(p.container)
      modifies `lastId, `infos, `edges, db`kinds, db`tables
      ensures Valid() && (old(NamesAgree()) ==> NamesAgree())
      ensures Unused(old(Now()), n) && Unused(old(Now()), id) && old(lastId) < n < id == lastId
      ensures Now() == Placing(Adding(old(Now()), n, kind), id, p.container, n, p.name)
      ensures infos == old(infos)[n := NewInfo(p.name, db.sessions.now)]
      ensures kind != Container ==> db.Current(n) == data
      ensures KeptBut(old(db.tables), db.tables, n)
    {
      hide SingleParent, Guarded, Space.Tree, db.Valid, ContainersNamed, KeptBut, db.Current;
      n := NewNode(kind, NewInfo(p.name, db.sessions.now), Given(data));
      id := Place(p.container, n, None);
    }

    method CreateSpecial(m: MountId, path: string, kind: Kind, data: bytes) returns (r: Result<Node, Error>)
      requires Valid()
      modifies `lastId, `infos, `edges, db`kinds, db`tables
      ensures Valid() && (old(NamesAgree()) ==> NamesAgree())
      ensures kind in {Container, Entry} ==> r == Failure(Unsupported)
      ensures kind !in {Container, Entry} ==> r.Success? == old(RefusalAt(m, Namespace.Create(path, kind))).None?
      ensures r.Failure? ==> Now() == old(Now()) && infos == old(infos) && db.tables == old(db.tables)
      ensures r.Success? ==>
                && (exists id :: Effect(old(Now()), Now(), anchors[m], Namespace.Create(path, kind), r.value, id))
                && db.Current(r.value) == data && KeptBut(old(db.tables), db.tables, r.value)
    {
      if kind == Container || kind == Entry {
        return Failure(Unsupported);
      }
      hide RefusalOf, Effect, SingleParent, Guarded, Space.Tree;
      r := Create(m, path, kind, data);
    }

    // ---- Naming and placing -------------------------------------------------------------

    /** Rename the placement the path walks; the node's own name follows while it has no other. */
    method Rename(m: MountId, path: string, name: string) returns (r: Result<(), Error>)
      requires Valid()
      modifies `infos, `edges
      ensures Valid() && (old(NamesAgree()) ==> NamesAgree())
      ensures r.Failure? ==>
                && old(RefusalAt(m, Namespace.Rename(path, name))) == Some(r.error)
                && Now() == old(Now()) && infos == old(infos)
      ensures r.Success? ==>
                && old(RefusalAt(m, Namespace.Rename(path, name))).None?
                && Effect(old(Now()), Now(), anchors[m], Namespace.Rename(path, name), 0, 0)
                && var n := Resolve(old(Now()), anchors[m], path).value;
                   infos == if |PlacementsOf(Now(), n)| == 1
                            then old(infos)[n := Retitled(old(infos[n]), name, db.sessions.now)]
                            else old(infos)
    {
      if !ValidMount(db.sessions, m) {
        return Failure(MountInvalid);
      }
      if !db.sessions.mounts[m].writable {
        return Failure(ReadOnlyMount);
      }
      if name == "" {
        return Failure(Nameless);
      }
      var sp := Now();
      var parent := ResolveParent(sp, anchors[m], path);
      if parent.Failure? {
        return Failure(parent.error);
      }
      var found := Resolve(sp, anchors[m], path);
      if found.Failure? {
        return Failure(found.error);
      }
      if HeldByOther(db.sessions, found.value, m) {
        return Failure(LockHeld);
      }
      WalkedExists(sp, anchors[m], path);
      ResolvedIsKnown(sp, anchors[m], path);
      hide Resolve, ResolveParent, SingleParent, Guarded, Space.Tree, HeldByOther, Walked, ContainersNamed, db.Valid;
      RenamePlacement(parent.value, found.value, name);
      r := Success(());
    }

    method RenamePlacement(p: Parent, n: Node, name: string)
      requires Valid() && n in infos && Walked(Now(), p, n) != {}
      modifies `infos, `edges
      ensures Valid() && (old(NamesAgree()) ==> NamesAgree())
      ensures Now() == Renaming(old(Now()), Walked(old(Now()), p, n), name)
      ensures infos == if |PlacementsOf(Now(), n)| == 1
                       then old(infos)[n := Retitled(old(infos[n]), name, db.sessions.now)]
                       else old(infos)
    {
      ghost var sp := Now();
      var which := Walked(Now(), p, n);
      hide SingleParent, Guarded, Space.Tree, db.Valid, Walked, ContainersNamed;
      RenamingKeeps(sp, which, name);
      edges := Renaming(Now(), which, name).edges;
      assert Now() == Renaming(sp, which, name);
      if ContainersNamed(sp, infos) { RenameAgrees(sp, infos, p, n, name, db.sessions.now); }
      RenameIfSole(n, name);
    }

    /** Place a leaf a second time, under another path. */
    method Link(m: MountId, src: string, dst: string) returns (r: Result<(), Error>)
      requires Valid()
      modifies `lastId, `edges
      ensures Valid() && (old(NamesAgree()) ==> NamesAgree())
      ensures r.Failure? ==> old(RefusalAt(m, Namespace.Link(src, dst))) == Some(r.error) && Now() == old(Now())
      ensures r.Success? ==>
                && old(RefusalAt(m, Namespace.Link(src, dst))).None?
                && Effect(old(Now()), Now(), anchors[m], Namespace.Link(src, dst), 0, lastId)
    {
      hide SingleParent, Guarded, Space.Tree, ContainersNamed, db.Valid, NoStrayRows, Unused;
      if !ValidMount(db.sessions, m) {
        return Failure(MountInvalid);
      }
      if !db.sessions.mounts[m].writable {
        return Failure(ReadOnlyMount);
      }
      var sp := Now();
      var found := Resolve(sp, anchors[m], src);
      if found.Failure? {
        return Failure(found.error);
      }
      var node := found.value;
      if sp.IsContainer(node) {
        return Failure(NotAnEntry);
      }
      if HeldByOther(db.sessions, node, m) {
        return Failure(LockHeld);
      }
      var parent := ResolveParent(sp, anchors[m], dst);
      if parent.Failure? {
        return Failure(parent.error);
      }
      if Child(sp, parent.value.container, parent.value.name).Some? {
        return Failure(AlreadyExists);
      }
      ResolvedIsKnown(sp, anchors[m], src);
      ParentIsConfined(sp, anchors[m], dst);
      hide Resolve, ResolveParent, SingleParent, Guarded, Space.Tree, HeldByOther, Child, ContainersNamed, db.Valid;
      var override := if infos[node].name != parent.value.name then Some(parent.value.name) else None;
      var id := Place(parent.value.container, node, override);
      r := Success(());
    }

    /** Archive the placement `src` walks and place the node at `dst`. */
    method Move(m: MountId, src: string, dst: string) returns (r: Result<(), Error>)
      requires Valid()
      modifies `lastId, `infos, `edges
      ensures Valid() && (old(NamesAgree()) ==> NamesAgree())
      ensures r.Failure? ==>
                && old(RefusalAt(m, Namespace.Move(src, dst))) == Some(r.error)
                && Now() == old(Now()) && infos == old(infos)
      ensures r.Success? ==>
                && old(RefusalAt(m, Namespace.Move(src, dst))).None?
                && Effect(old(Now()), Now(), anchors[m], Namespace.Move(src, dst), 0, lastId)
                && var n := Resolve(old(Now()), anchors[m], src).value;
                   var name := ResolveParent(old(Now()), anchors[m], dst).value.name;
                   infos == if |PlacementsOf(Now(), n)| == 1
                            then old(infos)[n := Retitled(old(infos[n]), name, db.sessions.now)]
                            else old(infos)
    {
      hide Resolve, ResolveParent, Guarded, Space.Tree, HeldByOther, Ancestors, Walked, ContainersNamed, db.Valid,
           NoStrayRows;
      if !ValidMount(db.sessions, m) {
        return Failure(MountInvalid);
      }
      if !db.sessions.mounts[m].writable {
        return Failure(ReadOnlyMount);
      }
      var sp := Now();
      var found := Resolve(sp, anchors[m], src);
      if found.Failure? {
        return Failure(found.error);
      }
      var node := found.value;
      if HeldByOther(db.sessions, node, m) {
        return Failure(LockHeld);
      }
      var from, to := ResolveParent(sp, anchors[m], src), ResolveParent(sp, anchors[m], dst);
      if from.Failure? {
        return Failure(from.error);
      }
      if to.Failure? {
        return Failure(to.error);
      }
      var parent, name := to.value.container, to.value.name;
      if sp.IsContainer(node) && node in Ancestors(sp, parent, DEPTH_BOUND) {
        return Failure(WouldCycle);
      }
      MoveReady(sp, anchors[m], src, dst);
      Relocate(node, from.value, parent, name);
      r := Success(());
    }

    method Relocate(node: Node, from: Parent, parent: Node, name: string)
      requires Valid() && node in infos && Walked(Now(), from, node) != {} && Now().IsContainer(parent)
      requires node != parent
      requires Now().IsContainer(node) ==> !Archiving(Now(), Walked(Now(), from, node)).Placed(node)
      modifies `lastId, `infos, `edges
      ensures Valid() && (old(NamesAgree()) ==> NamesAgree())
      ensures Now() == Placing(Archiving(old(Now()), Walked(old(Now()), from, node)), lastId, parent, node, name)
      ensures Unused(old(Now()), lastId)
      ensures infos == if |PlacementsOf(Now(), node)| == 1
                       then old(infos)[node := Retitled(old(infos[node]), name, db.sessions.now)]
                       else old(infos)
    {
      ghost var sp := Now();
      hide SingleParent, Guarded, Space.Tree, db.Valid, Walked, ContainersNamed;
      Archive(Walked(Now(), from, node));
      ghost var mid := Now();
      var renamed := infos[node].name != name;
      var id := Place(parent, node, if renamed then Some(name) else None);
      assert Now() == Placing(mid, id, parent, node, name);
      if ContainersNamed(sp, infos) { MoveAgrees(sp, infos, from, node, id, parent, name, db.sessions.now); }
      if renamed {
        RenameIfSole(node, name);
      } else {
        assert infos[node := Retitled(infos[node], name, db.sessions.now)] == infos;
      }
    }

    // ---- Removing ------------------------------------------------------------------------

    /** Detach a leaf or an empty container from the place the path walked. */
    method Remove(m: MountId, path: string) returns (r: Result<(), Error>)
      requires Valid()
      modifies `edges
      ensures Valid() && (old(NamesAgree()) ==> NamesAgree())
      ensures r.Failure? ==> old(RefusalAt(m, Namespace.Remove(path))) == Some(r.error) && Now() == old(Now())
      ensures r.Success? ==>
                && old(RefusalAt(m, Namespace.Remove(path))).None?
                && Effect(old(Now()), Now(), anchors[m], Namespace.Remove(path), 0, 0)
    {
      if !ValidMount(db.sessions, m) {
        return Failure(MountInvalid);
      }
      if !db.sessions.mounts[m].writable {
        return Failure(ReadOnlyMount);
      }
      var sp := Now();
      var found := Resolve(sp, anchors[m], path);
      if found.Failure? {
        return Failure(found.error);
      }
      if HeldByOther(db.sessions, found.value, m) {
        return Failure(LockHeld);
      }
      if sp.IsContainer(found.value) && HasChildren(sp, found.value) {
        return Failure(NotEmpty);
      }
      var parent := ResolveParent(sp, anchors[m], path);
      if parent.Failure? {
        return Failure(parent.error);
      }
      hide Resolve, ResolveParent, SingleParent, Guarded, Space.Tree, HeldByOther, ContainersNamed, db.Valid;
      Archive(Walked(sp, parent.value, found.value));
      r := Success(());
    }

    /** Archive every placement of every node the subtree view shows. */
    method RemoveRecursive(m: MountId, path: string) returns (r: Result<(), Error>)
      requires Valid()
      modifies `edges
      ensures Valid() && (old(NamesAgree()) ==> NamesAgree())
      ensures r.Failure? ==> old(RefusalAt(m, Namespace.RemoveRecursive(path))) == Some(r.error) && Now() == old(Now())
      ensures r.Success? ==>
                && old(RefusalAt(m, Namespace.RemoveRecursive(path))).None?
                && Effect(old(Now()), Now(), anchors[m], Namespace.RemoveRecursive(path), 0, 0)
    {
      if !ValidMount(db.sessions, m) {
        return Failure(MountInvalid);
      }
      if !db.sessions.mounts[m].writable {
        return Failure(ReadOnlyMount);
      }
      var sp := Now();
      var found := Resolve(sp, anchors[m], path);
      if found.Failure? {
        return Failure(found.error);
      }
      if AnyHeldByOther(db.sessions, Members(sp, found.value), m) {
        return Failure(LockHeld);
      }
      hide Resolve, SingleParent, Guarded, Space.Tree, HeldByOther, Nodes, ContainersNamed, db.Valid;
      Archive(IncomingOf(sp, Members(sp, found.value)));
      r := Success(());
    }
  }

  /** What a move needs before it changes anything. */
  lemma MoveReady(sp: Space, at: Node, src: string, dst: string)
    requires Guarded(sp) && sp.IsContainer(at)
    requires Resolve(sp, at, src).Success? && ResolveParent(sp, at, src).Success? && ResolveParent(sp, at, dst).Success?
    requires Unlooped(sp, Resolve(sp, at, src).value, ResolveParent(sp, at, dst).value.container)
    ensures var node, from := Resolve(sp, at, src).value, ResolveParent(sp, at, src).value;
            var to := ResolveParent(sp, at, dst).value.container;
            var mid := Archiving(sp, Walked(sp, from, node));
            && Walked(sp, from, node) != {} && node in sp.kinds && sp.IsContainer(to) && node != to
            && (sp.IsContainer(node) ==> !mid.Placed(node))
  {
    WalkedExists(sp, at, src);
    ResolvedIsKnown(sp, at, src);
    ParentIsConfined(sp, at, dst);
    var node, from := Resolve(sp, at, src).value, ResolveParent(sp, at, src).value;
    NotMovedIntoItself(sp, node, ResolveParent(sp, at, dst).value.container);
    if sp.IsContainer(node) { Detached(sp, from, node); }
  }
}
