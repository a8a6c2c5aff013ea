/**
  Every call a client can make is one step of the runs in `Histories`: the
  operations of `Volume`, `Packer` and `Db`, put behind one interface.
 */
module Calls {
  import opened Wrappers
  import opened Flat
  import opened Sessions
  import opened Tables
  import opened Store
  import opened Placements
  import opened Resolution
  import opened Namespace
  import opened Volumes
  import opened Subtrees
  import opened Copying
  import opened Packing
  import opened Histories
  import Edits
  import Protocol
  import Streaming

  /** What a call leaves: nothing new when it is refused, else one step. */
  ghost predicate Answers(format: Format, sh: Shelf, sh': Shelf, c: Call, ok: bool) {
    if ok then Happened(format, sh, sh', c) else sh' == sh
  }

  lemma StepHappened(format: Format, sh: Shelf, sh': Shelf, s: Sessions, m: MountId, at: Node, rq: Request, n: Node,
                     id: EdgeId)
    requires Complete(sh) && Complete(sh') && sh.sp.IsContainer(at) && BytesStay(sh, sh', None)
    requires RefusalOf(sh.sp, s, m, at, rq).None? && Effect(sh.sp, sh'.sp, at, rq, n, id)
    ensures Happened(format, sh, sh', Call(s, m, at, Act.Ask(rq)))
  {
    hide RefusalOf, Effect, Complete, BytesStay;
    assert Step(sh.sp, sh'.sp, s, m, at, rq);
  }

  lemma SameBytes(sh: Shelf, sh': Shelf)
    requires sh'.t == sh.t && sh'.sp.kinds == sh.sp.kinds
    ensures BytesStay(sh, sh', None)
  {
  }

  lemma MoreBytes(sh: Shelf, sh': Shelf, n: Node)
    requires KeptBut(sh.t, sh'.t, n) && n !in sh.sp.kinds && sh.sp.kinds.Keys <= sh'.sp.kinds.Keys
    ensures BytesStay(sh, sh', None)
  {
    hide BytesOf;
  }

  /** The call of an act through a mount, as things stand. */
  ghost function Asked(v: Volume, m: MountId, act: Act): Call
    reads v, v.db
  {
    Call(v.db.sessions, m, if m in v.anchors then v.anchors[m] else 0, act)
  }

  // ---- Names and placements ----------------------------------------------------------------

  method Create(p: Packer, m: MountId, path: string, kind: Kind, data: bytes) returns (r: Result<Node, Error>)
    requires p.Valid()
    modifies p.v`lastId, p.v`infos, p.v`edges, p.v.db`kinds, p.v.db`tables
    ensures p.Valid() && (r.Success? ==> m in p.v.anchors)
    ensures Answers(p.table, old(ShelfOf(p.v)), ShelfOf(p.v), Asked(p.v, m, Act.Ask(Request.Create(path, kind))),
                    r.Success?)
    ensures match old(p.v.RefusalAt(m, Request.Create(path, kind)))
            case Some(error) => r == Failure(error)
            case None => r.Success?
    ensures r.Success? ==>
              && r.value !in old(p.v.db.kinds) && p.v.db.kinds == old(p.v.db.kinds)[r.value := kind]
              && exists id :: Effect(old(p.v.Now()), p.v.Now(), p.v.anchors[m], Request.Create(path, kind), r.value, id)
  {
    hide RefusalOf, Effect, Complete, BytesStay, KeptBut, Masked, SaneItems, BytesOf, Happened;
    var v := p.v;
    ghost var sh := ShelfOf(v);
    ValidIsComplete(v);
    r := v.Create(m, path, kind, data);
    if r.Success? {
      ValidIsComplete(v);
      var n := r.value;
      MaskedWith(sh.infos, n, v.infos[n]);
      ghost var id :| Effect(sh.sp, v.Now(), v.anchors[m], Request.Create(path, kind), n, id);
      CreatedKinds(sh.sp, v.Now(), v.anchors[m], path, kind, n, id);
      MoreBytes(sh, ShelfOf(v), n);
      StepHappened(p.table, sh, ShelfOf(v), v.db.sessions, m, v.anchors[m], Request.Create(path, kind), n, id);
    }
  }

  lemma CreatedKinds(sp: Space, sp': Space, at: Node, path: string, kind: Kind, n: Node, id: EdgeId)
    requires Effect(sp, sp', at, Request.Create(path, kind), n, id)
    ensures n !in sp.kinds && sp'.kinds == sp.kinds[n := kind]
  {
  }

  /** A request that touches no content has been answered. */
  ghost predicate Granted(sh: Shelf, sp: Space, c: Call, rq: Request) {
    && sh.sp.IsContainer(c.at) && RefusalOf(sh.sp, c.s, c.mount, c.at, rq).None?
    && exists id :: Effect(sh.sp, sp, c.at, rq, 0, id)
  }

  lemma GrantedHappened(format: Format, sh: Shelf, sh': Shelf, c: Call, rq: Request)
    requires c.act == Act.Ask(rq) && !rq.Create? && Complete(sh) && Complete(sh') && sh'.t == sh.t
    requires Granted(sh, sh'.sp, c, rq)
    ensures Happened(format, sh, sh', c)
  {
    hide RefusalOf, Effect, Complete, BytesStay, Happened;
    var id :| Effect(sh.sp, sh'.sp, c.at, rq, 0, id);
    EffectKinds(sh.sp, sh'.sp, c.at, rq, 0, id);
    SameBytes(sh, sh');
    StepHappened(format, sh, sh', c.s, c.mount, c.at, rq, 0, id);
  }

  method Rename(p: Packer, m: MountId, path: string, name: string) returns (r: Result<(), Error>)
    requires p.Valid()
    modifies p.v`infos, p.v`edges
    ensures p.Valid() && (r.Success? ==> m in p.v.anchors)
    ensures Answers(p.table, old(ShelfOf(p.v)), ShelfOf(p.v), Asked(p.v, m, Act.Ask(Request.Rename(path, name))),
                    r.Success?)
  {
    hide RefusalOf, Effect, Complete, Masked, SaneItems, Happened, PlacementsOf, Resolve;
    ghost var sh := ShelfOf(p.v);
    ValidIsComplete(p.v);
    r := p.v.Rename(m, path, name);
    if r.Success? {
      RenamedNode(sh.sp, p.v.Now(), p.v.anchors[m], path, name);
      RetitledMasked(sh.infos, Resolve(sh.sp, p.v.anchors[m], path).value, name, p.v.db.sessions.now);
      ValidIsComplete(p.v);
      GrantedHappened(p.table, sh, ShelfOf(p.v), Asked(p.v, m, Act.Ask(Request.Rename(path, name))),
                      Request.Rename(path, name));
    }
  }

  lemma RenamedNode(sp: Space, sp': Space, at: Node, path: string, name: string)
    requires Guarded(sp) && Effect(sp, sp', at, Request.Rename(path, name), 0, 0)
    ensures Resolve(sp, at, path).Success? && Resolve(sp, at, path).value in sp.kinds
  {
    ResolvedIsKnown(sp, at, path);
  }

  method Move(p: Packer, m: MountId, src: string, dst: string) returns (r: Result<(), Error>)
    requires p.Valid()
    modifies p.v`lastId, p.v`infos, p.v`edges
    ensures p.Valid() && (r.Success? ==> m in p.v.anchors)
    ensures Answers(p.table, old(ShelfOf(p.v)), ShelfOf(p.v), Asked(p.v, m, Act.Ask(Request.Move(src, dst))),
                    r.Success?)
  {
    hide RefusalOf, Effect, Complete, Masked, SaneItems, Happened, PlacementsOf, Resolve, ResolveParent;
    ghost var sh := ShelfOf(p.v);
    ValidIsComplete(p.v);
    r := p.v.Move(m, src, dst);
    if r.Success? {
      MovedNode(sh.sp, p.v.Now(), p.v.anchors[m], src, dst, p.v.lastId);
      RetitledMasked(sh.infos, Resolve(sh.sp, p.v.anchors[m], src).value,
                     ResolveParent(sh.sp, p.v.anchors[m], dst).value.name, p.v.db.sessions.now);
      ValidIsComplete(p.v);
      GrantedHappened(p.table, sh, ShelfOf(p.v), Asked(p.v, m, Act.Ask(Request.Move(src, dst))),
                      Request.Move(src, dst));
    }
  }

  lemma MovedNode(sp: Space, sp': Space, at: Node, src: string, dst: string, id: EdgeId)
    requires Guarded(sp) && Effect(sp, sp', at, Request.Move(src, dst), 0, id)
    ensures Resolve(sp, at, src).Success? && Resolve(sp, at, src).value in sp.kinds
    ensures ResolveParent(sp, at, dst).Success?
  {
    ResolvedIsKnown(sp, at, src);
  }

  method Link(p: Packer, m: MountId, src: string, dst: string) returns (r: Result<(), Error>)
    requires p.Valid()
    modifies p.v`lastId, p.v`edges
    ensures p.Valid() && (r.Success? ==> m in p.v.anchors)
    ensures Answers(p.table, old(ShelfOf(p.v)), ShelfOf(p.v), Asked(p.v, m, Act.Ask(Request.Link(src, dst))),
                    r.Success?)
  {
    hide RefusalOf, Effect, Complete, Masked, SaneItems, Happened;
    ghost var sh := ShelfOf(p.v);
    ValidIsComplete(p.v);
    r := p.v.Link(m, src, dst);
    if r.Success? {
      ValidIsComplete(p.v);
      GrantedHappened(p.table, sh, ShelfOf(p.v), Asked(p.v, m, Act.Ask(Request.Link(src, dst))),
                      Request.Link(src, dst));
    }
  }

  method Remove(p: Packer, m: MountId, path: string) returns (r: Result<(), Error>)
    requires p.Valid()
    modifies p.v`edges
    ensures p.Valid() && (r.Success? ==> m in p.v.anchors)
    ensures Answers(p.table, old(ShelfOf(p.v)), ShelfOf(p.v), Asked(p.v, m, Act.Ask(Request.Remove(path))), r.Success?)
  {
    hide RefusalOf, Effect, Complete, Masked, SaneItems, Happened;
    ghost var sh := ShelfOf(p.v);
    ValidIsComplete(p.v);
    r := p.v.Remove(m, path);
    if r.Success? {
      ValidIsComplete(p.v);
      GrantedHappened(p.table, sh, ShelfOf(p.v), Asked(p.v, m, Act.Ask(Request.Remove(path))), Request.Remove(path));
    }
  }

  method RemoveRecursive(p: Packer, m: MountId, path: string) returns (r: Result<(), Error>)
    requires p.Valid()
    modifies p.v`edges
    ensures p.Valid() && (r.Success? ==> m in p.v.anchors)
    ensures Answers(p.table, old(ShelfOf(p.v)), ShelfOf(p.v), Asked(p.v, m, Act.Ask(Request.RemoveRecursive(path))),
                    r.Success?)
  {
    hide RefusalOf, Effect, Complete, Masked, SaneItems, Happened;
    ghost var sh := ShelfOf(p.v);
    ValidIsComplete(p.v);
    r := p.v.RemoveRecursive(m, path);
    if r.Success? {
      ValidIsComplete(p.v);
      GrantedHappened(p.table, sh, ShelfOf(p.v), Asked(p.v, m, Act.Ask(Request.RemoveRecursive(path))),
                      Request.RemoveRecursive(path));
    }
  }

  lemma EffectKinds(sp: Space, sp': Space, at: Node, rq: Request, n: Node, id: EdgeId)
    requires Effect(sp, sp', at, rq, n, id) && !rq.Create?
    ensures sp'.kinds == sp.kinds
  {
    hide Resolve, ResolveParent, Members, Walked;
  }

  lemma RetitledMasked(infos: map<Node, Info>, n: Node, name: string, now: nat)
    requires Masked(infos) && n in infos
    ensures Masked(infos[n := Retitled(infos[n], name, now)])
  {
  }

  // ---- Subtrees ---------------------------------------------------------------------------------

  method Copy(p: Packer, m: MountId, src: string, dst: string) returns (r: Result<Node, Error>)
    requires p.Valid()
    modifies p.v`lastId, p.v`infos, p.v`edges, p.v.db`kinds, p.v.db`tables
    ensures p.Valid() && (r.Success? ==> m in p.v.anchors)
    ensures Answers(p.table, old(ShelfOf(p.v)), ShelfOf(p.v), Asked(p.v, m, Act.Copy(src, dst)), r.Success?)
  {
    hide Complete, Masked, SaneItems, CopyMade, CopyRefusal, Guarded, BytesOf, Extends;
    var v := p.v;
    ghost var sh := ShelfOf(v);
    ValidIsComplete(v);
    r := Copying.Copy(v, m, src, dst);
    ValidIsComplete(v);
  }

  method Pack(p: Packer, m: MountId, path: string) returns (r: Result<Node, Error>)
    requires p.Valid()
    modifies p`table, p.v`lastId, p.v`infos, p.v`edges, p.v.db`kinds, p.v.db`tables
    ensures p.Valid() && Extends(old(p.table), p.table) && (r.Success? ==> m in p.v.anchors)
    ensures Answers(p.table, old(ShelfOf(p.v)), ShelfOf(p.v), Asked(p.v, m, Act.Pack(path)), r.Success?)
  {
    hide Complete, Masked, SaneItems, PackMade, PackRefusal, Guarded, BytesOf;
    var v := p.v;
    ghost var sh := ShelfOf(v);
    ValidIsComplete(v);
    r := p.Pack(m, path);
    ValidIsComplete(v);
  }

  method Unpack(p: Packer, m: MountId, path: string) returns (r: Result<(), Error>)
    requires p.Valid()
    modifies p.v`lastId, p.v`infos, p.v`edges, p.v.db`kinds, p.v.db`tables
    ensures p.Valid() && (r.Success? ==> m in p.v.anchors)
    ensures Answers(p.table, old(ShelfOf(p.v)), ShelfOf(p.v), Asked(p.v, m, Act.Unpack(path)), r.Success?)
  {
    hide Complete, Masked, SaneItems, UnpackMade, HeldByOther, Guarded, BytesOf, Extends;
    var v := p.v;
    ghost var sh := ShelfOf(v);
    ValidIsComplete(v);
    ghost var e, root;
    r, e, root := p.Unpack(m, path);
    ValidIsComplete(v);
  }

  // ---- Content ---------------------------------------------------------------------------------------

  /** Any change of an entry's content by one of the engine's four operations. */
  method Edit(p: Packer, m: MountId, n: Node, e: Flat.Edit) returns (r: Result<(), Error>)
    requires p.Valid()
    modifies p.v.db`tables
    ensures p.Valid() && (r.Success? ==> n in p.v.db.kinds && p.v.db.Current(n) == Apply(old(p.v.db.Current(n)), e))
    ensures r.Success? && m in p.v.anchors && p.v.Now().IsContainer(p.v.anchors[m]) ==>
              Happened(p.table, old(ShelfOf(p.v)), ShelfOf(p.v), Asked(p.v, m, Act.Edit(n, p.v.db.Current(n))))
    ensures r.Failure? ==> ShelfOf(p.v) == old(ShelfOf(p.v))
  {
    hide Complete, Masked, SaneItems, BytesOf, Did, Overwrite, Resize;
    var v := p.v;
    ghost var sh := ShelfOf(v);
    ValidIsComplete(v);
    r := EditOnly(v, m, n, e);
    if r.Success? {
      ValidIsComplete(v);
      EditedShelf(v.db.chunkSize, sh, ShelfOf(v), n, e);
    }
  }

  method EditOnly(v: Volume, m: MountId, n: Node, e: Flat.Edit) returns (r: Result<(), Error>)
    requires v.Valid()
    modifies v.db`tables
    ensures v.Valid()
    ensures match Refusal(v.db.sessions, v.db.kinds, m, n, Protocol.ChecksLock(e))
            case None => r.Success?
            case Some(error) => r == Failure(error)
    ensures r.Success? ==> n in v.db.kinds && Did(v.db.chunkSize, old(v.db.tables), v.db.tables, n, e)
    ensures r.Success? ==>
              EditSteps(v.db.chunkSize, old(v.db.tables), v.db.tables, v.db.sessions, v.db.kinds, m, n, e)
    ensures r.Failure? ==> v.db.tables == old(v.db.tables)
  {
    hide Did, Sound, Guarded, Refusal, EditSteps, BytesOf;
    ghost var t := v.db.tables;
    RefusesUnknown(v.db.sessions, v.db.kinds, m, n, Protocol.ChecksLock(e));
    match e {
      case Replace(data) =>
        r := v.db.WriteAll(m, n, data);
        assert r.Success? ==> Did(v.db.chunkSize, t, v.db.tables, n, e);
      case Append(data) =>
        var size := v.db.Append(m, n, data);
        r := if size.Success? then Success(()) else Failure(size.error);
        assert r.Success? ==> Did(v.db.chunkSize, t, v.db.tables, n, e);
      case WriteAt(offset, data) =>
        var size := v.db.WriteRange(m, n, offset, data);
        r := if size.Success? then Success(()) else Failure(size.error);
        assert r.Success? ==> Did(v.db.chunkSize, t, v.db.tables, n, e);
      case SetSize(size) =>
        r := v.db.Truncate(m, n, size);
        assert r.Success? ==> Did(v.db.chunkSize, t, v.db.tables, n, e);
    }
    if r.Success? {
      EditedRows(v.db.chunkSize, t, v.db.tables, n, e);
      EditIsStep(v.db.chunkSize, t, v.db.tables, v.db.sessions, v.db.kinds, m, n, e);
    }
  }

  /** Whatever the open writers, from `t` to `t'` is a step of the protocol that edits `n`. */
  ghost predicate EditSteps(c: pos, t: Tables, t': Tables, s: Sessions, kinds: map<Node, Kind>, m: MountId, n: Node,
                            e: Flat.Edit) {
    forall w: Protocol.World | w.t == t && w.s == s && w.kinds == kinds ::
      Protocol.Step(c, w, w.(t := t'), Protocol.EditEntry(m, n, e))
  }

  lemma EditIsStep(c: pos, t: Tables, t': Tables, s: Sessions, kinds: map<Node, Kind>, m: MountId, n: Node,
                   e: Flat.Edit)
    requires Refusal(s, kinds, m, n, Protocol.ChecksLock(e)).None? && Did(c, t, t', n, e)
    ensures EditSteps(c, t, t', s, kinds, m, n, e)
  {
    hide Did, Refusal;
    forall w: Protocol.World | w.t == t && w.s == s && w.kinds == kinds
      ensures Protocol.Step(c, w, w.(t := t'), Protocol.EditEntry(m, n, e))
    {
      assert Protocol.ContentStep(c, w, w.(t := t'), Protocol.EditEntry(m, n, e));
    }
  }

  lemma RefusesUnknown(s: Sessions, kinds: map<Node, Kind>, m: MountId, n: Node, check: bool)
    ensures Refusal(s, kinds, m, n, check).None? ==> n in kinds
  {
  }

  /** An edit adds rows to its own entry only, and no entry. */
  lemma EditedRows(c: pos, t: Tables, t': Tables, n: Node, e: Flat.Edit)
    requires Did(c, t, t', n, e)
    ensures forall u: Ver | u.node != n :: t'.Rows(u) == t.Rows(u)
  {
    hide Sound, Holds, BytesOf;
  }

  lemma EditedShelf(c: pos, sh: Shelf, sh': Shelf, n: Node, e: Flat.Edit)
    requires Sound(c, sh.t) && Did(c, sh.t, sh'.t, n, e) && sh'.sp == sh.sp && n in sh.sp.kinds
    ensures BytesOf(sh'.t, n) == Apply(BytesOf(sh.t, n), e) && BytesStay(sh, sh', Some(n))
  {
    hide Sound, Did, BytesOf, Overwrite, Resize;
    Edits.OneEdit(c, sh.t, sh'.t, n, e);
  }

  // ---- Opening a path for writing ------------------------------------------------------------------

  /** A lock is on a node there is: the foreign key of the lock table. */
  ghost predicate LocksKnown(s: Sessions, kinds: map<Node, Kind>) {
    forall l | l in s.locks :: s.locks[l].node in kinds
  }

  /** A node just created is held by nobody, and a lock that is supplied is on another one. */
  function NewRefusal(s: Sessions, m: MountId, supplied: Option<LockId>): Option<Error> {
    if supplied.None? then None
    else if ValidLock(s, supplied.value) && s.locks[supplied.value].mount != m then Some(LockHeld)
    else Some(LockInvalid)
  }

  /** Why `open_write` of a path is refused: appending needs an entry there, truncating makes one. */
  function PathRefusal(sp: Space, s: Sessions, m: MountId, at: Node, path: string, mode: Streaming.WriteMode,
                       supplied: Option<LockId>)
    : Option<Error>
  {
    if MountRefusal(s, m).Some? then MountRefusal(s, m)
    else
      match Resolve(sp, at, path)
      case Success(n) => Streaming.OpenRefusal(s, sp.kinds, m, n, mode, supplied)
      case Failure(error) =>
        if error != NotFound || mode == Streaming.Appending then Some(error)
        else if ResolveParent(sp, at, path).Failure? then Some(ResolveParent(sp, at, path).error)
        else NewRefusal(s, m, supplied)
  }

  function RefusalHere(v: Volume, m: MountId, path: string, mode: Streaming.WriteMode, supplied: Option<LockId>)
    : Option<Error>
    reads v, v.db
  {
    if m in v.anchors then PathRefusal(v.Now(), v.db.sessions, m, v.anchors[m], path, mode, supplied)
    else Some(MountInvalid)
  }

  /** The descriptor writes `n`, from `text` on, under the supplied lock or a new one of its own. */
  ghost predicate Opens(d: Streaming.WriteDescriptor, db: Db, n: Node, text: bytes, supplied: Option<LockId>,
                        newLock: LockId)
    reads d, d.db
  {
    && d.db == db && d.Valid() && !d.closed && d.node == n && d.text == text && d.position == |text|
    && d.ownsLock == supplied.None? && d.lock == if supplied.Some? then supplied.value else newLock
  }

  /** The sessions with the lock an open takes. */
  function WithLock(s: Sessions, m: MountId, n: Node, supplied: Option<LockId>, newLock: LockId): Sessions {
    if supplied.Some? then s else Locked(s, newLock, Lock(m, n, None))
  }

  method OpenNode(p: Packer, m: MountId, n: Node, mode: Streaming.WriteMode, supplied: Option<LockId>, newLock: LockId)
    returns (r: Result<Streaming.WriteDescriptor, Error>)
    requires p.Valid() && n in p.v.db.kinds && LocksKnown(p.v.db.sessions, p.v.db.kinds)
    modifies p.v.db`kinds, p.v.db`tables, p.v.db`sessions
    ensures p.Valid() && LocksKnown(p.v.db.sessions, p.v.db.kinds) && ShelfOf(p.v) == old(ShelfOf(p.v))
    ensures match old(Streaming.OpenRefusal(p.v.db.sessions, p.v.db.kinds, m, n, mode, supplied))
            case Some(error) => r == Failure(error) && p.v.db.sessions == old(p.v.db.sessions)
            case None =>
              && r.Success? && fresh(r.value) && r.value.node == n
              && Opens(r.value, p.v.db, n, if mode == Streaming.Overwriting then [] else old(p.v.db.Current(n)),
                       supplied, newLock)
              && p.v.db.sessions == WithLock(old(p.v.db.sessions), m, n, supplied, newLock)
  {
    hide Masked, SaneItems, Guarded, BytesOf, Sound, Streaming.Represents, Streaming.OpenRefusal;
    ghost var s, sp := p.v.db.sessions, p.v.Now();
    r := Streaming.OpenWrite(p.v.db, m, n, mode, supplied, newLock);
    assert p.v.Now() == sp;
    assert p.v.db.sessions.mounts == s.mounts;
  }

  lemma NobodyHolds(s: Sessions, kinds: map<Node, Kind>, m: MountId, n: Node)
    requires LocksKnown(s, kinds) && n !in kinds && MountRefusal(s, m).None?
    ensures Streaming.OpenRefusal(s, kinds[n := Entry], m, n, Streaming.Overwriting, None).None?
  {
  }

  method OpenNew(p: Packer, m: MountId, path: string, supplied: Option<LockId>, newLock: LockId)
    returns (r: Result<Streaming.WriteDescriptor, Error>)
    requires p.Valid() && LocksKnown(p.v.db.sessions, p.v.db.kinds)
    requires MountRefusal(p.v.db.sessions, m).None? && m in p.v.anchors
    modifies p.v`lastId, p.v`infos, p.v`edges, p.v.db`kinds, p.v.db`tables, p.v.db`sessions
    ensures p.Valid() && LocksKnown(p.v.db.sessions, p.v.db.kinds)
    ensures var parent := old(ResolveParent(p.v.Now(), p.v.anchors[m], path));
            if parent.Failure? then r == Failure(parent.error)
            else if supplied.Some? then r == Failure(old(NewRefusal(p.v.db.sessions, m, supplied)).value)
            else r.Success?
    ensures r.Failure? ==> ShelfOf(p.v) == old(ShelfOf(p.v)) && p.v.db.sessions == old(p.v.db.sessions)
    ensures r.Success? ==>
              && fresh(r.value) && Opens(r.value, p.v.db, r.value.node, [], supplied, newLock)
              && p.v.db.sessions == WithLock(old(p.v.db.sessions), m, r.value.node, supplied, newLock)
              && NewEntry(p.table, old(ShelfOf(p.v)), ShelfOf(p.v),
                          old(Asked(p.v, m, Act.Ask(Request.Create(path, Entry)))), path, r.value.node)
  {
    hide Masked, SaneItems, Happened, Effect, RefusalOf, Guarded, Complete, Resolve, ResolveParent, Opens,
         Streaming.OpenRefusal, BytesOf;
    var parent := ResolveParent(p.v.Now(), p.v.anchors[m], path);
    if parent.Failure? {
      return Failure(parent.error);
    }
    if supplied.Some? {
      return Failure(NewRefusal(p.v.db.sessions, m, supplied).value);
    }
    NothingAgainst(p.v.Now(), p.v.db.sessions, m, p.v.anchors[m], path);
    var made := Create(p, m, path, Entry, []);
    NobodyHolds(p.v.db.sessions, old(p.v.db.kinds), m, made.value);
    r := OpenNode(p, m, made.value, Streaming.Overwriting, None, newLock);
  }

  /** The entry was created at the path, by a step of `Histories`, and placed there. */
  ghost predicate NewEntry(format: Format, sh: Shelf, sh': Shelf, c: Call, path: string, n: Node) {
    Happened(format, sh, sh', c) && exists id :: Effect(sh.sp, sh'.sp, c.at, Request.Create(path, Entry), n, id)
  }

  lemma NothingAgainst(sp: Space, s: Sessions, m: MountId, at: Node, path: string)
    requires MountRefusal(s, m).None? && ResolveParent(sp, at, path).Success?
    ensures RefusalOf(sp, s, m, at, Request.Create(path, Entry)).None?
  {
  }

  /**
    Open a path for writing. Where it shows an entry, that one is opened and
    nothing else changes; where it shows nothing, the entry is created first,
    unless appending. A refusal undoes that too.
   */
  method OpenWrite(p: Packer, m: MountId, path: string, mode: Streaming.WriteMode, supplied: Option<LockId>,
                   newLock: LockId)
    returns (r: Result<Streaming.WriteDescriptor, Error>)
    requires p.Valid() && LocksKnown(p.v.db.sessions, p.v.db.kinds)
    modifies p.v`lastId, p.v`infos, p.v`edges, p.v.db`kinds, p.v.db`tables, p.v.db`sessions
    ensures p.Valid() && LocksKnown(p.v.db.sessions, p.v.db.kinds)
    ensures match old(RefusalHere(p.v, m, path, mode, supplied))
            case Some(error) =>
              r == Failure(error) && ShelfOf(p.v) == old(ShelfOf(p.v)) && p.v.db.sessions == old(p.v.db.sessions)
            case None => r.Success? && fresh(r.value) && m in p.v.anchors
    ensures r.Success? ==> p.v.db.sessions == WithLock(old(p.v.db.sessions), m, r.value.node, supplied, newLock)
    ensures r.Success? ==>
              match old(Resolve(p.v.Now(), p.v.anchors[m], path))
              case Success(n) =>
                && ShelfOf(p.v) == old(ShelfOf(p.v)) && r.value.node == n
                && Opens(r.value, p.v.db, n, if mode == Streaming.Overwriting then [] else old(p.v.db.Current(n)),
                         supplied, newLock)
              case Failure(_) =>
                && Opens(r.value, p.v.db, r.value.node, [], supplied, newLock)
                && NewEntry(p.table, old(ShelfOf(p.v)), ShelfOf(p.v),
                            old(Asked(p.v, m, Act.Ask(Request.Create(path, Entry)))), path, r.value.node)
  {
    hide Masked, SaneItems, Guarded, Complete, Resolve, ResolveParent, Opens, Streaming.OpenRefusal, BytesOf, NewEntry,
         LocksKnown;
    if !ValidMount(p.v.db.sessions, m) {
      return Failure(MountInvalid);
    }
    if !p.v.db.sessions.mounts[m].writable {
      return Failure(ReadOnlyMount);
    }
    var found := Resolve(p.v.Now(), p.v.anchors[m], path);
    if found.Success? {
      ResolvedIsKnown(p.v.Now(), p.v.anchors[m], path);
      r := OpenNode(p, m, found.value, mode, supplied, newLock);
      return;
    }
    if found.error != NotFound || mode == Streaming.Appending {
      return Failure(found.error);
    }
    r := OpenNew(p, m, path, supplied, newLock);
  }
}
