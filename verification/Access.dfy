/**
  Who may do what, and what each refusal says, in terms of the rows of the mount,
  lock and placement tables. Nothing changes through a mount that is not there,
  has run out, or is read-only.
 */
module Access {
  import opened Wrappers
  import opened Flat
  import opened Sessions
  import opened Tables
  import opened Store
  import opened Forest
  import opened Placements
  import opened Paths
  import opened Resolution
  import opened Namespace
  import opened Subtrees
  import opened Copying
  import opened Packing
  import opened Histories
  import opened Collector
  import opened Streaming
  import opened Protocol
  import Locking
  import Calls

  /** A time that has come. */
  predicate Past(expires: Option<nat>, now: nat) {
    match expires
    case None => false
    case Some(t) => t <= now
  }

  /** The mount's row is there, not marked unmounted, and its time has not come. */
  predicate Live(s: Sessions, m: MountId) {
    m in s.mounts && s.mounts[m].unmounted == false && !Past(s.mounts[m].expires, s.now)
  }

  predicate MayWrite(s: Sessions, m: MountId) {
    Live(s, m) && s.mounts[m].writable
  }

  /** The lock's row is there, its time has not come, and its mount is live. */
  predicate Stands(s: Sessions, l: LockId) {
    l in s.locks && !Past(s.locks[l].expires, s.now) && Live(s, s.locks[l].mount)
  }

  /** Some standing lock on the node is another mount's. */
  ghost predicate Barred(s: Sessions, n: Node, m: MountId) {
    exists l :: Stands(s, l) && s.locks[l].node == n && s.locks[l].mount != m
  }

  /** Some placement in the parent that is not archived bears the name. */
  ghost predicate NameTaken(sp: Space, p: Parent) {
    exists e ::
      e in sp.edges && !sp.edges[e].archived && sp.edges[e].parent == p.container && sp.edges[e].name == p.name
  }

  lemma BarredIsHeld(s: Sessions, n: Node, m: MountId)
    ensures Barred(s, n, m) <==> HeldByOther(s, n, m)
  {
    if l :| Stands(s, l) && s.locks[l].node == n && s.locks[l].mount != m { assert ValidLock(s, l); }
    if l :| l in s.locks && s.locks[l].node == n && s.locks[l].mount != m && ValidLock(s, l) { assert Stands(s, l); }
  }

  lemma TakenIsShown(sp: Space, p: Parent)
    ensures NameTaken(sp, p) <==> Child(sp, p.container, p.name).Some?
  {
    if e :| e in sp.edges && !sp.edges[e].archived && sp.edges[e].parent == p.container && sp.edges[e].name == p.name {
      assert e in Named(sp, p.container, p.name);
      assert sp.edges[e].child in ChildrenNamed(sp, p.container, p.name);
    }
    if Child(sp, p.container, p.name).Some? { ChildIsPlaced(sp, p.container, p.name); }
  }

  // ---- What the answers say ------------------------------------------------------------------

  /** A write of an entry: each answer, and when it is given. */
  lemma WriteAnswers(s: Sessions, kinds: map<Node, Kind>, m: MountId, n: Node, check: bool)
    ensures match Refusal(s, kinds, m, n, check)
            case Some(MountInvalid) => !Live(s, m)
            case Some(ReadOnlyMount) => Live(s, m) && !s.mounts[m].writable
            case Some(NotFound) => MayWrite(s, m) && n !in kinds
            case Some(NotAnEntry) => MayWrite(s, m) && n in kinds && kinds[n] == Container
            case Some(LockHeld) =>
              MayWrite(s, m) && n in kinds && kinds[n] != Container && check && Barred(s, n, m)
            case Some(_) => false
            case None => MayWrite(s, m) && n in kinds && kinds[n] != Container && (check ==> !Barred(s, n, m))
  {
    BarredIsHeld(s, n, m);
  }

  /** Opening a node for writing. A lock that is supplied has to stand, be the mount's own, and be on that node. */
  lemma OpenAnswers(s: Sessions, kinds: map<Node, Kind>, m: MountId, n: Node, mode: WriteMode, supplied: Option<LockId>)
    ensures var fits := MayWrite(s, m) && (mode.Appending? ==> n in kinds) && (n in kinds ==> kinds[n] != Container);
            match OpenRefusal(s, kinds, m, n, mode, supplied)
            case Some(MountInvalid) => !Live(s, m)
            case Some(ReadOnlyMount) => Live(s, m) && !s.mounts[m].writable
            case Some(NotFound) => MayWrite(s, m) && n !in kinds && mode.Appending?
            case Some(NotAnEntry) => MayWrite(s, m) && n in kinds && kinds[n] == Container
            case Some(LockInvalid) =>
              && fits && supplied.Some?
              && (!Stands(s, supplied.value)
                  || (s.locks[supplied.value].mount == m && s.locks[supplied.value].node != n))
            case Some(LockHeld) =>
              && fits
              && if supplied.Some? then Stands(s, supplied.value) && s.locks[supplied.value].mount != m
                 else Barred(s, n, m)
            case Some(_) => false
            case None =>
              && fits
              && if supplied.Some? then Stands(s, supplied.value) && s.locks[supplied.value] == Lock(m, n,
                                                                             s.locks[supplied.value].expires)
                 else !Barred(s, n, m)
  {
    BarredIsHeld(s, n, m);
  }

  /** Every request asks first whether the mount may write. */
  lemma GateFirst(sp: Space, s: Sessions, m: MountId, at: Node, rq: Request)
    ensures !Live(s, m) ==> RefusalOf(sp, s, m, at, rq) == Some(MountInvalid)
    ensures Live(s, m) && !s.mounts[m].writable ==> RefusalOf(sp, s, m, at, rq) == Some(ReadOnlyMount)
  {
  }

  /** A path that does not resolve is missing, or goes through something that is no container. */
  lemma ResolveErrors(sp: Space, at: Node, path: string)
    ensures Resolve(sp, at, path).Failure? ==> Resolve(sp, at, path).error in {NotFound, NotAContainer}
    ensures ResolveParent(sp, at, path).Failure? ==> ResolveParent(sp, at, path).error in {NotFound, NotAContainer}
  {
    var segments := SplitPath(path);
    if segments != [] {
      WalkErrors(sp, at, segments);
      if |segments| > 1 { WalkErrors(sp, at, segments[..|segments| - 1]); }
    }
  }

  lemma {:induction false} WalkErrors(sp: Space, at: Node, segments: seq<string>)
    requires segments != []
    ensures Walk(sp, at, segments).Failure? ==> Walk(sp, at, segments).error in {NotFound, NotAContainer}
    decreases |segments|
  {
    if |segments| > 1 && Child(sp, at, segments[0]).Some? {
      WalkErrors(sp, Child(sp, at, segments[0]).value, segments[1..]);
    }
  }

  lemma CreateAnswers(sp: Space, s: Sessions, m: MountId, at: Node, path: string, kind: Kind)
    requires MayWrite(s, m)
    ensures var r, parent := RefusalOf(sp, s, m, at, Request.Create(path, kind)), ResolveParent(sp, at, path);
            && (r.None? <==> parent.Success?)
            && (parent.Failure? ==> r == Some(parent.error))
  {
  }

  lemma RenameAnswers(sp: Space, s: Sessions, m: MountId, at: Node, path: string, name: string)
    requires MayWrite(s, m)
    ensures var r := RefusalOf(sp, s, m, at, Rename(path, name));
            var parent, found := ResolveParent(sp, at, path), Resolve(sp, at, path);
            && (r.None? <==> name != "" && parent.Success? && found.Success? && !Barred(s, found.value, m))
            && (r == Some(Nameless) <==> name == "")
            && (r == Some(LockHeld)
                <==> name != "" && parent.Success? && found.Success? && Barred(s, found.value, m))
            && (name != "" && parent.Failure? ==> r == Some(parent.error))
            && (name != "" && parent.Success? && found.Failure? ==> r == Some(found.error))
  {
    hide Resolve, ResolveParent, HeldByOther, Barred;
    ResolveErrors(sp, at, path);
    if Resolve(sp, at, path).Success? { BarredIsHeld(s, Resolve(sp, at, path).value, m); }
  }

  /** A link is made exactly of a leaf no other mount holds, to a name nothing in a known parent bears. */
  lemma LinkAnswers(sp: Space, s: Sessions, m: MountId, at: Node, src: string, dst: string)
    requires MayWrite(s, m)
    ensures var r := RefusalOf(sp, s, m, at, Link(src, dst));
            var found, to := Resolve(sp, at, src), ResolveParent(sp, at, dst);
            && (found.Failure? ==> r == Some(found.error))
            && (found.Success? ==>
                  var leaf, free := !sp.IsContainer(found.value), !Barred(s, found.value, m);
                  && (r.None? <==> leaf && free && to.Success? && !NameTaken(sp, to.value))
                  && (r == Some(NotAnEntry) <==> !leaf)
                  && (r == Some(LockHeld) <==> leaf && !free)
                  && (r == Some(AlreadyExists) <==> leaf && free && to.Success? && NameTaken(sp, to.value))
                  && (leaf && free && to.Failure? ==> r == Some(to.error)))
  {
    hide Resolve, ResolveParent, HeldByOther, Barred, NameTaken, Child;
    ResolveErrors(sp, at, dst);
    if Resolve(sp, at, src).Success? { BarredIsHeld(s, Resolve(sp, at, src).value, m); }
    if ResolveParent(sp, at, dst).Success? { TakenIsShown(sp, ResolveParent(sp, at, dst).value); }
  }

  /** A move is made exactly of a node no other mount holds, not down its own subtree as far as 256 levels see. */
  lemma MoveAnswers(sp: Space, s: Sessions, m: MountId, at: Node, src: string, dst: string)
    requires MayWrite(s, m) && Guarded(sp) && sp.IsContainer(at)
    ensures var r := RefusalOf(sp, s, m, at, Move(src, dst));
            var found, from, to := Resolve(sp, at, src), ResolveParent(sp, at, src), ResolveParent(sp, at, dst);
            && (found.Failure? ==> r == Some(found.error))
            && (found.Success? ==>
                  var free, placed := !Barred(s, found.value, m), from.Success? && to.Success?;
                  && (r == Some(LockHeld) <==> !free)
                  && (free && from.Failure? ==> r == Some(from.error))
                  && (free && from.Success? && to.Failure? ==> r == Some(to.error))
                  && (free && placed ==>
                        var loops := sp.IsContainer(found.value) && SeenAsCycle(sp.Tree(), found.value,
                                                                                to.value.container);
                        r == if loops then Some(WouldCycle) else None))
  {
    hide Resolve, ResolveParent, HeldByOther, Barred, Guarded, Ancestors, SeenAsCycle, Space.Tree;
    ResolveErrors(sp, at, src);
    ResolveErrors(sp, at, dst);
    if Resolve(sp, at, src).Success? { BarredIsHeld(s, Resolve(sp, at, src).value, m); }
    if Resolve(sp, at, src).Success? && ResolveParent(sp, at, dst).Success? {
      ParentIsConfined(sp, at, dst);
      CycleCheckMeaning(sp, Resolve(sp, at, src).value, ResolveParent(sp, at, dst).value.container);
    }
  }

  /** A container is removed only when no placement in it is left. */
  lemma RemoveAnswers(sp: Space, s: Sessions, m: MountId, at: Node, path: string)
    requires MayWrite(s, m)
    ensures var r := RefusalOf(sp, s, m, at, Remove(path));
            var found, parent := Resolve(sp, at, path), ResolveParent(sp, at, path);
            && (found.Failure? ==> r == Some(found.error))
            && (found.Success? ==>
                  var free := !Barred(s, found.value, m);
                  var full := sp.IsContainer(found.value)
                              && exists e ::
                                   e in sp.edges && !sp.edges[e].archived && sp.edges[e].parent == found.value;
                  && (r == Some(LockHeld) <==> !free)
                  && (r == Some(NotEmpty) <==> free && full)
                  && (r.None? <==> free && !full && parent.Success?)
                  && (free && !full && parent.Failure? ==> r == Some(parent.error)))
  {
    hide Resolve, ResolveParent, HeldByOther, Barred;
    ResolveErrors(sp, at, path);
    if Resolve(sp, at, path).Success? { BarredIsHeld(s, Resolve(sp, at, path).value, m); }
  }

  /** A whole subtree is removed only when nothing the view shows of it is another mount's. */
  lemma RemoveRecursiveAnswers(sp: Space, s: Sessions, m: MountId, at: Node, path: string)
    requires MayWrite(s, m)
    ensures var r, found := RefusalOf(sp, s, m, at, RemoveRecursive(path)), Resolve(sp, at, path);
            && (found.Failure? ==> r == Some(found.error))
            && (found.Success? ==>
                  r == if exists n :: n in Members(sp, found.value) && Barred(s, n, m) then Some(LockHeld) else None)
  {
    hide Resolve, Members, HeldByOther, Barred;
    forall n: Node ensures Barred(s, n, m) <==> HeldByOther(s, n, m) { BarredIsHeld(s, n, m); }
  }

  /** A copy asks for no lock. */
  lemma CopyAnswers(sp: Space, s: Sessions, m: MountId, at: Node, src: string, dst: string)
    ensures var r, found, to := CopyRefusal(sp, s, m, at, src, dst), Resolve(sp, at, src), ResolveParent(sp, at, dst);
            && (!Live(s, m) ==> r == Some(MountInvalid))
            && (Live(s, m) && !s.mounts[m].writable ==> r == Some(ReadOnlyMount))
            && (r.None? <==> MayWrite(s, m) && found.Success? && to.Success?)
            && (MayWrite(s, m) && found.Failure? ==> r == Some(found.error))
            && (MayWrite(s, m) && found.Success? && to.Failure? ==> r == Some(to.error))
  {
    hide Resolve, ResolveParent;
  }

  /** Only a placed container is packed, nothing of which is another mount's. */
  lemma PackAnswers(sp: Space, s: Sessions, m: MountId, at: Node, path: string)
    ensures var r, found := PackRefusal(sp, s, m, at, path), Resolve(sp, at, path);
            && (!Live(s, m) ==> r == Some(MountInvalid))
            && (Live(s, m) && !s.mounts[m].writable ==> r == Some(ReadOnlyMount))
            && (MayWrite(s, m) && found.Failure? ==> r == Some(found.error))
            && (MayWrite(s, m) && found.Success? ==>
                  var n := found.value;
                  var free := !exists x :: x in Members(sp, n) && Barred(s, x, m);
                  var placed := exists e :: e in sp.edges && !sp.edges[e].archived && sp.edges[e].child == n;
                  && (r == Some(NotAContainer) <==> !sp.IsContainer(n))
                  && (r == Some(LockHeld) <==> sp.IsContainer(n) && !free)
                  && (r == Some(NotFound) <==> sp.IsContainer(n) && free && !placed)
                  && (r.None? <==> sp.IsContainer(n) && free && placed))
  {
    hide Resolve, Members, HeldByOther, Barred;
    forall n: Node ensures Barred(s, n, m) <==> HeldByOther(s, n, m) { BarredIsHeld(s, n, m); }
    if Resolve(sp, at, path).Success? { PlacedOrNot(sp, Resolve(sp, at, path).value); }
  }

  lemma PlacedOrNot(sp: Space, n: Node)
    ensures PlacementsOf(sp, n) == {}
            <==> !exists e :: e in sp.edges && !sp.edges[e].archived && sp.edges[e].child == n
  {
    if e :| e in sp.edges && !sp.edges[e].archived && sp.edges[e].child == n { assert e in PlacementsOf(sp, n); }
  }

  /** Only a placed leaf whose bytes were packed is unpacked, and only when it is not another mount's. */
  lemma UnpackAnswers(p: Packer, m: MountId, at: Node, path: string)
    ensures var r, sp, s := p.UnpackRefusal(m, at, path), p.v.Now(), p.v.db.sessions;
            var found := Resolve(sp, at, path);
            && (!Live(s, m) ==> r == Some(MountInvalid))
            && (Live(s, m) && !s.mounts[m].writable ==> r == Some(ReadOnlyMount))
            && (MayWrite(s, m) && found.Failure? ==> r == Some(found.error))
            && (MayWrite(s, m) && found.Success? ==>
                  var n := found.value;
                  var leaf, free, known := !sp.IsContainer(n), !Barred(s, n, m), p.v.db.Current(n) in p.table;
                  var placed := exists e :: e in sp.edges && !sp.edges[e].archived && sp.edges[e].child == n;
                  && (r == Some(NotAnEntry) <==> !leaf)
                  && (r == Some(LockHeld) <==> leaf && !free)
                  && (r == Some(Corrupt) <==> leaf && free && !known)
                  && (r == Some(NotFound) <==> leaf && free && known && !placed)
                  && (r.None? <==> leaf && free && known && placed))
  {
    hide Resolve, HeldByOther, Barred, BytesOf;
    var sp, s := p.v.Now(), p.v.db.sessions;
    if Resolve(sp, at, path).Success? {
      BarredIsHeld(s, Resolve(sp, at, path).value, m);
      PlacedOrNot(sp, Resolve(sp, at, path).value);
    }
  }

  /** Opening a path: what `OpenAnswers` says of what is there, and of an entry to be created. */
  lemma PathAnswers(sp: Space, s: Sessions, m: MountId, at: Node, path: string, mode: WriteMode,
                    supplied: Option<LockId>)
    ensures !MayWrite(s, m) ==>
              Calls.PathRefusal(sp, s, m, at, path, mode, supplied)
              == Some(if Live(s, m) then ReadOnlyMount else MountInvalid)
    ensures MayWrite(s, m) ==>
            var r := Calls.PathRefusal(sp, s, m, at, path, mode, supplied);
            var found, parent := Resolve(sp, at, path), ResolveParent(sp, at, path);
            && (found.Success? ==> r == OpenRefusal(s, sp.kinds, m, found.value, mode, supplied))
            && (found == Failure(NotAContainer) ==> r == Some(NotAContainer))
            && (found == Failure(NotFound) && mode.Appending? ==> r == Some(NotFound))
            && (found == Failure(NotFound) && mode.Overwriting? && parent.Failure? ==> r == Some(parent.error))
            && (found == Failure(NotFound) && mode.Overwriting? && parent.Success? ==>
                  && (r.None? <==> supplied.None?)
                  && (supplied.Some? ==>
                        r == Some(if Stands(s, supplied.value) && s.locks[supplied.value].mount != m then LockHeld
                                  else LockInvalid)))
  {
    hide Resolve, ResolveParent;
  }

  /** A lock is released or renewed only while it stands, and only by the mount that took it. */
  lemma OwnedAnswers(k: Locking.LockService, m: MountId, l: LockId)
    ensures var s := k.db.sessions;
            match k.Owned(m, l)
            case Some(MountInvalid) => !Live(s, m)
            case Some(LockInvalid) => Live(s, m) && !Stands(s, l)
            case Some(LockHeld) => Live(s, m) && Stands(s, l) && s.locks[l].mount != m
            case Some(_) => false
            case None => Live(s, m) && Stands(s, l) && s.locks[l].mount == m
  {
  }

  // ---- Over runs ----------------------------------------------------------------------------------

  /** The mounts of the open writers are writable ones, live or not. */
  ghost predicate WritersMay(w: World) {
    forall fd | IsOpen(w, fd) :: w.streams[fd].mount in w.s.mounts && w.s.mounts[w.streams[fd].mount].writable
  }

  lemma StepWriters(c: pos, w: World, w': World, a: Action)
    requires WritersMay(w) && Protocol.Step(c, w, w', a)
    ensures WritersMay(w')
  {
    hide OpenRefusal, Refusal, Did, Born, Flushes, Closes, Pruned, Overwrite, Opened, ValidLock, Held;
    if a.Open? && StreamStep(c, w, w', a) {
      OpenAnswers(w.s, w.kinds, a.m, a.n, a.mode, a.supplied);
    }
  }

  /** Committed bytes change only on behalf of a mount that is live and may write at that moment. */
  lemma ChangedByWriter(c: pos, w: World, w': World, a: Action, o: Node)
    requires Inv(c, w) && WritersMay(w) && Protocol.Step(c, w, w', a)
    requires o in w.t.content && BytesOf(w'.t, o) != BytesOf(w.t, o)
    ensures Actor(w, a).Some? && MayWrite(w.s, Actor(w, a).value)
  {
    hide BytesOf, Inv, Pruned, Closes, Flushes, Did, Born, SessionStep, Refusal;
    if SessionStep(w, w', a) {
      SessionKeepsTables(w, w', a);
    } else {
      match a
      case EditEntry(m, n, e) => WriteAnswers(w.s, w.kinds, m, n, ChecksLock(e));
      case Flush(fd) => FlushKeepsBytes(c, w, w', fd);
      case Close(fd) => ClosedByWriter(c, w, fd);
      case _ => if ContentStep(c, w, w', a) { UpkeepKeepsBytes(c, w, w', a); }
    }
  }

  lemma ClosedByWriter(c: pos, w: World, fd: Fd)
    requires Inv(c, w) && WritersMay(w) && IsOpen(w, fd) && ValidLock(w.s, w.streams[fd].w.lock)
    ensures MayWrite(w.s, w.streams[fd].mount)
  {
    hide Represents, Sound;
    assert OwnLock(w.s, w.used, w.streams[fd]);
  }

  lemma {:induction false} RunWriters(c: pos, ws: seq<World>, acts: seq<Action>, k: nat)
    requires SafeRun(c, ws, acts) && WritersMay(ws[0]) && k <= |acts|
    ensures WritersMay(ws[k])
  {
    hide Protocol.Step, WritersMay, CollectSafe;
    if k > 0 {
      RunWriters(c, ws, acts, k - 1);
      StepWriters(c, ws[k - 1], ws[k], acts[k - 1]);
    }
  }

  /** So it is at every step of every run with safe collections. */
  lemma OnlyWritersChange(c: pos, ws: seq<World>, acts: seq<Action>, k: nat, o: Node)
    requires SafeRun(c, ws, acts) && Inv(c, ws[0]) && WritersMay(ws[0]) && k < |acts|
    requires o in ws[k].t.content && BytesOf(ws[k + 1].t, o) != BytesOf(ws[k].t, o)
    ensures Actor(ws[k], acts[k]).Some? && MayWrite(ws[k].s, Actor(ws[k], acts[k]).value)
  {
    hide Inv, Protocol.Step, WritersMay, BytesOf, CollectSafe;
    RunInv(c, ws, acts, k);
    RunWriters(c, ws, acts, k);
    ChangedByWriter(c, ws[k], ws[k + 1], acts[k], o);
  }

  /** Nor does any call by path change a placement, a node or a column otherwise. */
  lemma CallByWriter(format: Format, sh: Shelf, sh': Shelf, c: Call)
    requires Happened(format, sh, sh', c) && sh'.sp != sh.sp
    ensures MayWrite(c.s, c.mount)
  {
    hide Resolve, ResolveParent, CopyMade, PackMade, UnpackMade, BytesOf, BytesStay, Guarded, Effect;
    match c.act
    case Ask(rq) => GateFirst(sh.sp, c.s, c.mount, c.at, rq);
    case Copy(src, dst) => CopyAnswers(sh.sp, c.s, c.mount, c.at, src, dst);
    case Pack(path) => PackAnswers(sh.sp, c.s, c.mount, c.at, path);
    case Unpack(path) =>
    case Edit(node, data) =>
  }

  // ---- Mounts end -------------------------------------------------------------------------------------

  /** Nothing brings back a mount that was unmounted or ran out. */
  lemma StepEnds(c: pos, w: World, w': World, a: Action, m: MountId)
    requires Protocol.Step(c, w, w', a) && m in w.s.mounts && !Live(w.s, m)
    ensures m in w'.s.mounts && !Live(w'.s, m)
  {
    hide OpenRefusal, Refusal, Did, Born, Flushes, Closes, Pruned, Overwrite, Opened, ValidLock, Held, Buffered;
  }

  lemma {:induction false} EndedForGood(c: pos, ws: seq<World>, acts: seq<Action>, m: MountId, k: nat)
    requires Protocol.Run(c, ws, acts) && m in ws[0].s.mounts && !Live(ws[0].s, m) && k <= |acts|
    ensures !Live(ws[k].s, m) && forall l | l in ws[k].s.locks && ws[k].s.locks[l].mount == m :: !Stands(ws[k].s, l)
    ensures m in ws[k].s.mounts
  {
    hide Protocol.Step, Live;
    if k > 0 {
      EndedForGood(c, ws, acts, m, k - 1);
      StepEnds(c, ws[k - 1], ws[k], acts[k - 1], m);
    }
  }

  /** Unmounting ends a mount, and pruning the lock table takes exactly the locks that stand no more. */
  lemma UnmountEnds(c: pos, w: World, w': World, a: Action)
    requires Protocol.Step(c, w, w', a)
    ensures a.Unmount? ==> a.m in w'.s.mounts && !Live(w'.s, a.m)
    ensures a.PruneLocks? ==>
              forall l :: l in w'.s.locks <==> l in w.s.locks && Stands(w.s, l) && w'.s.locks[l] == w.s.locks[l]
  {
  }
}
