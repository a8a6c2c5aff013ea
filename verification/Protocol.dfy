/**
  Everyone at once: any number of writers, other mounts' edits, the collector,
  lock and mount expiry, in any order. Each action is one transaction. The
  invariant below is kept by every action, so what it says of a writer whose
  lock is still valid holds in every run.
 */
module Protocol {
  import opened Wrappers
  import opened Flat
  import opened Chunking
  import opened Sessions
  import opened Tables
  import opened Store
  import opened Collector
  import opened Streaming

  type Fd = nat

  /** A write descriptor, the mount that opened it, and the flat bytes its writes amount to. */
  datatype Stream = Stream(w: Writer, mount: MountId, text: bytes)

  /** `used` holds every lock id ever issued: ids are not reissued. */
  datatype World = World(
    kinds: map<Node, Kind>,
    t: Tables,
    s: Sessions,
    used: set<LockId>,
    streams: map<Fd, Stream>)

  datatype Action =
    | Tick(now: nat)
    | NewMount(m: MountId, mount: Mount)
    | Unmount(m: MountId)
    | RenewMount(m: MountId, expires: Option<nat>)
    | TakeLock(m: MountId, n: Node, l: LockId, expires: Option<nat>)
    | Unlock(m: MountId, l: LockId)
    | RenewLock(m: MountId, l: LockId, expires: Option<nat>)
    | PruneLocks
    | Collect(scope: Option<set<Node>>)
    | Create(n: Node, kind: Kind, data: bytes)
    | EditEntry(m: MountId, n: Node, e: Edit)
    | SetKeep(n: Node, keep: Option<int>)
    | Open(fd: Fd, m: MountId, n: Node, mode: WriteMode, supplied: Option<LockId>, l: LockId)
    | Buffer(fd: Fd, data: bytes)
    | Seek(fd: Fd, position: nat)
    | Flush(fd: Fd)
    | Close(fd: Fd)
    | Abort(fd: Fd)

  /** Whether an edit asks `check_lock_held`: an empty append or range write returns before the check. */
  predicate ChecksLock(e: Edit) {
    match e
    case Append(d) => d != []
    case WriteAt(_, d) => d != []
    case _ => true
  }

  predicate IsOpen(w: World, fd: Fd) {
    fd in w.streams && !w.streams[fd].w.closed
  }

  function WithStream(w: World, fd: Fd, st: Stream): World {
    w.(streams := w.streams[fd := st])
  }

  /** A lock that `m` may act on (`_require_own_lock`). */
  predicate Owns(s: Sessions, m: MountId, l: LockId) {
    ValidMount(s, m) && ValidLock(s, l) && s.locks[l].mount == m
  }

  function MountRow(s: Sessions, m: MountId, row: Mount): Sessions {
    s.(mounts := s.mounts[m := row])
  }

  ghost predicate SessionStep(w: World, w': World, a: Action) {
    match a
    case Tick(now) => w.s.now <= now && w' == w.(s := w.s.(now := now))
    case NewMount(m, row) => m !in w.s.mounts && w' == w.(s := MountRow(w.s, m, row))
    case Unmount(m) => m in w.s.mounts && w' == w.(s := MountRow(w.s, m, w.s.mounts[m].(unmounted := true)))
    case RenewMount(m, expires) =>
      ValidMount(w.s, m) && w' == w.(s := MountRow(w.s, m, w.s.mounts[m].(expires := expires)))
    case TakeLock(m, n, l, expires) =>
      && ValidMount(w.s, m) && !Held(w.s, n) && l !in w.used
      && w' == w.(s := Locked(w.s, l, Lock(m, n, expires)), used := w.used + {l})
    case Unlock(m, l) => Owns(w.s, m, l) && w' == w.(s := Released(w.s, l))
    case RenewLock(m, l, expires) =>
      Owns(w.s, m, l) && w' == w.(s := Locked(w.s, l, w.s.locks[l].(expires := expires)))
    case PruneLocks =>
      w' == w.(s := w.s.(locks := map l | l in w.s.locks && ValidLock(w.s, l) :: w.s.locks[l]))
    case _ => false
  }

  ghost predicate ContentStep(c: pos, w: World, w': World, a: Action) {
    match a
    case Collect(scope) => w' == w.(t := Pruned(w.t, w.s, scope))
    case Create(n, kind, data) =>
      && n !in w.kinds && kind != Container && w' == w.(t := w'.t, kinds := w.kinds[n := kind])
      && Born(c, w.t, w'.t, n, data)
    case EditEntry(m, n, e) =>
      Refusal(w.s, w.kinds, m, n, ChecksLock(e)).None? && w' == w.(t := w'.t) && Did(c, w.t, w'.t, n, e)
    case SetKeep(n, keep) =>
      n in w.t.content && w' == w.(t := w.t.(content := w.t.content[n := w.t.content[n].(keep := keep)]))
    case _ => false
  }

  ghost predicate StreamStep(c: pos, w: World, w': World, a: Action) {
    match a
    case Open(fd, m, n, mode, supplied, l) =>
      && fd !in w.streams && n in w.kinds && OpenRefusal(w.s, w.kinds, m, n, mode, supplied).None?
      && n in w.t.content && (supplied.None? ==> l !in w.used)
      && var lock := if supplied.Some? then supplied.value else l;
         var text := if mode == Overwriting then [] else BytesOf(w.t, n);
         w' == WithStream(if supplied.Some? then w else w.(s := Locked(w.s, l, Lock(m, n, None)), used := w.used + {l}),
                          fd, Stream(Opened(c, w.t, n, mode, lock, supplied.None?), m, text))
    case Buffer(fd, data) =>
      && IsOpen(w, fd) && Buffered(w.streams[fd].w, data).Some?
      && w' == WithStream(w, fd, w.streams[fd].(w := Buffered(w.streams[fd].w, data).value,
                                               text := Overwrite(w.streams[fd].text, w.streams[fd].w.position, data)))
    case Seek(fd, position) =>
      IsOpen(w, fd) && w' == WithStream(w, fd, w.streams[fd].(w := w.streams[fd].w.(position := position)))
    case Flush(fd) =>
      && IsOpen(w, fd) && fd in w'.streams
      && w' == WithStream(w.(t := w'.t), fd, w.streams[fd].(w := w'.streams[fd].w))
      && Flushes(c, w.t, w.streams[fd].w, w'.t, w'.streams[fd].w)
    case Close(fd) =>
      && IsOpen(w, fd) && |w.streams[fd].w.pending| < c
      && var st := w.streams[fd];
         if ValidLock(w.s, st.w.lock) then
           && fd in w'.streams && Closes(w.t, st.w, w'.t, w'.streams[fd].w)
           && w' == WithStream(w.(t := w'.t, s := if st.w.ownsLock then Released(w.s, st.w.lock) else w.s),
                               fd, st.(w := w'.streams[fd].w))
         else w' == WithStream(w, fd, st.(w := st.w.(closed := true)))
    case Abort(fd) =>
      && IsOpen(w, fd)
      && var st := w.streams[fd];
         w' == WithStream(w.(s := if st.w.ownsLock then Released(w.s, st.w.lock) else w.s),
                          fd, st.(w := st.w.(closed := true)))
    case _ => false
  }

  ghost predicate Step(c: pos, w: World, w': World, a: Action) {
    SessionStep(w, w', a) || ContentStep(c, w, w', a) || StreamStep(c, w, w', a)
  }

  // ---- The invariant -----------------------------------------------------------------

  /** The locks are known, belong to known mounts, and one mount at most holds a node. */
  ghost predicate LocksOk(s: Sessions, used: set<LockId>) {
    && (forall l | l in s.locks :: l in used && s.locks[l].mount in s.mounts)
    && (forall l, k | l in s.locks && k in s.locks && ValidLock(s, l) && ValidLock(s, k)
          && s.locks[l].node == s.locks[k].node :: s.locks[l].mount == s.locks[k].mount)
  }

  /** The stream's lock, while it exists, is its own: same node, same mount. */
  ghost predicate OwnLock(s: Sessions, used: set<LockId>, st: Stream) {
    st.w.lock in used
    && (st.w.lock in s.locks ==> s.locks[st.w.lock].node == st.w.node && s.locks[st.w.lock].mount == st.mount)
  }

  /** The writer's claimed version is above the committed pointer. */
  ghost predicate Ahead(t: Tables, w: Writer) {
    w.version.Some? && w.node in t.content && t.content[w.node].version < w.version.value
  }

  /** A claimed version is never the committed one, and above it has rows, so that it is not given out again. */
  ghost predicate OwnVersion(t: Tables, st: Stream) {
    && st.w.node in t.content
    && (st.w.version.Some? ==>
          st.w.version.value > 0 && st.w.index > 0 && t.content[st.w.node].version != st.w.version.value)
    && (Ahead(t, st.w) ==> t.Rows(Backing(st.w)) != map[])
  }

  /** While its lock is valid the writer stands for exactly its text. */
  ghost predicate Faithful(c: pos, t: Tables, s: Sessions, st: Stream) {
    ValidLock(s, st.w.lock) ==> Represents(c, t, st.w, st.text)
  }

  /** Whether a claimed version of one writer is one another writer still depends on. */
  ghost predicate Clash(s: Sessions, a: Writer, b: Writer) {
    && a.node == b.node && a.version.Some?
    && Backing(a) == Backing(b)
    && (b.version.Some? || (b.carryFull > 0 && ValidLock(s, b.lock)))
  }

  /**
    A claimed version whose rows are gone lies below the pointer. A writer
    that can still move the pointer back will not move it that far.
   */
  ghost predicate Behind(t: Tables, s: Sessions, a: Writer, b: Writer) {
    a.node == b.node && a.version.Some? && b.version.Some? && ValidLock(s, b.lock) && t.Rows(Backing(a)) == map[] ==>
      a.version.value < b.version.value
  }

  ghost predicate Independent(t: Tables, s: Sessions, a: Writer, b: Writer) {
    !Clash(s, a, b) && Behind(t, s, a, b)
  }

  ghost predicate Inv(c: pos, w: World) {
    && Sound(c, w.t)
    && (forall n :: n in w.t.content <==> n in w.kinds && w.kinds[n] != Container)
    && (forall v: Ver | w.t.Rows(v) != map[] :: v.node in w.t.content)
    && LocksOk(w.s, w.used)
    && (forall fd | IsOpen(w, fd) ::
          && OwnLock(w.s, w.used, w.streams[fd]) && OwnVersion(w.t, w.streams[fd])
          && Faithful(c, w.t, w.s, w.streams[fd]))
    && (forall f, g | IsOpen(w, f) && IsOpen(w, g) && f != g :: Independent(w.t, w.s, w.streams[f].w, w.streams[g].w))
  }

  /**
    A collection is safe when no open descriptor whose claimed version is above
    the committed pointer sits, in scope, on a node nobody holds locked: such a
    descriptor has lost its lock, its chunks would go, and its version number
    would be given out again.
   */
  ghost predicate CollectSafe(w: World, a: Action) {
    a.Collect? ==> forall fd | IsOpen(w, fd) && Ahead(w.t, w.streams[fd].w) ::
      Held(w.s, w.streams[fd].w.node) || !InScope(a.scope, w.streams[fd].w.node)
  }

  // ---- Sessions ------------------------------------------------------------------------

  /** Of the locks issued so far none is revived or moved: an invalid lock never becomes valid again. */
  ghost predicate Narrows(s: Sessions, s': Sessions, used: set<LockId>) {
    forall l | l in used ::
      && (l in s'.locks ==>
            l in s.locks && s'.locks[l].node == s.locks[l].node && s'.locks[l].mount == s.locks[l].mount)
      && (ValidLock(s', l) ==> ValidLock(s, l))
  }

  lemma ReleaseNarrows(s: Sessions, used: set<LockId>, l: LockId)
    requires LocksOk(s, used)
    ensures Narrows(s, Released(s, l), used) && LocksOk(Released(s, l), used)
  {
  }

  lemma NewLockIsExclusive(s: Sessions, used: set<LockId>, l: LockId, lock: Lock)
    requires LocksOk(s, used) && l !in used && lock.mount in s.mounts && !HeldByOther(s, lock.node, lock.mount)
    ensures Narrows(s, Locked(s, l, lock), used) && LocksOk(Locked(s, l, lock), used + {l})
  {
    var s' := Locked(s, l, lock);
    forall k | k in s.locks ensures k != l && (ValidLock(s', k) <==> ValidLock(s, k)) {}
  }

  lemma SessionNarrows(w: World, w': World, a: Action)
    requires LocksOk(w.s, w.used) && SessionStep(w, w', a)
    ensures Narrows(w.s, w'.s, w.used) && LocksOk(w'.s, w'.used) && w.used <= w'.used
  {
    match a
    case TakeLock(m, n, l, expires) =>
      assert !HeldByOther(w.s, n, m);
      NewLockIsExclusive(w.s, w.used, l, Lock(m, n, expires));
    case Unlock(m, l) => ReleaseNarrows(w.s, w.used, l);
    case RenewLock(m, l, expires) =>
    case _ =>
  }

  lemma SessionInv(c: pos, w: World, w': World, a: Action)
    requires Inv(c, w) && SessionStep(w, w', a)
    ensures Inv(c, w')
  {
    SessionNarrows(w, w', a);
    NarrowedInv(c, w, w');
  }

  /** Losing or taking locks alone keeps the invariant. */
  lemma NarrowedInv(c: pos, w: World, w': World)
    requires Inv(c, w) && Narrows(w.s, w'.s, w.used) && LocksOk(w'.s, w'.used) && w.used <= w'.used
    requires w' == w.(s := w'.s, used := w'.used)
    ensures Inv(c, w')
  {
    hide Represents, Sound, LocksOk;
    forall fd | IsOpen(w', fd)
      ensures OwnLock(w'.s, w'.used, w'.streams[fd]) && OwnVersion(w'.t, w'.streams[fd])
      ensures Faithful(c, w'.t, w'.s, w'.streams[fd])
    {
      assert IsOpen(w, fd);
    }
    forall f, g | IsOpen(w', f) && IsOpen(w', g) && f != g
      ensures Independent(w'.t, w'.s, w'.streams[f].w, w'.streams[g].w)
    {
      assert IsOpen(w, f) && IsOpen(w, g);
      assert w'.streams[g].w.lock in w.used;
    }
  }

  // ---- Content ---------------------------------------------------------------------------

  /** The rows of a version, and the chunks they name, are as they were. */
  ghost predicate KeepsRows(t: Tables, t': Tables, v: Ver) {
    && t'.Rows(v) == t.Rows(v)
    && forall i | i in t.Rows(v) && t.Rows(v)[i] in t.pool ::
         t.Rows(v)[i] in t'.pool && t'.pool[t.Rows(v)[i]] == t.pool[t.Rows(v)[i]]
  }

  /** Whether the writer needs its backing rows: once it has any flushed chunk. */
  predicate Leans(w: Writer) {
    w.version.Some? || w.carryFull > 0
  }

  lemma StreamKept(c: pos, t: Tables, t': Tables, s: Sessions, st: Stream)
    requires OwnVersion(t, st) && Faithful(c, t, s, st)
    requires st.w.node in t'.content
    requires st.w.version.Some? ==> t'.content[st.w.node].version != st.w.version.value
    requires Ahead(t', st.w) ==> t'.Rows(Backing(st.w)) != map[]
    requires ValidLock(s, st.w.lock) && Leans(st.w) ==> KeepsRows(t, t', Backing(st.w))
    ensures OwnVersion(t', st) && Faithful(c, t', s, st)
  {
  }

  /** A writer that leans on its rows has some, unless it lost its lock and its version lies below the pointer. */
  lemma LeaningHasRows(c: pos, w: World, fd: Fd)
    requires Inv(c, w) && IsOpen(w, fd) && Leans(w.streams[fd].w)
    requires Ahead(w.t, w.streams[fd].w) || ValidLock(w.s, w.streams[fd].w.lock)
    ensures w.t.Rows(Backing(w.streams[fd].w)) != map[]
  {
    var st := w.streams[fd];
    assert OwnVersion(w.t, st) && Faithful(c, w.t, w.s, st);
    if ValidLock(w.s, st.w.lock) { assert 0 in w.t.Rows(Backing(st.w)); }
  }

  /** Keeping the tables sound and every open stream as it was keeps the invariant. */
  lemma FramedInv(c: pos, w: World, w': World)
    requires Inv(c, w) && Sound(c, w'.t) && w'.s == w.s && w'.used == w.used && w'.streams == w.streams
    requires forall n :: n in w'.t.content <==> n in w'.kinds && w'.kinds[n] != Container
    requires forall v: Ver | w'.t.Rows(v) != map[] :: v.node in w'.t.content
    requires forall fd | IsOpen(w, fd) :: OwnVersion(w'.t, w.streams[fd]) && Faithful(c, w'.t, w.s, w.streams[fd])
    requires forall f, g | IsOpen(w, f) && IsOpen(w, g) && f != g :: Behind(w'.t, w.s, w.streams[f].w, w.streams[g].w)
    ensures Inv(c, w')
  {
    hide Represents, Sound, LocksOk;
    forall fd | IsOpen(w', fd)
      ensures OwnLock(w'.s, w'.used, w'.streams[fd]) && OwnVersion(w'.t, w'.streams[fd])
      ensures Faithful(c, w'.t, w'.s, w'.streams[fd])
    {
      assert IsOpen(w, fd);
    }
    forall f, g | IsOpen(w', f) && IsOpen(w', g) && f != g
      ensures Independent(w'.t, w'.s, w'.streams[f].w, w'.streams[g].w)
    {
      assert IsOpen(w, f) && IsOpen(w, g);
      assert Independent(w.t, w.s, w.streams[f].w, w.streams[g].w);
    }
  }

  /** Where no version loses all its rows, nobody falls behind. */
  lemma NobodyFallsBehind(c: pos, w: World, t': Tables)
    requires Inv(c, w) && forall u: Ver | w.t.Rows(u) != map[] :: t'.Rows(u) != map[]
    ensures forall f, g | IsOpen(w, f) && IsOpen(w, g) && f != g :: Behind(t', w.s, w.streams[f].w, w.streams[g].w)
  {
    forall f, g | IsOpen(w, f) && IsOpen(w, g) && f != g ensures Behind(t', w.s, w.streams[f].w, w.streams[g].w) {
      assert Independent(w.t, w.s, w.streams[f].w, w.streams[g].w);
    }
  }

  lemma CollectInv(c: pos, w: World, w': World, scope: Option<set<Node>>)
    requires Inv(c, w) && CollectSafe(w, Collect(scope)) && ContentStep(c, w, w', Collect(scope))
    ensures Inv(c, w')
  {
    hide Represents, Sound, LocksOk, Pruned, Resolves;
    PruneKeepsBytes(c, w.t, w.s, scope);
    PrunedContent(w.t, w.s, scope);
    SoundResolves(c, w.t);
    forall fd | IsOpen(w, fd) ensures OwnVersion(w'.t, w.streams[fd]) && Faithful(c, w'.t, w.s, w.streams[fd]) {
      hide Inv, OwnVersion, Faithful;
      CollectKeepsStream(c, w, w', scope, fd);
    }
    forall v: Ver | w'.t.Rows(v) != map[] ensures v.node in w'.t.content {
      PrunedRows(w.t, w.s, scope, v);
    }
    forall f, g | IsOpen(w, f) && IsOpen(w, g) && f != g ensures Behind(w'.t, w.s, w.streams[f].w, w.streams[g].w) {
      hide Inv, OwnVersion, Faithful;
      CollectLeavesBehind(c, w, w', scope, f, g);
    }
    FramedInv(c, w, w');
  }

  lemma PrunedContent(t: Tables, s: Sessions, scope: Option<set<Node>>)
    ensures Pruned(t, s, scope).content == t.content
  {
  }

  lemma SoundResolves(c: pos, t: Tables)
    requires Sound(c, t)
    ensures Resolves(t)
  {
  }

  lemma CollectKeepsStream(c: pos, w: World, w': World, scope: Option<set<Node>>, fd: Fd)
    requires Inv(c, w) && CollectSafe(w, Collect(scope)) && w'.t == Pruned(w.t, w.s, scope) && IsOpen(w, fd)
    requires w'.t.content == w.t.content
    ensures OwnVersion(w'.t, w.streams[fd]) && Faithful(c, w'.t, w.s, w.streams[fd])
  {
    hide Represents, Sound, LocksOk, Pruned, Resolves;
    SoundResolves(c, w.t);
    var st := w.streams[fd];
    PrunedRows(w.t, w.s, scope, Backing(st.w));
    if ValidLock(w.s, st.w.lock) { assert Held(w.s, st.w.node); }
    StreamKept(c, w.t, w'.t, w.s, st);
  }

  /** Rows go only where nobody holds the node, so nobody on it can move the pointer any more. */
  lemma CollectLeavesBehind(c: pos, w: World, w': World, scope: Option<set<Node>>, f: Fd, g: Fd)
    requires Inv(c, w) && w'.t == Pruned(w.t, w.s, scope) && IsOpen(w, f) && IsOpen(w, g) && f != g
    ensures Behind(w'.t, w.s, w.streams[f].w, w.streams[g].w)
  {
    hide Represents, Sound, LocksOk, Pruned, Resolves;
    SoundResolves(c, w.t);
    var a, b := w.streams[f].w, w.streams[g].w;
    PrunedRows(w.t, w.s, scope, Backing(a));
    assert OwnLock(w.s, w.used, w.streams[g]) && Independent(w.t, w.s, a, b);
    if a.node == b.node && ValidLock(w.s, b.lock) { assert Held(w.s, a.node); }
  }

  lemma CreateInv(c: pos, w: World, w': World, n: Node, kind: Kind, data: bytes)
    requires Inv(c, w) && ContentStep(c, w, w', Create(n, kind, data))
    ensures Inv(c, w')
  {
    hide Represents, Sound;
    forall fd | IsOpen(w, fd) ensures OwnVersion(w'.t, w.streams[fd]) && Faithful(c, w'.t, w.s, w.streams[fd]) {
      var st := w.streams[fd];
      assert OwnVersion(w.t, st);
      assert st.w.node != n;
      assert w'.t.Rows(Backing(st.w)) == w.t.Rows(Backing(st.w));
      StreamKept(c, w.t, w'.t, w.s, st);
    }
    forall v: Ver | w'.t.Rows(v) != map[] ensures v.node in w'.t.content {
      if v.node != n { assert w.t.Rows(v) == w'.t.Rows(v); }
    }
    forall v: Ver | w.t.Rows(v) != map[] ensures w'.t.Rows(v) != map[] {
      assert v.node != n;
      assert w.t.Rows(v) == w'.t.Rows(v);
    }
    NobodyFallsBehind(c, w, w'.t);
    FramedInv(c, w, w');
  }

  lemma SetKeepInv(c: pos, w: World, w': World, n: Node, keep: Option<int>)
    requires Inv(c, w) && ContentStep(c, w, w', SetKeep(n, keep))
    ensures Inv(c, w')
  {
    hide Represents, LocksOk, BytesOf, Sound;
    InvIsSound(c, w);
    KeepIsSound(c, w.t, n, keep);
    forall v: Ver ensures w'.t.Rows(v) == w.t.Rows(v) {}
    forall fd | IsOpen(w, fd) ensures OwnVersion(w'.t, w.streams[fd]) && Faithful(c, w'.t, w.s, w.streams[fd]) {
      hide Represents, Sound;
      StreamKept(c, w.t, w'.t, w.s, w.streams[fd]);
    }
    NobodyFallsBehind(c, w, w'.t);
    FramedInv(c, w, w');
  }

  lemma EditInv(c: pos, w: World, w': World, m: MountId, n: Node, e: Edit)
    requires Inv(c, w) && ContentStep(c, w, w', EditEntry(m, n, e))
    ensures Inv(c, w')
  {
    if IsNoOp(BytesOf(w.t, n), e) {
      assert w' == w;
    } else {
      var v := NextVersion(w.t, n);
      NextVersionIsFresh(w.t, n);
      forall fd | IsOpen(w, fd) ensures OwnVersion(w'.t, w.streams[fd]) && Faithful(c, w'.t, w.s, w.streams[fd]) {
        assert OwnVersion(w.t, w.streams[fd]);
        OtherStreamKept(c, w, fd, w'.t, Ver(n, v));
      }
      hide Represents, Sound, Holds, Publishes;
      assert Commits(c, w.t, w'.t, n, v, Apply(BytesOf(w.t, n), e)) by {
        CommitOf(c, w.t, w'.t, n, v, Apply(BytesOf(w.t, n), e));
      }
      forall u: Ver | w'.t.Rows(u) != map[] ensures u.node in w'.t.content {
        if u != Ver(n, v) { assert w.t.Rows(u) == w'.t.Rows(u); }
      }
      forall u: Ver | w.t.Rows(u) != map[] ensures w'.t.Rows(u) != map[] {
        assert u != Ver(n, v);
        assert w.t.Rows(u) == w'.t.Rows(u);
      }
      NobodyFallsBehind(c, w, w'.t);
      FramedInv(c, w, w');
    }
  }

  lemma CommitOf(c: pos, t: Tables, t': Tables, n: Node, v: nat, g: bytes)
    requires Publishes(c, t, t', n, v, g)
    ensures Commits(c, t, t', n, v, g) && Sound(c, t')
  {
  }

  /**
    Rows added to version `v` alone disturb no stream that does not lean on
    `v`; a version without rows is leant on by nobody.
   */
  lemma OtherStreamKept(c: pos, w: World, fd: Fd, t': Tables, v: Ver)
    requires Inv(c, w) && IsOpen(w, fd)
    requires forall u: Ver | u != v :: t'.Rows(u) == w.t.Rows(u)
    requires PoolGrows(w.t.pool, t'.pool) && t'.content.Keys == w.t.content.Keys
    requires forall o | o in w.t.content && o != v.node :: t'.content[o].version == w.t.content[o].version
    requires v.node in w.t.content ==>
               t'.content[v.node].version == w.t.content[v.node].version || t'.content[v.node].version == v.number
    requires w.t.Rows(v) == map[] || !Leans(w.streams[fd].w) || Backing(w.streams[fd].w) != v
             || (w.streams[fd].w.version.None? && !ValidLock(w.s, w.streams[fd].w.lock))
    requires v.node in w.t.content && t'.content[v.node].version != w.t.content[v.node].version ==>
               NotAbove(w.t, w.streams[fd].w, v)
    ensures OwnVersion(t', w.streams[fd]) && Faithful(c, t', w.s, w.streams[fd])
  {
    var st := w.streams[fd];
    assert OwnVersion(w.t, st) && Faithful(c, w.t, w.s, st);
    if Leans(st.w) && (Ahead(w.t, st.w) || ValidLock(w.s, st.w.lock)) {
      LeaningHasRows(c, w, fd);
      assert Backing(st.w) != v;
      assert t'.Rows(Backing(st.w)) == w.t.Rows(Backing(st.w));
    }
    hide Represents, Sound;
    StreamKept(c, w.t, t', w.s, st);
  }

  /** Moving the pointer to `v` does not leave a claimed version without rows above it. */
  ghost predicate NotAbove(t: Tables, w: Writer, v: Ver) {
    w.node == v.node && w.version.Some? ==>
      w.version.value != v.number && (t.Rows(Backing(w)) == map[] ==> w.version.value < v.number)
  }

  // ---- Streams ---------------------------------------------------------------------------

  /** Setting one stream keeps the invariant when that stream meets it and clashes with no other. */
  lemma SetStreamInv(c: pos, w: World, fd: Fd, st: Stream)
    requires Inv(c, w)
    requires !st.w.closed ==> OwnLock(w.s, w.used, st) && OwnVersion(w.t, st) && Faithful(c, w.t, w.s, st)
    requires !st.w.closed ==> forall g | IsOpen(w, g) && g != fd ::
               Independent(w.t, w.s, st.w, w.streams[g].w) && Independent(w.t, w.s, w.streams[g].w, st.w)
    ensures Inv(c, WithStream(w, fd, st))
  {
    hide Represents, Sound, LocksOk;
    var w' := WithStream(w, fd, st);
    forall g | IsOpen(w', g)
      ensures OwnLock(w'.s, w'.used, w'.streams[g]) && OwnVersion(w'.t, w'.streams[g])
      ensures Faithful(c, w'.t, w'.s, w'.streams[g])
    {
      if g != fd { assert IsOpen(w, g); }
    }
    forall f, g | IsOpen(w', f) && IsOpen(w', g) && f != g
      ensures Independent(w'.t, w'.s, w'.streams[f].w, w'.streams[g].w)
    {
      if f != fd { assert IsOpen(w, f); }
      if g != fd { assert IsOpen(w, g); }
    }
  }

  lemma OpenInv(c: pos, w: World, w': World, fd: Fd, m: MountId, n: Node, mode: WriteMode, supplied: Option<LockId>,
                l: LockId)
    requires Inv(c, w) && StreamStep(c, w, w', Open(fd, m, n, mode, supplied, l))
    ensures Inv(c, w')
  {
    var lock := if supplied.Some? then supplied.value else l;
    var st := Stream(Opened(c, w.t, n, mode, lock, supplied.None?), m,
                     if mode == Overwriting then [] else BytesOf(w.t, n));
    OpenedRepresents(c, w.t, n, mode, lock, supplied.None?);
    var w1 := if supplied.Some? then w else w.(s := Locked(w.s, l, Lock(m, n, None)), used := w.used + {l});
    if supplied.None? {
      NewLockIsExclusive(w.s, w.used, l, Lock(m, n, None));
      NarrowedInv(c, w, w1);
    }
    hide Represents, Sound;
    forall g | IsOpen(w1, g) && g != fd
      ensures Independent(w1.t, w1.s, st.w, w1.streams[g].w) && Independent(w1.t, w1.s, w1.streams[g].w, st.w)
    {
      assert OwnVersion(w1.t, w1.streams[g]);
    }
    SetStreamInv(c, w1, fd, st);
  }

  predicate SamePlace(x: Stream, y: Stream) {
    && y.mount == x.mount && y.w.node == x.w.node && y.w.lock == x.w.lock && y.w.version == x.w.version
    && y.w.carrySource == x.w.carrySource && y.w.carryFull == x.w.carryFull && y.w.index == x.w.index
  }

  /** A change of the writer that leaves its place in the store alone. */
  lemma SamePlaceInv(c: pos, w: World, fd: Fd, st: Stream)
    requires Inv(c, w) && IsOpen(w, fd)
    requires SamePlace(w.streams[fd], st)
    requires !st.w.closed ==> Faithful(c, w.t, w.s, st)
    ensures Inv(c, WithStream(w, fd, st))
  {
    hide Represents, Sound, LocksOk;
    assert OwnLock(w.s, w.used, w.streams[fd]) && OwnVersion(w.t, w.streams[fd]);
    forall g | IsOpen(w, g) && g != fd
      ensures Independent(w.t, w.s, st.w, w.streams[g].w) && Independent(w.t, w.s, w.streams[g].w, st.w)
    {
      assert Independent(w.t, w.s, w.streams[fd].w, w.streams[g].w);
      assert Independent(w.t, w.s, w.streams[g].w, w.streams[fd].w);
    }
    SetStreamInv(c, w, fd, st);
  }

  lemma BufferInv(c: pos, w: World, w': World, fd: Fd, data: bytes)
    requires Inv(c, w) && StreamStep(c, w, w', Buffer(fd, data))
    ensures Inv(c, w')
  {
    var st := w.streams[fd];
    assert Faithful(c, w.t, w.s, st);
    if ValidLock(w.s, st.w.lock) { BufferedIsOverwrite(c, w.t, st.w, data, st.text); }
    hide Represents, Sound;
    SamePlaceInv(c, w, fd, w'.streams[fd]);
  }

  lemma SeekInv(c: pos, w: World, w': World, fd: Fd, position: nat)
    requires Inv(c, w) && StreamStep(c, w, w', Seek(fd, position))
    ensures Inv(c, w')
  {
    assert Faithful(c, w.t, w.s, w.streams[fd]);
    SamePlaceInv(c, w, fd, w'.streams[fd]);
  }

  /** Closing without publishing, with or without releasing the lock. */
  lemma DropInv(c: pos, w: World, fd: Fd, release: bool)
    requires Inv(c, w) && IsOpen(w, fd)
    ensures var st := w.streams[fd];
            Inv(c, WithStream(w.(s := if release then Released(w.s, st.w.lock) else w.s), fd,
                              st.(w := st.w.(closed := true))))
  {
    hide Represents, Sound, LocksOk;
    var st := w.streams[fd];
    SamePlaceInv(c, w, fd, st.(w := st.w.(closed := true)));
    var w1 := WithStream(w, fd, st.(w := st.w.(closed := true)));
    if release {
      ReleaseNarrows(w.s, w.used, st.w.lock);
      NarrowedInv(c, w1, w1.(s := Released(w.s, st.w.lock)));
      assert w1.(s := Released(w.s, st.w.lock)) == WithStream(w.(s := Released(w.s, st.w.lock)), fd, w1.streams[fd]);
    }
  }

  /** The version a writer stages under may be staged, and nobody else leans on it. */
  lemma TargetIsFree(c: pos, w: World, fd: Fd)
    requires Inv(c, w) && IsOpen(w, fd)
    ensures var x := w.streams[fd].w;
            && x.node in w.t.content
            && Target(w.t, x) > 0 && w.t.content[x.node].version != Target(w.t, x)
            && forall g | IsOpen(w, g) && g != fd && Leans(w.streams[g].w)
                  && (w.streams[g].w.version.Some? || ValidLock(w.s, w.streams[g].w.lock)) ::
                 Backing(w.streams[g].w) != Ver(x.node, Target(w.t, x))
  {
    hide Represents, Sound, LocksOk;
    var x := w.streams[fd].w;
    assert OwnVersion(w.t, w.streams[fd]);
    NextVersionIsFresh(w.t, x.node);
    forall g | IsOpen(w, g) && g != fd && Leans(w.streams[g].w)
        && (w.streams[g].w.version.Some? || ValidLock(w.s, w.streams[g].w.lock))
      ensures Backing(w.streams[g].w) != Ver(x.node, Target(w.t, x))
    {
      assert OwnVersion(w.t, w.streams[g]);
      if x.version.Some? {
        assert Independent(w.t, w.s, x, w.streams[g].w);
      } else if Ahead(w.t, w.streams[g].w) || ValidLock(w.s, w.streams[g].w.lock) {
        LeaningHasRows(c, w, g);
      }
    }
  }

  /** Should the writer's lock be valid, the pointer will not move to where it leaves anyone's lost rows above it. */
  lemma TargetIsAbove(c: pos, w: World, fd: Fd, g: Fd)
    requires Inv(c, w) && IsOpen(w, fd) && IsOpen(w, g) && g != fd
    requires ValidLock(w.s, w.streams[fd].w.lock) || w.streams[fd].w.version.None?
    ensures NotAbove(w.t, w.streams[g].w, Ver(w.streams[fd].w.node, Target(w.t, w.streams[fd].w)))
  {
    hide Represents, Sound, LocksOk;
    var x, y := w.streams[fd].w, w.streams[g].w;
    TargetIsFree(c, w, fd);
    NextVersionIsFresh(w.t, x.node);
    assert OwnVersion(w.t, w.streams[g]) && Independent(w.t, w.s, y, x);
    assert y.version.Some? ==> Leans(y);
  }

  /** Rows of the target alone changed: with `fd` set aside, everyone else is undisturbed. */
  lemma TargetStepInv(c: pos, w: World, fd: Fd, t': Tables)
    requires Inv(c, w) && IsOpen(w, fd) && Sound(c, t')
    requires var v := Ver(w.streams[fd].w.node, Target(w.t, w.streams[fd].w));
             && (forall u: Ver | u != v :: t'.Rows(u) == w.t.Rows(u)) && (w.t.Rows(v) != map[] ==> t'.Rows(v) != map[])
             && PoolGrows(w.t.pool, t'.pool) && t'.content.Keys == w.t.content.Keys
             && (forall o | o in w.t.content && o != v.node :: t'.content[o].version == w.t.content[o].version)
             && (v.node in w.t.content ==>
                   || t'.content[v.node].version == w.t.content[v.node].version
                   || (t'.content[v.node].version == v.number && ValidLock(w.s, w.streams[fd].w.lock)))
    ensures Inv(c, WithStream(w.(t := t'), fd, w.streams[fd].(w := w.streams[fd].w.(closed := true))))
  {
    hide Represents, Sound, LocksOk;
    var st := w.streams[fd];
    var v := Ver(st.w.node, Target(w.t, st.w));
    TargetIsFree(c, w, fd);
    DropInv(c, w, fd, false);
    var w1 := WithStream(w, fd, st.(w := st.w.(closed := true)));
    forall g | IsOpen(w1, g) ensures OwnVersion(t', w1.streams[g]) && Faithful(c, t', w1.s, w1.streams[g]) {
      assert IsOpen(w, g) && g != fd;
      BystanderKept(c, w, fd, g, t');
    }
    forall u: Ver | t'.Rows(u) != map[] ensures u.node in t'.content {
      if u != v { assert w.t.Rows(u) == t'.Rows(u); }
    }
    forall u: Ver | w.t.Rows(u) != map[] ensures t'.Rows(u) != map[] {
      if u != v { assert w.t.Rows(u) == t'.Rows(u); }
    }
    NobodyFallsBehind(c, w1, t');
    FramedInv(c, w1, w1.(t := t'));
    assert w1.(t := t') == WithStream(w.(t := t'), fd, w1.streams[fd]);
  }

  lemma BystanderKept(c: pos, w: World, fd: Fd, g: Fd, t': Tables)
    requires Inv(c, w) && IsOpen(w, fd) && IsOpen(w, g) && g != fd
    requires var v := Ver(w.streams[fd].w.node, Target(w.t, w.streams[fd].w));
             && (forall u: Ver | u != v :: t'.Rows(u) == w.t.Rows(u))
             && PoolGrows(w.t.pool, t'.pool) && t'.content.Keys == w.t.content.Keys
             && (forall o | o in w.t.content && o != v.node :: t'.content[o].version == w.t.content[o].version)
             && (v.node in w.t.content ==>
                   || t'.content[v.node].version == w.t.content[v.node].version
                   || (t'.content[v.node].version == v.number && ValidLock(w.s, w.streams[fd].w.lock)))
    ensures OwnVersion(t', w.streams[g]) && Faithful(c, t', w.s, w.streams[g])
  {
    hide Represents, Sound, LocksOk;
    var st := w.streams[fd];
    TargetIsFree(c, w, fd);
    if ValidLock(w.s, st.w.lock) { TargetIsAbove(c, w, fd, g); }
    OtherStreamKept(c, w, g, t', Ver(st.w.node, Target(w.t, st.w)));
  }

  lemma AddsIsSound(c: pos, t: Tables, x: Writer, t': Tables, data: bytes)
    requires Sound(c, t) && x.node in t.content && Target(t, x) > 0 && t.content[x.node].version != Target(t, x)
    requires Adds(t, t', Ver(x.node, Target(t, x)), Claimed(t, x), x.index, data)
    ensures Sound(c, t')
  {
    var v := Ver(x.node, Target(t, x));
    RowsPresent(t, v);
    RowsPresent(t, Ver(x.node, x.carrySource));
    forall i | i in t'.Rows(v) ensures t'.Rows(v)[i] in t'.pool {
      if i != x.index { assert i in Claimed(t, x) && Claimed(t, x)[i] in t.pool; }
    }
    hide Sound;
    StageMeaning(c, t, t', v);
  }

  lemma FlushInv(c: pos, w: World, w': World, fd: Fd)
    requires Inv(c, w) && StreamStep(c, w, w', Flush(fd))
    ensures Inv(c, w')
  {
    hide Represents, Sound, LocksOk, Claimed, NextVersion, Holds, BytesOf;
    var st, st' := w.streams[fd], w'.streams[fd];
    var v := Ver(st.w.node, Target(w.t, st.w));
    assert OwnLock(w.s, w.used, st) && Faithful(c, w.t, w.s, st);
    TargetIsFree(c, w, fd);
    AddsIsSound(c, w.t, st.w, w'.t, st.w.pending[..c]);
    TargetStepInv(c, w, fd, w'.t);
    var w1 := WithStream(w.(t := w'.t), fd, st.(w := st.w.(closed := true)));
    if ValidLock(w.s, st.w.lock) { FlushKeepsText(c, w.t, st.w, w'.t, st'.w, st.text); }
    assert Backing(st'.w) == v && st.w.index in w'.t.Rows(v);
    forall g | IsOpen(w1, g) && g != fd
      ensures Independent(w1.t, w1.s, st'.w, w1.streams[g].w) && Independent(w1.t, w1.s, w1.streams[g].w, st'.w)
    {
      assert IsOpen(w, g);
      FlushedIndependent(c, w, w', fd, g);
    }
    SetStreamInv(c, w1, fd, st');
    assert WithStream(w1, fd, st') == w';
  }

  /** Having claimed or extended its version, the writer stays clear of the others. */
  lemma FlushedIndependent(c: pos, w: World, w': World, fd: Fd, g: Fd)
    requires Inv(c, w) && StreamStep(c, w, w', Flush(fd)) && IsOpen(w, g) && g != fd
    ensures Independent(w'.t, w.s, w'.streams[fd].w, w.streams[g].w)
    ensures Independent(w'.t, w.s, w.streams[g].w, w'.streams[fd].w)
  {
    hide Represents, Sound, LocksOk, Claimed, NextVersion;
    var x, x', y := w.streams[fd].w, w'.streams[fd].w, w.streams[g].w;
    var v := Ver(x.node, Target(w.t, x));
    TargetIsFree(c, w, fd);
    NextVersionIsFresh(w.t, x.node);
    assert Backing(x') == v && x.index in w'.t.Rows(v) && w'.t.Rows(v) != map[];
    assert OwnVersion(w.t, w.streams[g]);
    assert Independent(w.t, w.s, y, x) && Independent(w.t, w.s, x, y);
  }

  lemma CloseInv(c: pos, w: World, w': World, fd: Fd)
    requires Inv(c, w) && StreamStep(c, w, w', Close(fd))
    ensures Inv(c, w')
  {
    hide Inv, Closes;
    if ValidLock(w.s, w.streams[fd].w.lock) {
      CloseHeldInv(c, w, w', fd);
    } else {
      DropInv(c, w, fd, false);
    }
  }

  lemma CloseShape(c: pos, w: World, w': World, fd: Fd)
    requires Inv(c, w) && StreamStep(c, w, w', Close(fd)) && ValidLock(w.s, w.streams[fd].w.lock)
    ensures LocksOk(w.s, w.used) && IsOpen(w, fd) && fd in w'.streams && w'.streams[fd].w.closed
    ensures var w2 := WithStream(w.(t := w'.t), fd, w'.streams[fd]);
            w' == if w.streams[fd].w.ownsLock then w2.(s := Released(w.s, w.streams[fd].w.lock)) else w2
  {
  }

  lemma SetTwice(w: World, fd: Fd, a: Stream, b: Stream)
    ensures WithStream(WithStream(w, fd, a), fd, b) == WithStream(w, fd, b)
  {
    assert w.streams[fd := a][fd := b] == w.streams[fd := b];
  }

  lemma CloseHeldInv(c: pos, w: World, w': World, fd: Fd)
    requires Inv(c, w) && StreamStep(c, w, w', Close(fd)) && ValidLock(w.s, w.streams[fd].w.lock)
    ensures Inv(c, w')
  {
    CloseShape(c, w, w', fd);
    CloseIsPublication(c, w, w', fd);
    hide Inv, StreamStep, Publishes, LocksOk;
    var st, st' := w.streams[fd], w'.streams[fd];
    var closed := st.(w := st.w.(closed := true));
    ClosedTargetInv(c, w, w', fd);
    SetStreamInv(c, WithStream(w.(t := w'.t), fd, closed), fd, st');
    SetTwice(w.(t := w'.t), fd, closed, st');
    if st.w.ownsLock {
      ReleaseNarrows(w.s, w.used, st.w.lock);
      NarrowedInv(c, WithStream(w.(t := w'.t), fd, st'), w');
    }
  }

  lemma ClosedTargetInv(c: pos, w: World, w': World, fd: Fd)
    requires Inv(c, w) && IsOpen(w, fd) && ValidLock(w.s, w.streams[fd].w.lock)
    requires Publishes(c, w.t, w'.t, w.streams[fd].w.node, Target(w.t, w.streams[fd].w), w.streams[fd].text)
    ensures Inv(c, WithStream(w.(t := w'.t), fd, w.streams[fd].(w := w.streams[fd].w.(closed := true))))
  {
    hide Inv, Publishes, Holds, Sound, Represents;
    CommitOf(c, w.t, w'.t, w.streams[fd].w.node, Target(w.t, w.streams[fd].w), w.streams[fd].text);
    ClosedHasRows(c, w, w', fd);
    hide Target;
    TargetStepInv(c, w, fd, w'.t);
  }

  /** A version that had rows has rows when published: a writer of nothing never claimed one. */
  lemma ClosedHasRows(c: pos, w: World, w': World, fd: Fd)
    requires Inv(c, w) && IsOpen(w, fd) && ValidLock(w.s, w.streams[fd].w.lock)
    requires Commits(c, w.t, w'.t, w.streams[fd].w.node, Target(w.t, w.streams[fd].w), w.streams[fd].text)
    ensures var v := Ver(w.streams[fd].w.node, Target(w.t, w.streams[fd].w)); w.t.Rows(v) != map[] ==>
              w'.t.Rows(v) != map[]
  {
    hide Sound, LocksOk, Chunk;
    var st := w.streams[fd];
    var v := Ver(st.w.node, Target(w.t, st.w));
    assert OwnVersion(w.t, st) && Faithful(c, w.t, w.s, st);
    NextVersionIsFresh(w.t, st.w.node);
    if st.w.version.Some? {
      StartOrder(c, 0, st.w.index);
      ChunkShape(st.text, c, 0);
      assert 0 in w'.t.Rows(v);
    }
  }

  /** A close under a valid lock publishes exactly what the writes amount to, and changes no other entry. */
  lemma CloseIsPublication(c: pos, w: World, w': World, fd: Fd)
    requires Inv(c, w) && StreamStep(c, w, w', Close(fd)) && ValidLock(w.s, w.streams[fd].w.lock)
    ensures Publishes(c, w.t, w'.t, w.streams[fd].w.node, Target(w.t, w.streams[fd].w), w.streams[fd].text)
  {
    var st := w.streams[fd];
    assert Faithful(c, w.t, w.s, st);
    TargetIsFree(c, w, fd);
    hide Represents, Sound, LocksOk;
    ClosePublishes(c, w.t, st.w, w'.t, w'.streams[fd].w, st.text);
  }

  // ---- Every step, every run -----------------------------------------------------------------

  lemma StepInv(c: pos, w: World, w': World, a: Action)
    requires Inv(c, w) && Step(c, w, w', a) && CollectSafe(w, a)
    ensures Inv(c, w')
  {
    hide Inv;
    if SessionStep(w, w', a) {
      SessionInv(c, w, w', a);
    } else {
      match a
      case Collect(scope) => CollectInv(c, w, w', scope);
      case Create(n, kind, data) => CreateInv(c, w, w', n, kind, data);
      case EditEntry(m, n, e) => EditInv(c, w, w', m, n, e);
      case SetKeep(n, keep) => SetKeepInv(c, w, w', n, keep);
      case Open(fd, m, n, mode, supplied, l) => OpenInv(c, w, w', fd, m, n, mode, supplied, l);
      case Buffer(fd, data) => BufferInv(c, w, w', fd, data);
      case Seek(fd, position) => SeekInv(c, w, w', fd, position);
      case Flush(fd) => FlushInv(c, w, w', fd);
      case Close(fd) => CloseInv(c, w, w', fd);
      case Abort(fd) => DropInv(c, w, fd, w.streams[fd].w.ownsLock);
      case _ =>
    }
  }

  /** A run: consecutive worlds joined by actions. */
  ghost predicate Run(c: pos, ws: seq<World>, acts: seq<Action>) {
    |ws| == |acts| + 1 && forall i | 0 <= i < |acts| :: Step(c, ws[i], ws[i + 1], acts[i])
  }

  lemma {:induction false} RunInv(c: pos, ws: seq<World>, acts: seq<Action>, k: nat)
    requires Run(c, ws, acts) && Inv(c, ws[0]) && k < |ws|
    requires forall i | 0 <= i < |acts| :: CollectSafe(ws[i], acts[i])
    ensures Inv(c, ws[k])
  {
    hide Inv, Step, CollectSafe;
    if k > 0 {
      RunInv(c, ws, acts, k - 1);
      StepInv(c, ws[k - 1], ws[k], acts[k - 1]);
    }
  }

  /** Locking alone asks nothing of collections: in every run each node is held by one mount at most. */
  lemma {:induction false} RunLocks(c: pos, ws: seq<World>, acts: seq<Action>, k: nat)
    requires Run(c, ws, acts) && LocksOk(ws[0].s, ws[0].used) && k < |ws|
    ensures LocksOk(ws[k].s, ws[k].used)
  {
    hide Step, LocksOk;
    if k > 0 {
      RunLocks(c, ws, acts, k - 1);
      StepLocks(c, ws[k - 1], ws[k], acts[k - 1]);
    }
  }

  /** Nor does any action revive a lock that has become invalid. */
  lemma StepLocks(c: pos, w: World, w': World, a: Action)
    requires LocksOk(w.s, w.used) && Step(c, w, w', a)
    ensures LocksOk(w'.s, w'.used) && Narrows(w.s, w'.s, w.used) && w.used <= w'.used
  {
    hide LocksOk, Narrows, Closes, Flushes, Did, Born, Pruned;
    NothingNarrower(w.s, w.used);
    if SessionStep(w, w', a) {
      SessionNarrows(w, w', a);
    } else {
      match a
      case Open(fd, m, n, mode, supplied, l) =>
        if supplied.None? { OpenLocks(w.s, w.kinds, w.used, m, n, mode, l); }
      case Close(fd) => ReleaseNarrows(w.s, w.used, w.streams[fd].w.lock);
      case Abort(fd) => ReleaseNarrows(w.s, w.used, w.streams[fd].w.lock);
      case _ =>
    }
  }

  lemma NothingNarrower(s: Sessions, used: set<LockId>)
    requires LocksOk(s, used)
    ensures Narrows(s, s, used)
  {
  }

  lemma OpenLocks(s: Sessions, kinds: map<Node, Kind>, used: set<LockId>, m: MountId, n: Node, mode: WriteMode,
                  l: LockId)
    requires LocksOk(s, used) && OpenRefusal(s, kinds, m, n, mode, None).None? && l !in used
    ensures Narrows(s, Locked(s, l, Lock(m, n, None)), used) && LocksOk(Locked(s, l, Lock(m, n, None)), used + {l})
  {
    NewLockIsExclusive(s, used, l, Lock(m, n, None));
  }

  /** The volume before anyone has mounted it. */
  function EmptyWorld(): World {
    World(map[], Tables(map[], map[], map[]), Sessions(map[], map[], 0), {}, map[])
  }

  lemma EmptyInv(c: pos)
    ensures Inv(c, EmptyWorld())
  {
  }

  /**
    In every run in which collections are safe, a close under a valid lock
    publishes exactly the flat result of the writer's writes, whatever else
    happened in between; without one, or on abort, it publishes nothing.
   */
  lemma ClosePublishesInEveryRun(c: pos, ws: seq<World>, acts: seq<Action>, k: nat, fd: Fd)
    requires Run(c, ws, acts) && Inv(c, ws[0]) && k < |acts|
    requires forall i | 0 <= i < |acts| :: CollectSafe(ws[i], acts[i])
    requires acts[k] == Close(fd) || acts[k] == Abort(fd)
    ensures IsOpen(ws[k], fd)
    ensures acts[k] == Close(fd) && ValidLock(ws[k].s, ws[k].streams[fd].w.lock) ==>
              && BytesOf(ws[k + 1].t, ws[k].streams[fd].w.node) == ws[k].streams[fd].text
              && forall o | o != ws[k].streams[fd].w.node :: BytesOf(ws[k + 1].t, o) == BytesOf(ws[k].t, o)
    ensures acts[k] == Abort(fd) || !ValidLock(ws[k].s, ws[k].streams[fd].w.lock) ==> ws[k + 1].t == ws[k].t
  {
    RunInv(c, ws, acts, k);
    assert Step(c, ws[k], ws[k + 1], acts[k]);
    hide Inv;
    if acts[k] == Close(fd) && ValidLock(ws[k].s, ws[k].streams[fd].w.lock) {
      CloseIsPublication(c, ws[k], ws[k + 1], fd);
    }
  }

  // ---- The text is the writes, replayed ------------------------------------------------------------

  /** The writes and seeks of `fd` among `acts`, replayed on flat bytes. */
  function Replay(text: bytes, position: nat, acts: seq<Action>, fd: Fd): (bytes, nat)
  {
    if acts == [] then (text, position)
    else
      var (done, at) := Replay(text, position, acts[..|acts| - 1], fd);
      match acts[|acts| - 1]
      case Buffer(f, data) => if f == fd then (Overwrite(done, at, data), at + |data|) else (done, at)
      case Seek(f, p) => if f == fd then (done, p) else (done, at)
      case _ => (done, at)
  }

  lemma StepReplays(c: pos, w: World, w': World, a: Action, fd: Fd)
    requires Step(c, w, w', a) && fd in w.streams && IsOpen(w', fd)
    ensures IsOpen(w, fd) && w'.streams[fd].w.node == w.streams[fd].w.node
    ensures (w'.streams[fd].text, w'.streams[fd].w.position)
            == Replay(w.streams[fd].text, w.streams[fd].w.position, [a], fd)
  {
    hide SessionStep, Flushes, Closes, Born, Did, Pruned, Overwrite, Opened, OpenRefusal, Refusal;
    var x := w.streams[fd];
    assert Replay(x.text, x.w.position, [a][..0], fd) == (x.text, x.w.position);
    if SessionStep(w, w', a) {
      SessionKeepsTables(w, w', a);
    } else if a.Flush? {
      FlushedWriter(c, w.t, w.streams[a.fd].w, w'.t, w'.streams[a.fd].w);
    } else if a.Close? && ValidLock(w.s, w.streams[a.fd].w.lock) {
      ClosedWriter(w.t, w.streams[a.fd].w, w'.t, w'.streams[a.fd].w);
    }
  }

  /** What a flush leaves of the writer. */
  lemma FlushedWriter(c: pos, t: Tables, x: Writer, t': Tables, x': Writer)
    requires Flushes(c, t, x, t', x')
    ensures (x'.node, x'.lock, x'.position, x'.version, x'.closed)
            == (x.node, x.lock, x.position, Some(Target(t, x)), x.closed)
  {
    hide Adds, Target;
  }

  lemma ClosedWriter(t: Tables, x: Writer, t': Tables, x': Writer)
    requires Closes(t, x, t', x')
    ensures x'.closed
  {
    hide Finishes, Target;
  }

  /** Between any two moments of a run, an open writer's text and cursor are its writes and seeks replayed. */
  lemma {:induction false} TextIsReplay(c: pos, ws: seq<World>, acts: seq<Action>, i: nat, k: nat, fd: Fd)
    requires Run(c, ws, acts) && i <= k < |ws| && fd in ws[i].streams && IsOpen(ws[k], fd)
    ensures IsOpen(ws[i], fd) && ws[k].streams[fd].w.node == ws[i].streams[fd].w.node
    ensures (ws[k].streams[fd].text, ws[k].streams[fd].w.position)
            == Replay(ws[i].streams[fd].text, ws[i].streams[fd].w.position, acts[i..k], fd)
  {
    hide Step, Replay;
    if i < k {
      StreamsStay(c, ws, acts, i, k - 1, fd);
      assert Step(c, ws[k - 1], ws[k], acts[k - 1]);
      StepReplays(c, ws[k - 1], ws[k], acts[k - 1], fd);
      TextIsReplay(c, ws, acts, i, k - 1, fd);
      ReplayOneMore(ws[i].streams[fd].text, ws[i].streams[fd].w.position, acts[i..k - 1], acts[k - 1], fd);
      assert acts[i..k] == acts[i..k - 1] + [acts[k - 1]];
    } else {
      NothingToReplay(ws[i].streams[fd].text, ws[i].streams[fd].w.position, acts[i..k], fd);
    }
  }

  lemma NothingToReplay(text: bytes, position: nat, acts: seq<Action>, fd: Fd)
    requires acts == []
    ensures Replay(text, position, acts, fd) == (text, position)
  {
  }

  lemma ReplayOneMore(text: bytes, position: nat, acts: seq<Action>, a: Action, fd: Fd)
    ensures var (done, at) := Replay(text, position, acts, fd);
            Replay(text, position, acts + [a], fd) == Replay(done, at, [a], fd)
  {
    assert (acts + [a])[..|acts|] == acts;
    assert [a][..0] == [];
  }

  lemma StepKeepsStreams(c: pos, w: World, w': World, a: Action)
    requires Step(c, w, w', a)
    ensures w.streams.Keys <= w'.streams.Keys
  {
    hide SessionStep, Closes, Flushes, Born, Did, Pruned, Overwrite, Opened, OpenRefusal, Refusal;
    if SessionStep(w, w', a) { SessionKeepsTables(w, w', a); }
  }

  lemma {:induction false} StreamsStay(c: pos, ws: seq<World>, acts: seq<Action>, i: nat, k: nat, fd: Fd)
    requires Run(c, ws, acts) && i <= k < |ws| && fd in ws[i].streams
    ensures fd in ws[k].streams
  {
    hide Step;
    if i < k {
      StreamsStay(c, ws, acts, i, k - 1, fd);
      assert Step(c, ws[k - 1], ws[k], acts[k - 1]);
      StepKeepsStreams(c, ws[k - 1], ws[k], acts[k - 1]);
    }
  }

  /**
    From open to close in any run: what a successful close publishes is the
    writer's own writes and seeks replayed over the bytes it opened with.
   */
  lemma OpenToClose(c: pos, ws: seq<World>, acts: seq<Action>, i: nat, k: nat)
    requires Run(c, ws, acts) && Inv(c, ws[0]) && i < k < |acts|
    requires forall j | 0 <= j < |acts| :: CollectSafe(ws[j], acts[j])
    requires acts[i].Open? && acts[k] == Close(acts[i].fd) && IsOpen(ws[k], acts[i].fd)
    requires ValidLock(ws[k].s, ws[k].streams[acts[i].fd].w.lock)
    ensures var a := acts[i];
            var start := if a.mode == Overwriting then [] else BytesOf(ws[i].t, a.n);
            BytesOf(ws[k + 1].t, a.n) == Replay(start, |start|, acts[i + 1..k], a.fd).0
  {
    hide Inv, Step, CollectSafe, Replay;
    var a := acts[i];
    ClosePublishesInEveryRun(c, ws, acts, k, a.fd);
    RunInv(c, ws, acts, i);
    assert Step(c, ws[i], ws[i + 1], a);
    OpenedStream(c, ws[i], ws[i + 1], a);
    TextIsReplay(c, ws, acts, i + 1, k, a.fd);
  }

  /** A writer starts out standing for what it opened, with the cursor at the end. */
  lemma OpenedStream(c: pos, w: World, w': World, a: Action)
    requires Inv(c, w) && Step(c, w, w', a) && a.Open?
    ensures var start := if a.mode == Overwriting then [] else BytesOf(w.t, a.n);
            && a.fd in w'.streams && w'.streams[a.fd].w.node == a.n
            && w'.streams[a.fd].text == start && w'.streams[a.fd].w.position == |start|
  {
    InvIsSound(c, w);
    hide Inv;
    OpenedRepresents(c, w.t, a.n, a.mode, w'.streams[a.fd].w.lock, a.supplied.None?);
    hide Represents;
  }

  // ---- Locks protect content --------------------------------------------------------------------

  /** The mount on whose behalf an action runs, where it runs on behalf of one. */
  function Actor(w: World, a: Action): Option<MountId> {
    match a
    case EditEntry(m, _, _) => Some(m)
    case Close(fd) => if fd in w.streams then Some(w.streams[fd].mount) else None
    case _ => None
  }

  /** While a mount holds a valid lock on a node, only that mount changes the node's committed bytes. */
  lemma OnlyTheHolderChanges(c: pos, w: World, w': World, a: Action, l: LockId)
    requires Inv(c, w) && Step(c, w, w', a)
    requires ValidLock(w.s, l)
    requires w.s.locks[l].node in w.t.content
    requires BytesOf(w'.t, w.s.locks[l].node) != BytesOf(w.t, w.s.locks[l].node)
    ensures Actor(w, a) == Some(w.s.locks[l].mount)
  {
    hide BytesOf, Inv, Pruned, Closes, Flushes, Did, Born, LocksOk, SessionStep;
    if SessionStep(w, w', a) {
      SessionKeepsTables(w, w', a);
    } else {
      match a
      case EditEntry(m, o, e) => EditIsOwn(c, w, w', m, o, e, l);
      case Flush(fd) => FlushKeepsBytes(c, w, w', fd);
      case Close(fd) => CloseIsOwn(c, w, w', fd, l);
      case _ => if ContentStep(c, w, w', a) { UpkeepKeepsBytes(c, w, w', a); }
    }
  }

  lemma SessionKeepsTables(w: World, w': World, a: Action)
    requires SessionStep(w, w', a)
    ensures w'.t == w.t && w'.streams == w.streams && !a.Buffer? && !a.Seek?
  {
  }

  /** Collecting, creating and setting a policy change no bytes of the entries there are. */
  lemma UpkeepKeepsBytes(c: pos, w: World, w': World, a: Action)
    requires Inv(c, w) && ContentStep(c, w, w', a) && !a.EditEntry?
    ensures forall o | o in w.t.content :: BytesOf(w'.t, o) == BytesOf(w.t, o)
  {
    hide BytesOf, Inv, Pruned;
    InvIsSound(c, w);
    match a
    case Collect(scope) => PruneKeepsBytes(c, w.t, w.s, scope);
    case Create(o, kind, data) => BornKeepsOthers(c, w.t, w'.t, o, data);
    case SetKeep(o, keep) => KeepIsSound(c, w.t, o, keep);
  }

  lemma OthersHold(s: Sessions, l: LockId, m: MountId)
    requires ValidLock(s, l)
    ensures s.locks[l].mount != m ==> HeldByOther(s, s.locks[l].node, m)
  {
  }

  lemma InvIsSound(c: pos, w: World)
    requires Inv(c, w)
    ensures Sound(c, w.t)
  {
  }

  lemma EditIsOwn(c: pos, w: World, w': World, m: MountId, o: Node, e: Edit, l: LockId)
    requires Inv(c, w) && ContentStep(c, w, w', EditEntry(m, o, e)) && ValidLock(w.s, l)
    requires BytesOf(w'.t, w.s.locks[l].node) != BytesOf(w.t, w.s.locks[l].node)
    ensures m == w.s.locks[l].mount
  {
    hide BytesOf, Inv;
    var n := w.s.locks[l].node;
    OthersHold(w.s, l, m);
  }

  lemma CloseIsOwn(c: pos, w: World, w': World, fd: Fd, l: LockId)
    requires Inv(c, w) && StreamStep(c, w, w', Close(fd)) && ValidLock(w.s, l)
    requires BytesOf(w'.t, w.s.locks[l].node) != BytesOf(w.t, w.s.locks[l].node)
    ensures w.streams[fd].mount == w.s.locks[l].mount
  {
    hide BytesOf, Sound;
    if ValidLock(w.s, w.streams[fd].w.lock) {
      CloseIsPublication(c, w, w', fd);
      assert OwnLock(w.s, w.used, w.streams[fd]);
    }
  }

  /** Staging is invisible: a flush changes no committed bytes, whether or not the writer still holds its lock. */
  lemma FlushKeepsBytes(c: pos, w: World, w': World, fd: Fd)
    requires Inv(c, w) && StreamStep(c, w, w', Flush(fd))
    ensures forall o :: BytesOf(w'.t, o) == BytesOf(w.t, o)
  {
    var x := w.streams[fd].w;
    TargetIsFree(c, w, fd);
    AddsIsSound(c, w.t, x, w'.t, x.pending[..c]);
    var v := Ver(x.node, Target(w.t, x));
    forall o ensures BytesOf(w'.t, o) == BytesOf(w.t, o) {
      if o in w.t.content {
        assert w'.t.Committed(o) == w.t.Committed(o);
        KeptEntry(c, w.t, w'.t, o);
      }
    }
  }

  // ---- Safe collections are enough ---------------------------------------------------------------

  ghost predicate SafeRun(c: pos, ws: seq<World>, acts: seq<Action>) {
    Run(c, ws, acts) && forall i | 0 <= i < |acts| :: CollectSafe(ws[i], acts[i])
  }

  /** A close under a valid lock publishes the writer's text. */
  ghost predicate ClosesRight(w: World, w': World, a: Action) {
    a.Close? && IsOpen(w, a.fd) && ValidLock(w.s, w.streams[a.fd].w.lock) ==>
      BytesOf(w'.t, w.streams[a.fd].w.node) == w.streams[a.fd].text
  }

  /** While a mount holds a valid lock on a node, no action but its own changes the node's committed bytes. */
  ghost predicate OnlyHolders(w: World, w': World, a: Action) {
    forall l | ValidLock(w.s, l) && w.s.locks[l].node in w.t.content
               && BytesOf(w'.t, w.s.locks[l].node) != BytesOf(w.t, w.s.locks[l].node) ::
      Actor(w, a) == Some(w.s.locks[l].mount)
  }

  /** From here on, whatever happens but for unsafe collections, every close is right. */
  ghost predicate Trusted(c: pos, w: World) {
    forall ws: seq<World>, acts: seq<Action>, w', a |
      SafeRun(c, ws, acts) && ws[0] == w && Step(c, ws[|acts|], w', a) && CollectSafe(ws[|acts|], a) ::
      ClosesRight(ws[|acts|], w', a)
  }

  /** From here on, whatever happens but for unsafe collections, locks protect content. */
  ghost predicate Protected(c: pos, w: World) {
    forall ws: seq<World>, acts: seq<Action>, w', a |
      SafeRun(c, ws, acts) && ws[0] == w && Step(c, ws[|acts|], w', a) && CollectSafe(ws[|acts|], a) ::
      OnlyHolders(ws[|acts|], w', a)
  }

  lemma InvIsTrusted(c: pos, w: World)
    requires Inv(c, w)
    ensures Trusted(c, w) && Protected(c, w)
  {
    hide Inv, Step, OnlyHolders, ClosesRight, CollectSafe;
    forall ws: seq<World>, acts: seq<Action>, w', a |
      SafeRun(c, ws, acts) && ws[0] == w && Step(c, ws[|acts|], w', a) && CollectSafe(ws[|acts|], a)
      ensures ClosesRight(ws[|acts|], w', a) && OnlyHolders(ws[|acts|], w', a)
    {
      RunInv(c, ws, acts, |acts|);
      StepIsRight(c, ws[|acts|], w', a);
    }
  }

  lemma StepIsRight(c: pos, w: World, w': World, a: Action)
    requires Inv(c, w) && Step(c, w, w', a)
    ensures ClosesRight(w, w', a) && OnlyHolders(w, w', a)
  {
    hide Inv, BytesOf;
    forall l | ValidLock(w.s, l) && w.s.locks[l].node in w.t.content
               && BytesOf(w'.t, w.s.locks[l].node) != BytesOf(w.t, w.s.locks[l].node)
      ensures Actor(w, a) == Some(w.s.locks[l].mount)
    {
      OnlyTheHolderChanges(c, w, w', a, l);
    }
    if a.Close? && IsOpen(w, a.fd) && ValidLock(w.s, w.streams[a.fd].w.lock) { CloseIsPublication(c, w, w', a.fd); }
  }
}
