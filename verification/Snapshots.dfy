/**
  Reading while others write. A read takes the committed pointer first and the
  chunks afterwards. In between anything may happen, the pointer may move on or
  back; only a collection can take the version read from under the reader.
 */
module Snapshots {
  import opened Wrappers
  import opened Flat
  import opened Chunking
  import opened Sessions
  import opened Tables
  import opened Store
  import opened Collector
  import opened Reading
  import opened Streaming
  import opened Protocol
  import opened Reissue

  /** No open writer has claimed version `u`. */
  ghost predicate Unclaimed(w: World, u: Ver) {
    forall fd | IsOpen(w, fd) && w.streams[fd].w.version.Some? :: Backing(w.streams[fd].w) != u
  }

  /** Version `u` holds `f`, which is not empty, and nobody is staging rows under its number. */
  ghost predicate Kept(c: pos, w: World, u: Ver, f: bytes) {
    f != [] && u.node in w.t.content && Holds(w.t.pool, w.t.Rows(u), c, f) && Unclaimed(w, u)
  }

  /** A collection retains `u`, because the view does, its node is locked, or it is out of scope. */
  predicate Retains(w: World, a: Action, u: Ver) {
    a.Collect? ==> Survives(w.t, w.s, a.scope, u)
  }

  /** The committed version of an entry is one nobody has claimed. */
  lemma CommittedKept(c: pos, w: World, n: Node)
    requires Inv(c, w) && n in w.t.content && BytesOf(w.t, n) != []
    ensures Kept(c, w, Ver(n, w.t.content[n].version), BytesOf(w.t, n))
  {
    hide Represents, LocksOk, Holds, BytesOf;
    EntryHeld(c, w.t, n);
    var u := Ver(n, w.t.content[n].version);
    forall fd | IsOpen(w, fd) && w.streams[fd].w.version.Some? ensures Backing(w.streams[fd].w) != u {
      assert OwnVersion(w.t, w.streams[fd]);
    }
  }

  lemma KeptHasRows(c: pos, w: World, u: Ver, f: bytes)
    requires Kept(c, w, u, f)
    ensures w.t.Rows(u) != map[]
  {
    ChunkShape(f, c, 0);
    assert 0 in w.t.Rows(u);
  }

  // ---- What others do to a version ---------------------------------------------------------

  /** The rows and chunks of `u` are what they were, and more chunks may have come. */
  ghost predicate Untouched(t: Tables, t': Tables, u: Ver) {
    t'.Rows(u) == t.Rows(u) && PoolGrows(t.pool, t'.pool)
  }

  lemma UntouchedHolds(c: pos, t: Tables, t': Tables, u: Ver, f: bytes)
    requires Untouched(t, t', u) && Holds(t.pool, t.Rows(u), c, f)
    ensures Holds(t'.pool, t'.Rows(u), c, f)
  {
  }

  /** A version that has rows, or lies below the pointer, is not the next to be given out. */
  lemma NotTheNext(t: Tables, u: Ver)
    requires u.node in t.content && (t.Rows(u) != map[] || u.number < t.content[u.node].version)
    ensures u.number != NextVersion(t, u.node)
  {
    NextVersionIsFresh(t, u.node);
  }

  /** Nobody but a collector and the writers who claimed it touches a version that is not the next. */
  lemma StepLeavesVersion(c: pos, w: World, w': World, a: Action, u: Ver)
    requires Inv(c, w) && Step(c, w, w', a) && !a.Collect?
    requires u.node in w.t.content && Unclaimed(w, u) && u.number != NextVersion(w.t, u.node)
    ensures Untouched(w.t, w'.t, u) && u.node in w'.t.content
  {
    hide Inv, Sound, Holds, BytesOf, NextVersion, SessionStep, Unclaimed, Target, Refusal, OpenRefusal, Opened,
         Overwrite, Claimed;
    if SessionStep(w, w', a) {
      SessionKeepsTables(w, w', a);
    } else {
      match a
      case Create(n, kind, data) => CreateLeaves(c, w, w', n, kind, data, u);
      case EditEntry(m, n, e) =>
      case SetKeep(n, keep) =>
      case Flush(fd) => TargetIsOther(w, fd, u);
      case Close(fd) =>
        TargetIsOther(w, fd, u);
        if ValidLock(w.s, w.streams[fd].w.lock) { CloseIsPublication(c, w, w', fd); }
      case _ =>
    }
  }

  lemma CreateLeaves(c: pos, w: World, w': World, n: Node, kind: Kind, data: bytes, u: Ver)
    requires Inv(c, w) && ContentStep(c, w, w', Create(n, kind, data)) && u.node in w.t.content
    ensures Untouched(w.t, w'.t, u) && u.node in w'.t.content
  {
    hide Sound, Holds, BytesOf;
  }

  lemma TargetIsOther(w: World, fd: Fd, u: Ver)
    requires IsOpen(w, fd) && Unclaimed(w, u) && u.number != NextVersion(w.t, u.node)
    ensures Ver(w.streams[fd].w.node, Target(w.t, w.streams[fd].w)) != u
  {
    hide NextVersion;
    var x := w.streams[fd].w;
    if x.version.Some? { assert Backing(x) != u; }
  }

  /** Nor does anybody claim it. */
  lemma StepLeavesUnclaimed(c: pos, w: World, w': World, a: Action, u: Ver)
    requires Step(c, w, w', a) && Unclaimed(w, u) && u.number != NextVersion(w.t, u.node)
    ensures Unclaimed(w', u)
  {
    hide NextVersion, Did, Born, Closes, Adds, Pruned, SessionStep, ContentStep, Overwrite;
    forall fd | IsOpen(w', fd) && w'.streams[fd].w.version.Some? ensures Backing(w'.streams[fd].w) != u {
      StreamBefore(c, w, w', a, fd);
      if w'.streams[fd].w.version != w.streams[fd].w.version { TargetIsOther(w, fd, u); }
    }
  }

  /** A writer with a version had it before, or has just claimed it by a flush. */
  lemma StreamBefore(c: pos, w: World, w': World, a: Action, fd: Fd)
    requires Step(c, w, w', a) && IsOpen(w', fd) && w'.streams[fd].w.version.Some?
    ensures IsOpen(w, fd) && w'.streams[fd].w.node == w.streams[fd].w.node
    ensures w'.streams[fd].w.lock == w.streams[fd].w.lock
    ensures w'.streams[fd].w.version == w.streams[fd].w.version
            || w'.streams[fd].w.version == Some(Target(w.t, w.streams[fd].w))
  {
    hide SessionStep, NextVersion, Did, Born, Closes, Flushes, Pruned, Overwrite, Target, OpenRefusal;
    if SessionStep(w, w', a) {
      SessionKeepsTables(w, w', a);
    } else if a.Flush? {
      FlushedWriter(c, w.t, w.streams[a.fd].w, w'.t, w'.streams[a.fd].w);
    } else if a.Close? && ValidLock(w.s, w.streams[a.fd].w.lock) {
      ClosedWriter(w.t, w.streams[a.fd].w, w'.t, w'.streams[a.fd].w);
    }
  }

  // ---- Step by step -----------------------------------------------------------------------------

  /** A step leaves a version to its readers exactly when it is no collection that does not retain it. */
  lemma StepKept(c: pos, w: World, w': World, a: Action, u: Ver, f: bytes)
    requires Inv(c, w) && Step(c, w, w', a) && Kept(c, w, u, f)
    ensures Kept(c, w', u, f) <==> Retains(w, a, u)
    ensures !Retains(w, a, u) ==> w'.t.Rows(u) == map[]
  {
    hide Inv, Step, Holds, NextVersion, Unclaimed, Survives;
    KeptHasRows(c, w, u, f);
    NotTheNext(w.t, u);
    StepLeavesUnclaimed(c, w, w', a, u);
    if a.Collect? {
      CollectedVersion(c, w, w', a.scope, u, f);
      if !Retains(w, a, u) && Kept(c, w', u, f) { KeptHasRows(c, w', u, f); }
    } else {
      StepLeavesVersion(c, w, w', a, u);
      UntouchedHolds(c, w.t, w'.t, u, f);
    }
  }

  lemma CollectedVersion(c: pos, w: World, w': World, scope: Option<set<Node>>, u: Ver, f: bytes)
    requires Inv(c, w) && Step(c, w, w', Collect(scope)) && Holds(w.t.pool, w.t.Rows(u), c, f)
    ensures w' == w.(t := w'.t) && w'.t.content == w.t.content
    ensures if Survives(w.t, w.s, scope, u) then Holds(w'.t.pool, w'.t.Rows(u), c, f) else w'.t.Rows(u) == map[]
  {
    hide Survives, Chunk;
    InvIsSound(c, w);
    SoundResolves(c, w.t);
    hide Inv;
    PrunedRows(w.t, w.s, scope, u);
  }

  // ---- Whole runs ----------------------------------------------------------------------------------

  /** As long as every collection retains it, the version stays as it was read. */
  lemma {:induction false} SnapshotStays(c: pos, ws: seq<World>, acts: seq<Action>, u: Ver, f: bytes, k: nat)
    requires SafeRun(c, ws, acts) && Inv(c, ws[0]) && Kept(c, ws[0], u, f) && k <= |acts|
    requires forall i | 0 <= i < k :: Retains(ws[i], acts[i], u)
    ensures Kept(c, ws[k], u, f)
  {
    hide Inv, Step, CollectSafe, Kept, Retains;
    if k > 0 {
      SnapshotStays(c, ws, acts, u, f, k - 1);
      RunInv(c, ws, acts, k - 1);
      assert Step(c, ws[k - 1], ws[k - 1 + 1], acts[k - 1]);
      StepKept(c, ws[k - 1], ws[k], acts[k - 1], u, f);
    }
  }

  /**
    A ranged read takes the pointer at one moment of a run and the chunks at a
    later one. It gives the exact slice of what was committed when the pointer
    was taken, whatever has been committed, staged or edited since, as long as
    every collection in between retained that version.
   */
  lemma ReadAcrossRun(c: pos, ws: seq<World>, acts: seq<Action>, n: Node, k: nat, start: nat, end: nat)
    requires SafeRun(c, ws, acts) && Inv(c, ws[0]) && n in ws[0].t.content && k <= |acts|
    requires start < end <= |BytesOf(ws[0].t, n)|
    requires var u := Ver(n, ws[0].t.content[n].version); forall i | 0 <= i < k :: Retains(ws[i], acts[i], u)
    ensures var u := Ver(n, ws[0].t.content[n].version);
            Ranged(c, ws[k].t, u, start, end) == BytesOf(ws[0].t, n)[start..end]
  {
    hide Inv, Step, CollectSafe, Retains, BytesOf, Holds;
    var u, f := Ver(n, ws[0].t.content[n].version), BytesOf(ws[0].t, n);
    CommittedKept(c, ws[0], n);
    SnapshotStays(c, ws, acts, u, f, k);
    RangedHeld(c, ws[k].t, u, f, start, end);
  }

  /** The first collection that does not leaves the read with nothing at all. */
  lemma FirstLossBreaks(c: pos, ws: seq<World>, acts: seq<Action>, n: Node, k: nat, start: nat, end: nat)
    requires SafeRun(c, ws, acts) && Inv(c, ws[0]) && n in ws[0].t.content && k < |acts|
    requires start < end <= |BytesOf(ws[0].t, n)|
    requires var u := Ver(n, ws[0].t.content[n].version);
             (forall i | 0 <= i < k :: Retains(ws[i], acts[i], u)) && !Retains(ws[k], acts[k], u)
    ensures Ranged(c, ws[k + 1].t, Ver(n, ws[0].t.content[n].version), start, end) == []
  {
    hide Inv, Step, CollectSafe, Retains, BytesOf, Kept;
    var u, f := Ver(n, ws[0].t.content[n].version), BytesOf(ws[0].t, n);
    CommittedKept(c, ws[0], n);
    SnapshotStays(c, ws, acts, u, f, k);
    RunInv(c, ws, acts, k);
    assert Step(c, ws[k], ws[k + 1], acts[k]);
    StepKept(c, ws[k], ws[k + 1], acts[k], u, f);
    RangedGone(c, ws[k + 1].t, u, start, end);
  }

  // ---- After the loss ----------------------------------------------------------------------------------

  /**
    The version has no rows, lies below the pointer, and nobody who can move the
    pointer will move it that far back.
   */
  ghost predicate Gone(w: World, u: Ver) {
    && u.node in w.t.content && w.t.Rows(u) == map[] && u.number < w.t.content[u.node].version && Unclaimed(w, u)
    && forall fd | IsOpen(w, fd) && w.streams[fd].w.node == u.node && w.streams[fd].w.version.Some?
                   && ValidLock(w.s, w.streams[fd].w.lock) ::
         u.number < w.streams[fd].w.version.value
  }

  /** A superseded version is lost for good. */
  lemma LostIsGone(c: pos, w: World, w': World, a: Action, u: Ver, f: bytes)
    requires Inv(c, w) && Step(c, w, w', a) && Kept(c, w, u, f) && !Retains(w, a, u)
    requires u.number < w.t.content[u.node].version
    ensures Gone(w', u)
  {
    hide Inv, Holds, NextVersion, Represents, Sound, LocksOk;
    StepKept(c, w, w', a, u, f);
    KeptHasRows(c, w, u, f);
    NotTheNext(w.t, u);
    StepLeavesUnclaimed(c, w, w', a, u);
    CollectedVersion(c, w, w', a.scope, u, f);
    forall fd | IsOpen(w', fd) && w'.streams[fd].w.node == u.node ensures !ValidLock(w'.s, w'.streams[fd].w.lock) {
      if ValidLock(w.s, w.streams[fd].w.lock) { LockHolds(c, w, fd); }
    }
  }

  lemma LockHolds(c: pos, w: World, fd: Fd)
    requires Inv(c, w) && IsOpen(w, fd) && ValidLock(w.s, w.streams[fd].w.lock)
    ensures Held(w.s, w.streams[fd].w.node)
  {
    hide Represents, Sound, LocksOk;
    assert OwnLock(w.s, w.used, w.streams[fd]);
  }

  /** The pointer stays, or moves to the next version, or to that of a writer who closes under its valid lock. */
  lemma PointerMoves(c: pos, w: World, w': World, a: Action, n: Node)
    requires Inv(c, w) && Step(c, w, w', a) && n in w.t.content
    ensures n in w'.t.content
    ensures || w'.t.content[n].version == w.t.content[n].version
            || w'.t.content[n].version == NextVersion(w.t, n)
            || (&& a.Close? && IsOpen(w, a.fd) && ValidLock(w.s, w.streams[a.fd].w.lock) && w.streams[a.fd].w.node == n
                && w'.t.content[n].version == Target(w.t, w.streams[a.fd].w))
  {
    hide Inv, Sound, Holds, BytesOf, NextVersion, SessionStep, Target, Refusal, OpenRefusal, Opened, Overwrite,
         Pruned, Claimed;
    if SessionStep(w, w', a) {
      SessionKeepsTables(w, w', a);
    } else {
      match a
      case Close(fd) => if ValidLock(w.s, w.streams[fd].w.lock) { CloseIsPublication(c, w, w', fd); }
      case Create(m, kind, data) =>
        assert m != n by { KnownIsKnown(c, w, n); }
      case Collect(scope) => PrunedContent(w.t, w.s, scope);
      case _ =>
    }
  }

  lemma KnownIsKnown(c: pos, w: World, n: Node)
    requires Inv(c, w) && n in w.t.content
    ensures n in w.kinds
  {
  }

  lemma StepGone(c: pos, w: World, w': World, a: Action, u: Ver)
    requires Inv(c, w) && Step(c, w, w', a) && Gone(w, u)
    ensures Gone(w', u)
  {
    hide Inv, Step, Holds, NextVersion, Unclaimed, Sound, LocksOk, ValidLock, Narrows;
    NotTheNext(w.t, u);
    NextVersionIsFresh(w.t, u.node);
    StepLeavesUnclaimed(c, w, w', a, u);
    PointerMoves(c, w, w', a, u.node);
    RowsStayGone(c, w, w', a, u);
    forall fd | IsOpen(w', fd) && w'.streams[fd].w.node == u.node && w'.streams[fd].w.version.Some?
                && ValidLock(w'.s, w'.streams[fd].w.lock)
      ensures u.number < w'.streams[fd].w.version.value
    {
      StreamBefore(c, w, w', a, fd);
      LockBefore(c, w, w', a, fd);
    }
  }

  lemma RowsStayGone(c: pos, w: World, w': World, a: Action, u: Ver)
    requires Inv(c, w) && Step(c, w, w', a) && u.node in w.t.content && w.t.Rows(u) == map[] && Unclaimed(w, u)
    requires u.number != NextVersion(w.t, u.node)
    ensures w'.t.Rows(u) == map[]
  {
    hide Inv, NextVersion, Unclaimed, Survives, Resolves;
    if a.Collect? {
      InvIsSound(c, w);
      SoundResolves(c, w.t);
      PrunedRows(w.t, w.s, a.scope, u);
    } else {
      StepLeavesVersion(c, w, w', a, u);
    }
  }

  /** A lock that is valid after a step was valid before it. */
  lemma LockBefore(c: pos, w: World, w': World, a: Action, fd: Fd)
    requires Inv(c, w) && Step(c, w, w', a) && IsOpen(w, fd)
    ensures ValidLock(w'.s, w.streams[fd].w.lock) ==> ValidLock(w.s, w.streams[fd].w.lock)
  {
    hide Step, Represents, Sound, ValidLock;
    assert OwnLock(w.s, w.used, w.streams[fd]);
    StepLocks(c, w, w', a);
  }

  lemma {:induction false} StaysGone(c: pos, ws: seq<World>, acts: seq<Action>, u: Ver, k: nat)
    requires SafeRun(c, ws, acts) && Inv(c, ws[0]) && Gone(ws[0], u) && k <= |acts|
    ensures Gone(ws[k], u)
  {
    hide Inv, Step, CollectSafe, Gone;
    if k > 0 {
      StaysGone(c, ws, acts, u, k - 1);
      RunInv(c, ws, acts, k - 1);
      assert Step(c, ws[k - 1], ws[k - 1 + 1], acts[k - 1]);
      StepGone(c, ws[k - 1], ws[k], acts[k - 1], u);
    }
  }

  /**
    From the first loss of a superseded version on, whatever happens, its readers
    get nothing, and never other bytes.
   */
  lemma LostForGood(c: pos, ws: seq<World>, acts: seq<Action>, a: Action, w: World, u: Ver, f: bytes, k: nat,
                    start: nat, end: nat)
    requires Inv(c, w) && SafeRun(c, ws, acts) && Step(c, w, ws[0], a) && CollectSafe(w, a)
    requires Kept(c, w, u, f) && !Retains(w, a, u) && u.number < w.t.content[u.node].version
    requires k <= |acts| && start < end
    ensures Ranged(c, ws[k].t, u, start, end) == []
  {
    hide Inv, Step, CollectSafe, Retains, Kept;
    StepInv(c, w, ws[0], a);
    LostIsGone(c, w, ws[0], a, u, f);
    StaysGone(c, ws, acts, u, k);
    RangedGone(c, ws[k].t, u, start, end);
  }

  // ---- A pointer that moved back -------------------------------------------------------------------------

  /** The tables with version `v` of `n` committed, and one byte in it. */
  function OneByte(t: Tables, n: Node, v: nat, b: byte): Tables
    requires n in t.content
  {
    var a := AddressOf(Sealed([b], 0));
    Swapped(Tables(t.content, t.versions[Ver(n, v) := map[0 := a]], t.pool[a := Sealed([b], 0)]), n, v, 1)
  }

  lemma ByteHeld(c: pos, pool: Pool, b: byte)
    requires AddressOf(Sealed([b], 0)) in pool && pool[AddressOf(Sealed([b], 0))].plain == [b]
    ensures Holds(pool, map[0 := AddressOf(Sealed([b], 0))], c, [b])
  {
    forall i: nat ensures Chunk([b], c, i) == if i == 0 then [b] else [] {
      ChunkShape([b], c, i);
      if i > 0 { StartOrder(c, 1, i); }
    }
  }

  lemma BytePublished(c: pos, t: Tables, n: Node, v: nat, b: byte)
    requires Sound(c, t) && n in t.content && NextVersion(t, n) == v
    ensures Publishes(c, t, OneByte(t, n, v, b), n, v, [b])
  {
    hide NextVersion, EntrySound;
    NextVersionIsFresh(t, n);
    SoundChunks(c, t);
    var a := AddressOf(Sealed([b], 0));
    var t1 := Tables(t.content, t.versions[Ver(n, v) := map[0 := a]], t.pool[a := Sealed([b], 0)]);
    ByteHeld(c, t1.pool, b);
    assert t1.Rows(Ver(n, v)) == map[0 := a];
    assert Staged(c, t, t1, n, v, [b]);
    hide Holds, Sound;
    SwapPublishes(c, t, t1, n, v, [b]);
  }

  lemma EditsByte(c: pos, w: World, m: MountId, n: Node, v: nat, b: byte)
    requires Inv(c, w) && n in w.t.content && NextVersion(w.t, n) == v && Usable(w.s, m) && !HeldByOther(w.s, n, m)
    ensures Step(c, w, w.(t := OneByte(w.t, n, v, b)), EditEntry(m, n, Replace([b])))
    ensures Inv(c, w.(t := OneByte(w.t, n, v, b))) && BytesOf(OneByte(w.t, n, v, b), n) == [b]
  {
    hide NextVersion, Publishes, Represents, LocksOk, Sound, OneByte;
    InvIsSound(c, w);
    BytePublished(c, w.t, n, v, b);
    PublishedEdit(c, w.t, OneByte(w.t, n, v, b), n, Replace([b]));
    assert BytesOf(OneByte(w.t, n, v, b), n) == [b] by { PublishedBytes(c, w.t, OneByte(w.t, n, v, b), n, v, [b]); }
    hide Did;
    assert ContentStep(c, w, w.(t := OneByte(w.t, n, v, b)), EditEntry(m, n, Replace([b])));
    hide Inv, ContentStep;
    StepInv(c, w, w.(t := OneByte(w.t, n, v, b)), EditEntry(m, n, Replace([b])));
  }

  lemma PublishedBytes(c: pos, t: Tables, t': Tables, n: Node, v: nat, g: bytes)
    requires Publishes(c, t, t', n, v, g)
    ensures BytesOf(t', n) == g && Holds(t'.pool, t'.Rows(Ver(n, v)), c, g)
  {
  }

  /** A writer of mount 1 has staged version 1; mount 1 has committed `[7]` as version 2 beside it. */
  function Beside(c: pos): World {
    var w := Flushed(c, OneEntry(), 1, 1, 1, 0, 1);
    w.(t := OneByte(w.t, 0, 2, 7))
  }

  /**
    The writer closes: the pointer goes back to version 1. Collecting takes version
    2, and editing gives it out again.
   */
  function Back(c: pos): World {
    Finished(c, Beside(c), 1, 1, 1, 0, 1)
  }

  function Swept(c: pos): World {
    Back(c).(t := Pruned(Back(c).t, Back(c).s, None))
  }

  function Again(c: pos): World {
    Swept(c).(t := OneByte(Swept(c).t, 0, 2, 8))
  }

  lemma BesideStep(c: pos)
    ensures Inv(c, Beside(c)) && BytesOf(Beside(c).t, 0) == [7] && 0 in Beside(c).t.content
    ensures Beside(c).t.content[0].version == 2
  {
    hide Inv, Pruned, BytesOf;
    var w := Flushed(c, OneEntry(), 1, 1, 1, 0, 1);
    AbandonedStaged(c);
    EmptyInv(c);
    ReachedInv(c, EmptyWorld(), w);
    assert NextVersion(w.t, 0) == 2 by { TwoIsNext(c); }
    EditsByte(c, w, 1, 0, 2, 7);
  }

  lemma TwoIsNext(c: pos)
    ensures NextVersion(Flushed(c, OneEntry(), 1, 1, 1, 0, 1).t, 0) == 2
  {
    hide FillerAddress, WithFiller;
    var t := Flushed(c, OneEntry(), 1, 1, 1, 0, 1).t;
    var used := set v | v in t.versions && v.node == 0 && t.versions[v] != map[] :: v.number;
    assert t.versions == map[Ver(0, 1) := map[0 := FillerAddress(c)]];
    assert Ver(0, 1) in t.versions && 0 in t.versions[Ver(0, 1)];
    assert used == {1};
  }

  lemma BackStep(c: pos)
    ensures Step(c, Beside(c), Back(c), Close(1)) && Inv(c, Back(c))
    ensures Back(c).s == Sessions(map[1 := Mount(false, None, true)], map[], 0)
    ensures 0 in Back(c).t.content && Back(c).t.content[0].version == 1 && forall fd :: !IsOpen(Back(c), fd)
  {
    hide Inv, Step, FillerAddress, WithFiller, Filler;
    BesideStep(c);
    InvIsSound(c, Beside(c));
    SoundChunks(c, Beside(c).t);
    Finishing(c, Beside(c), 1, 1, 1, 0, 1);
    assert Beside(c).s == Sessions(map[1 := Mount(false, None, true)], map[1 := Lock(1, 0, None)], 0);
    StepInv(c, Beside(c), Back(c), Close(1));
  }

  lemma SweptStep(c: pos)
    ensures Step(c, Back(c), Swept(c), Collect(None)) && CollectSafe(Back(c), Collect(None)) && Inv(c, Swept(c))
    ensures 0 in Swept(c).t.content && NextVersion(Swept(c).t, 0) == 2 && Swept(c).s == Back(c).s
  {
    hide Inv, Back, Ahead, NextVersion;
    BackStep(c);
    var w, w' := Back(c), Swept(c);
    assert ContentStep(c, w, w', Collect(None));
    forall u: Ver | u.node == 0 && u.number > 1 ensures w'.t.Rows(u) == map[] {
      assert !Held(w.s, 0) && !Survives(w.t, w.s, None, u);
    }
    NextIsNext(w'.t, 0);
    hide ContentStep, Pruned, Swept;
    StepInv(c, w, w', Collect(None));
  }

  /**
    A version above the pointer is another matter. A mount edits an entry it has
    a writer open on, and the writer then closes, moving the pointer back. In a
    run in which every collection is safe, a read that took the pointer before
    gets bytes committed only afterwards.
   */
  lemma ReadsAnother(c: pos) returns (ws: seq<World>, acts: seq<Action>)
    ensures SafeRun(c, ws, acts) && Inv(c, ws[0])
    ensures acts == [Close(1), Collect(None), EditEntry(1, 0, Replace([8]))]
    ensures BytesOf(ws[0].t, 0) == [7] && 0 in ws[0].t.content && ws[0].t.content[0].version == 2
    ensures Ranged(c, ws[3].t, Ver(0, 2), 0, 1) == [8]
  {
    hide Inv, Step, BytesOf, Beside, Back, Swept, Again, Pruned, Holds, NextVersion;
    ws, acts := [Beside(c), Back(c), Swept(c), Again(c)], [Close(1), Collect(None), EditEntry(1, 0, Replace([8]))];
    BesideStep(c);
    BackStep(c);
    SweptStep(c);
    AgainStep(c);
    hide CollectSafe, Ranged;
    forall i | 0 <= i < 3 ensures Step(c, ws[i], ws[i + 1], acts[i]) && CollectSafe(ws[i], acts[i]) {
      NoCollection(ws[i], acts[i]);
    }
  }

  lemma NoCollection(w: World, a: Action)
    ensures !a.Collect? ==> CollectSafe(w, a)
  {
  }

  lemma AgainStep(c: pos)
    ensures Step(c, Swept(c), Again(c), EditEntry(1, 0, Replace([8])))
    ensures Ranged(c, Again(c).t, Ver(0, 2), 0, 1) == [8]
  {
    hide Inv, Step, BytesOf, Back, Pruned, Holds, NextVersion, OneByte;
    BackStep(c);
    SweptStep(c);
    assert Usable(Swept(c).s, 1) && !HeldByOther(Swept(c).s, 0, 1);
    hide Swept;
    EditsByte(c, Swept(c), 1, 0, 2, 8);
    InvIsSound(c, Swept(c));
    BytePublished(c, Swept(c).t, 0, 2, 8);
    PublishedBytes(c, Swept(c).t, Again(c).t, 0, 2, [8]);
    RangedHeld(c, Again(c).t, Ver(0, 2), [8], 0, 1);
    assert [8][0..1] == [8];
  }
}
