/**
  Why collections must be safe. A descriptor that has lost its lock can still
  flush. If the collector drops its chunks while its version is the next to be
  given out, others can be led to publish or hold that version, and its next
  flush lands there. So the safety of a collection is decided by `CollectSafe`.
 */
module Reissue {
  import opened Wrappers
  import opened Flat
  import opened Chunking
  import opened Editing
  import opened Sessions
  import opened Tables
  import opened Store
  import opened Collector
  import opened Verifier
  import opened Streaming
  import opened Protocol

  // ---- Runs without collections ----------------------------------------------------------

  ghost predicate Path(c: pos, ws: seq<World>, acts: seq<Action>, w: World, w': World) {
    Run(c, ws, acts) && ws[0] == w && ws[|acts|] == w' && forall i | 0 <= i < |acts| :: !acts[i].Collect?
  }

  ghost predicate Reaches(c: pos, w: World, w': World) {
    exists ws, acts :: Path(c, ws, acts, w, w')
  }

  lemma ReachesSelf(c: pos, w: World)
    ensures Reaches(c, w, w)
  {
    assert Path(c, [w], [], w, w);
  }

  lemma ReachesNext(c: pos, w: World, w1: World, w2: World, a: Action)
    requires Reaches(c, w, w1) && Step(c, w1, w2, a) && !a.Collect?
    ensures Reaches(c, w, w2)
  {
    hide Step;
    var ws, acts :| Path(c, ws, acts, w, w1);
    var ws', acts' := ws + [w2], acts + [a];
    forall i | 0 <= i < |acts'| ensures Step(c, ws'[i], ws'[i + 1], acts'[i]) {
      if i < |acts| { assert Step(c, ws[i], ws[i + 1], acts[i]); }
    }
    assert Path(c, ws', acts', w, w2);
  }

  lemma ReachesOn(c: pos, w: World, w1: World, w2: World)
    requires Reaches(c, w, w1) && Reaches(c, w1, w2)
    ensures Reaches(c, w, w2)
  {
    hide Step;
    var ws, acts :| Path(c, ws, acts, w, w1);
    var us, bs :| Path(c, us, bs, w1, w2);
    var ws', acts' := ws + us[1..], acts + bs;
    forall i | 0 <= i < |acts'| ensures Step(c, ws'[i], ws'[i + 1], acts'[i]) {
      if i < |acts| {
        assert Step(c, ws[i], ws[i + 1], acts[i]);
      } else {
        assert Step(c, us[i - |acts|], us[i - |acts| + 1], bs[i - |acts|]);
      }
    }
    assert Path(c, ws', acts', w, w2);
  }

  // ---- After an unsafe collection -----------------------------------------------------------

  /** Nobody holds the entry, and no version above its pointer has rows. */
  ghost predicate Idle(c: pos, w: World, n: Node) {
    && Sound(c, w.t) && LocksOk(w.s, w.used) && !Held(w.s, n)
    && n in w.kinds && w.kinds[n] != Container && n in w.t.content
    && forall u: Ver | u.node == n && u.number > w.t.content[n].version :: w.t.Rows(u) == map[]
  }

  /** Yet descriptor `fd` has claimed version `v` of it, above the pointer. */
  ghost predicate Adrift(c: pos, w: World, fd: Fd, n: Node, v: nat) {
    Idle(c, w, n) && w.t.content[n].version < v && IsOpen(w, fd) && Claims(w.streams[fd].w, n, v)
  }

  predicate Claims(w: Writer, n: Node, v: nat) {
    w.node == n && w.version == Some(v) && w.index > 0
  }

  predicate Usable(s: Sessions, m: MountId) {
    ValidMount(s, m) && s.mounts[m].writable
  }

  /** What the collector leaves of the node. */
  lemma CollectedAdrift(c: pos, w: World, w': World, scope: Option<set<Node>>, fd: Fd)
    requires Inv(c, w) && Step(c, w, w', Collect(scope))
    requires IsOpen(w, fd) && Ahead(w.t, w.streams[fd].w)
    requires !Held(w.s, w.streams[fd].w.node) && InScope(scope, w.streams[fd].w.node)
    ensures Adrift(c, w', fd, w.streams[fd].w.node, w.streams[fd].w.version.value)
  {
    hide LocksOk, Sound, Represents;
    PruneKeepsBytes(c, w.t, w.s, scope);
    assert OwnVersion(w.t, w.streams[fd]);
    var n := w.streams[fd].w.node;
    forall u: Ver | u.node == n && u.number > w.t.content[n].version ensures w'.t.Rows(u) == map[] {
      assert !Survives(w.t, w.s, scope, u);
    }
  }

  /** A new mount. */
  lemma MountsAgain(c: pos, w: World, fd: Fd, n: Node, v: nat) returns (m: MountId, w': World)
    requires Adrift(c, w, fd, n, v)
    ensures m !in w.s.mounts && Step(c, w, w', NewMount(m, Mount(false, None, true)))
    ensures Adrift(c, w', fd, n, v) && Usable(w'.s, m) && w'.streams == w.streams
  {
    hide Sound;
    m := Largest(w.s.mounts.Keys) + 1;
    w' := w.(s := MountRow(w.s, m, Mount(false, None, true)));
    SessionNarrows(w, w', NewMount(m, Mount(false, None, true)));
    forall l | l in w'.s.locks && w'.s.locks[l].node == n ensures !ValidLock(w'.s, l) {
      assert ValidLock(w'.s, l) ==> ValidLock(w.s, l);
    }
  }

  lemma NextIsNext(t: Tables, n: Node)
    requires n in t.content && forall u: Ver | u.node == n && u.number > t.content[n].version :: t.Rows(u) == map[]
    ensures NextVersion(t, n) == t.content[n].version + 1
  {
    var used := set v | v in t.versions && v.node == n && t.versions[v] != map[] :: v.number;
    forall x | x in used ensures x <= t.content[n].version {
      var v :| v in t.versions && v.node == n && t.versions[v] != map[] && v.number == x;
      assert t.Rows(v) != map[];
    }
  }

  /** An edit to nothing moves the pointer up by one and adds no rows. */
  lemma EditsOnce(c: pos, w: World, m: MountId, fd: Fd, n: Node, v: nat) returns (w': World)
    requires Adrift(c, w, fd, n, v) && Usable(w.s, m) && w.t.content[n].version + 1 < v
    ensures Step(c, w, w', EditEntry(m, n, Replace([])))
    ensures Adrift(c, w', fd, n, v) && w' == w.(t := w'.t) && w'.t.content[n].version == w.t.content[n].version + 1
  {
    hide LocksOk, Sound, EntrySound;
    var next := w.t.content[n].version + 1;
    NextIsNext(w.t, n);
    NothingHeld(w.t.pool, c);
    w' := w.(t := Swapped(w.t, n, next, 0));
    assert forall u: Ver :: w'.t.Rows(u) == w.t.Rows(u);
    SoundChunks(c, w.t);
    SwapPublishes(c, w.t, w.t, n, next, []);
    assert !HeldByOther(w.s, n, m);
  }

  lemma NothingHeld(pool: Pool, c: pos)
    ensures Holds(pool, map[], c, [])
  {
    forall i: nat ensures Chunk([], c, i) == [] {}
  }

  /** Until the descriptor's version is the next one to be given out. */
  lemma {:induction false} EditsUp(c: pos, w: World, m: MountId, fd: Fd, n: Node, v: nat) returns (w': World)
    requires Adrift(c, w, fd, n, v) && Usable(w.s, m)
    ensures Reaches(c, w, w') && Adrift(c, w', fd, n, v) && w' == w.(t := w'.t) && w'.t.content[n].version + 1 == v
    decreases v - w.t.content[n].version
  {
    hide Step, Reaches, Sound, LocksOk;
    ReachesSelf(c, w);
    if w.t.content[n].version + 1 == v {
      w' := w;
    } else {
      var w1 := EditsOnce(c, w, m, fd, n, v);
      ReachesNext(c, w, w, w1, EditEntry(m, n, Replace([])));
      w' := EditsUp(c, w1, m, fd, n, v);
      ReachesOn(c, w, w1, w');
    }
  }

  // ---- Another writer is given the version -----------------------------------------------------

  /** A chunk's worth of zeros, its address, and the pool with it. */
  function Filler(c: pos): bytes {
    Zeros(c)
  }

  function FillerAddress(c: pos): Address {
    AddressOf(Sealed(Filler(c), 0))
  }

  function WithFiller(c: pos, pool: Pool): Pool {
    if FillerAddress(c) in pool then pool else pool[FillerAddress(c) := Sealed(Filler(c), 0)]
  }

  lemma FillerPooled(c: pos, pool: Pool)
    requires PoolSound(pool)
    ensures PoolGrows(pool, WithFiller(c, pool)) && PoolSound(WithFiller(c, pool))
    ensures FillerAddress(c) in WithFiller(c, pool)
    ensures WithFiller(c, pool)[FillerAddress(c)].plain == Filler(c) && |Filler(c)| == c
  {
    PoolUpsert(pool, Sealed(Filler(c), 0));
  }

  /** Version `v` of `n` is the one other writer's, with one chunk, and `fd` takes it for its own. */
  ghost predicate Doubled(c: pos, w: World, fd: Fd, g: Fd, m: MountId, l: LockId, n: Node, v: nat) {
    && LocksOk(w.s, w.used) && PoolSound(w.t.pool) && Usable(w.s, m)
    && n in w.t.content && w.t.content[n].version + 1 == v
    && IsOpen(w, fd) && Claims(w.streams[fd].w, n, v) && g != fd
    && g in w.streams && w.streams[g] == Stream(Writer(n, l, true, Some(v), 0, 0, 1, c, [], c, false), m, Filler(c))
    && l in w.s.locks && w.s.locks[l] == Lock(m, n, None)
    && (forall k | k in w.s.locks && w.s.locks[k].node == n && k != l :: !ValidLock(w.s, k))
    && w.t.Rows(Ver(n, v)) == map[0 := FillerAddress(c)]
    && FillerAddress(c) in w.t.pool && w.t.pool[FillerAddress(c)].plain == Filler(c)
  }

  function Newcomer(c: pos, w: World, g: Fd, m: MountId, l: LockId, n: Node): World {
    WithStream(w.(s := Locked(w.s, l, Lock(m, n, None)), used := w.used + {l}),
               g, Stream(Writer(n, l, true, None, 0, 0, 0, 0, [], 0, false), m, []))
  }

  function Filled(c: pos, w: World, g: Fd, m: MountId, l: LockId, n: Node): World {
    WithStream(Newcomer(c, w, g, m, l, n), g,
               Stream(Writer(n, l, true, None, 0, 0, 0, 0, Filler(c), c, false), m, Filler(c)))
  }

  function Flushed(c: pos, w: World, g: Fd, m: MountId, l: LockId, n: Node, v: nat): World {
    var t' := Tables(w.t.content, w.t.versions[Ver(n, v) := map[0 := FillerAddress(c)]], WithFiller(c, w.t.pool));
    WithStream(Newcomer(c, w, g, m, l, n).(t := t'), g,
               Stream(Writer(n, l, true, Some(v), 0, 0, 1, c, [], c, false), m, Filler(c)))
  }

  lemma Opens(c: pos, w: World, g: Fd, m: MountId, l: LockId, n: Node)
    requires Idle(c, w, n) && Usable(w.s, m) && g !in w.streams && l !in w.used
    ensures Step(c, w, Newcomer(c, w, g, m, l, n), Open(g, m, n, Overwriting, None, l))
  {
    hide Sound, LocksOk;
    assert !HeldByOther(w.s, n, m);
  }

  lemma Fills(c: pos, w: World, g: Fd, m: MountId, l: LockId, n: Node)
    ensures Step(c, Newcomer(c, w, g, m, l, n), Filled(c, w, g, m, l, n), Buffer(g, Filler(c)))
  {
    var x := Writer(n, l, true, None, 0, 0, 0, 0, [], 0, false);
    assert |Filler(c)| == c;
    assert PadTo([], 0) == [] && Splice([], 0, c, Filler(c)) == Filler(c);
    assert Overwrite([], 0, Filler(c)) == Filler(c);
    assert Buffered(x, Filler(c)) == Some(x.(pending := Filler(c), position := c));
    hide Buffered, Overwrite;
    assert Newcomer(c, w, g, m, l, n).streams[g] == Stream(x, m, []);
    assert StreamStep(c, Newcomer(c, w, g, m, l, n), Filled(c, w, g, m, l, n), Buffer(g, Filler(c)));
  }

  lemma FlushesOnce(c: pos, w: World, g: Fd, m: MountId, l: LockId, n: Node, v: nat)
    requires Idle(c, w, n) && w.t.content[n].version + 1 == v
    ensures Step(c, Filled(c, w, g, m, l, n), Flushed(c, w, g, m, l, n, v), Flush(g))
  {
    hide LocksOk, WithFiller, FillerAddress, Filler, Sound;
    SoundChunks(c, w.t);
    NextIsNext(w.t, n);
    hide Idle, NextVersion, Adds, Claimed;
    var a, b := Filled(c, w, g, m, l, n), Flushed(c, w, g, m, l, n, v);
    var x := a.streams[g].w;
    FirstChunk(c, w, x, b.t, n, v);
    assert Flushes(c, a.t, x, b.t, b.streams[g].w);
  }

  lemma FirstChunk(c: pos, w: World, x: Writer, t': Tables, n: Node, v: nat)
    requires PoolSound(w.t.pool) && NextVersion(w.t, n) == v && x.node == n && x.version.None? && x.carryFull == 0
    requires x.pending == Filler(c)
    requires t' == Tables(w.t.content, w.t.versions[Ver(n, v) := map[0 := FillerAddress(c)]], WithFiller(c, w.t.pool))
    ensures |x.pending| == c && x.pending[..c] == Filler(c) && x.pending[c..] == []
    ensures Adds(w.t, t', Ver(n, v), Claimed(w.t, x), 0, Filler(c))
  {
    hide WithFiller, FillerAddress, Filler, NextVersion;
    FillerPooled(c, w.t.pool);
    NextVersionIsFresh(w.t, n);
    assert Claimed(w.t, x) == map[];
    assert t'.Rows(Ver(n, v)) == map[0 := FillerAddress(c)];
  }

  lemma BecomesDoubled(c: pos, w: World, g: Fd, m: MountId, l: LockId, fd: Fd, n: Node, v: nat)
    requires Adrift(c, w, fd, n, v) && Usable(w.s, m) && g !in w.streams && l !in w.used
    requires w.t.content[n].version + 1 == v
    ensures Doubled(c, Flushed(c, w, g, m, l, n, v), fd, g, m, l, n, v)
  {
    hide Sound, WithFiller, FillerAddress, Filler;
    SoundChunks(c, w.t);
    FillerPooled(c, w.t.pool);
    var s' := Locked(w.s, l, Lock(m, n, None));
    NewLockIsExclusive(w.s, w.used, l, Lock(m, n, None));
    forall k | k in s'.locks && s'.locks[k].node == n && k != l ensures !ValidLock(s', k) {
      assert k in w.s.locks && w.s.locks[k].node == n;
    }
  }

  /** A new writer on the node is given the lost descriptor's version. */
  lemma GivenOutAgain(c: pos, w: World, m: MountId, fd: Fd, n: Node, v: nat) returns (w': World, g: Fd, l: LockId)
    requires Adrift(c, w, fd, n, v) && Usable(w.s, m) && w.t.content[n].version + 1 == v
    ensures Reaches(c, w, w') && Doubled(c, w', fd, g, m, l, n, v)
  {
    g, l := Largest(w.streams.Keys) + 1, Largest(w.used) + 1;
    Opens(c, w, g, m, l, n);
    Fills(c, w, g, m, l, n);
    FlushesOnce(c, w, g, m, l, n, v);
    BecomesDoubled(c, w, g, m, l, fd, n, v);
    hide Step, Reaches, Adrift, Doubled, Newcomer, Filled, Flushed;
    w' := Flushed(c, w, g, m, l, n, v);
    ReachesSelf(c, w);
    ReachesNext(c, w, w, Newcomer(c, w, g, m, l, n), Open(g, m, n, Overwriting, None, l));
    ReachesNext(c, w, Newcomer(c, w, g, m, l, n), Filled(c, w, g, m, l, n), Buffer(g, Filler(c)));
    ReachesNext(c, w, Filled(c, w, g, m, l, n), w', Flush(g));
  }

  // ---- The lost descriptor flushes once more ---------------------------------------------------------

  /** At the end of what it has, the lost descriptor buffers one chunk more. */
  function Loaded(c: pos, st: Stream): Stream {
    var at := st.w.flushed + |st.w.pending|;
    st.(w := st.w.(pending := st.w.pending + Filler(c), position := at + c), text := Overwrite(st.text, at, Filler(c)))
  }

  lemma Loads(c: pos, w: World, fd: Fd)
    requires IsOpen(w, fd)
    ensures Reaches(c, w, WithStream(w, fd, Loaded(c, w.streams[fd])))
  {
    hide Overwrite;
    var st := w.streams[fd];
    var at := st.w.flushed + |st.w.pending|;
    var w1 := WithStream(w, fd, st.(w := st.w.(position := at)));
    var w2 := WithStream(w, fd, Loaded(c, st));
    SeekStep(c, w, fd, at);
    BufferedAtEnd(c, st.w);
    SetTwice(w, fd, w1.streams[fd], w2.streams[fd]);
    assert StreamStep(c, w1, w2, Buffer(fd, Filler(c)));
    hide StreamStep, Reaches;
    ReachesSelf(c, w);
    ReachesNext(c, w, w, w1, Seek(fd, at));
    ReachesNext(c, w, w1, w2, Buffer(fd, Filler(c)));
  }

  lemma SeekStep(c: pos, w: World, fd: Fd, at: nat)
    requires IsOpen(w, fd)
    ensures Step(c, w, WithStream(w, fd, w.streams[fd].(w := w.streams[fd].w.(position := at))), Seek(fd, at))
  {
  }

  lemma BufferedAtEnd(c: pos, x: Writer)
    ensures var at := x.flushed + |x.pending|;
            Buffered(x.(position := at), Filler(c)) == Some(x.(pending := x.pending + Filler(c), position := at + c))
  {
    var lo := |x.pending|;
    assert |Filler(c)| == c;
    assert PadTo(x.pending, lo) == x.pending;
    assert Splice(x.pending, lo, lo + c, Filler(c)) == x.pending + Filler(c);
  }

  /** The next chunk in the lost descriptor's buffer, and where it is stored. */
  function Stray(c: pos, w: World, fd: Fd): bytes
    requires fd in w.streams
  {
    (w.streams[fd].w.pending + Filler(c))[..c]
  }

  function StrayAddress(c: pos, w: World, fd: Fd): Address
    requires fd in w.streams
  {
    AddressOf(Sealed(Stray(c, w, fd), 0))
  }

  function StrayTables(c: pos, w: World, fd: Fd, n: Node, v: nat): Tables
    requires fd in w.streams
  {
    var a := StrayAddress(c, w, fd);
    Tables(w.t.content, w.t.versions[Ver(n, v) := w.t.Rows(Ver(n, v))[w.streams[fd].w.index := a]],
           if a in w.t.pool then w.t.pool else w.t.pool[a := Sealed(Stray(c, w, fd), 0)])
  }

  function Strayed(c: pos, w: World, fd: Fd, n: Node, v: nat): World
    requires fd in w.streams
  {
    var x := Loaded(c, w.streams[fd]).w;
    WithStream(w.(t := StrayTables(c, w, fd, n, v)), fd,
               Loaded(c, w.streams[fd]).(w := x.(index := x.index + 1, flushed := x.flushed + c,
                                                 pending := x.pending[c..])))
  }

  lemma StrayStored(c: pos, w: World, fd: Fd, n: Node, v: nat)
    requires fd in w.streams && PoolSound(w.t.pool) && w.streams[fd].w.index !in w.t.Rows(Ver(n, v))
    ensures Adds(w.t, StrayTables(c, w, fd, n, v), Ver(n, v), w.t.Rows(Ver(n, v)), w.streams[fd].w.index,
                 Stray(c, w, fd))
    ensures PoolGrows(w.t.pool, StrayTables(c, w, fd, n, v).pool)
  {
    hide Stray;
    PoolUpsert(w.t.pool, Sealed(Stray(c, w, fd), 0));
  }

  lemma StrayFlushes(c: pos, w: World, fd: Fd, n: Node, v: nat)
    requires IsOpen(w, fd) && Claims(w.streams[fd].w, n, v) && PoolSound(w.t.pool)
    requires w.streams[fd].w.index !in w.t.Rows(Ver(n, v))
    ensures Flushes(c, w.t, Loaded(c, w.streams[fd]).w, StrayTables(c, w, fd, n, v),
                    Strayed(c, w, fd, n, v).streams[fd].w)
    ensures |Stray(c, w, fd)| == c
  {
    hide Overwrite, Adds, StrayTables;
    StrayStored(c, w, fd, n, v);
    assert |Filler(c)| == c;
  }

  /** It lands behind the rows of whoever has the version now. */
  lemma Strays(c: pos, w: World, fd: Fd, n: Node, v: nat)
    requires IsOpen(w, fd) && Claims(w.streams[fd].w, n, v) && PoolSound(w.t.pool)
    requires w.streams[fd].w.index !in w.t.Rows(Ver(n, v))
    ensures Step(c, WithStream(w, fd, Loaded(c, w.streams[fd])), Strayed(c, w, fd, n, v), Flush(fd))
    ensures PoolGrows(w.t.pool, StrayTables(c, w, fd, n, v).pool) && |Stray(c, w, fd)| == c
  {
    hide Overwrite, Flushes, StrayTables, Stray;
    var w1, w2 := WithStream(w, fd, Loaded(c, w.streams[fd])), Strayed(c, w, fd, n, v);
    StrayStored(c, w, fd, n, v);
    StrayFlushes(c, w, fd, n, v);
    SetTwice(w.(t := w2.t), fd, w1.streams[fd], w2.streams[fd]);
    assert StreamStep(c, w1, w2, Flush(fd));
  }

  // ---- What a version of two rows reads as ------------------------------------------------------------

  lemma OneRow(pool: Pool, a: Address)
    requires a in pool
    ensures Whole(pool, map[0 := a]) == pool[a].plain
  {
    var m: Manifest := map[0 := a];
    assert Top(m) == 1 by { assert m.Keys == {0}; }
    FetchStep(pool, m, 0, 1);
    assert Fetch(pool, m, 1, 1) == [];
  }

  lemma TwoRows(pool: Pool, a: Address, b: Address, j: nat)
    requires a in pool && b in pool && j > 0
    ensures Whole(pool, map[0 := a, j := b]) == pool[a].plain + pool[b].plain
  {
    hide Fetch, Concat;
    var m: Manifest := map[0 := a, j := b];
    assert Top(m) == j + 1 by { assert m.Keys == {0, j}; }
    FetchStep(pool, m, 0, j + 1);
    FetchSkips(pool, m, 1, j, j + 1);
    FetchStep(pool, m, j, j + 1);
    NothingToFetch(pool, m, j + 1);
  }

  lemma {:induction false} FetchSkips(pool: Pool, m: Manifest, lo: nat, mid: nat, hi: nat)
    requires lo <= mid <= hi && forall i | lo <= i < mid :: i !in m
    ensures Fetch(pool, m, lo, hi) == Fetch(pool, m, mid, hi)
    decreases mid - lo
  {
    if lo < mid { FetchSkips(pool, m, lo + 1, mid, hi); }
  }

  // ---- Closing after the stray chunk has landed ------------------------------------------------------

  /** The other writer, and the world, once it has closed. */
  function Finished(c: pos, w: World, g: Fd, m: MountId, l: LockId, n: Node, v: nat): World
    requires n in w.t.content
  {
    WithStream(w.(t := Swapped(w.t, n, v, c), s := Released(w.s, l)),
               g, Stream(Writer(n, l, true, Some(v), 0, 0, 1, c, [], c, true), m, Filler(c)))
  }

  lemma Finishing(c: pos, w: World, g: Fd, m: MountId, l: LockId, n: Node, v: nat)
    requires n in w.t.content && PoolSound(w.t.pool) && Usable(w.s, m) && l in w.s.locks
    requires w.s.locks[l] == Lock(m, n, None)
    requires g in w.streams
    requires w.streams[g] == Stream(Writer(n, l, true, Some(v), 0, 0, 1, c, [], c, false), m, Filler(c))
    ensures Step(c, w, Finished(c, w, g, m, l, n, v), Close(g)) && IsOpen(w, g) && ValidLock(w.s, l)
  {
    var x, w' := w.streams[g].w, Finished(c, w, g, m, l, n, v);
    assert Finishes(w.t, x, w.t);
    assert w'.streams[g].w == WithVersion(w.t, x).(closed := true);
    assert Closes(w.t, x, w'.t, w'.streams[g].w);
    hide Closes;
    assert StreamStep(c, w, w', Close(g));
  }

  /** With the stray chunk behind its own the version reads as two chunks. */
  lemma StrayRows(c: pos, w: World, fd: Fd, g: Fd, m: MountId, l: LockId, n: Node, v: nat)
    requires Doubled(c, w, fd, g, m, l, n, v)
    ensures var t' := StrayTables(c, w, fd, n, v); |Whole(t'.pool, t'.Rows(Ver(n, v)))| == c + c
  {
    Strays(c, w, fd, n, v);
    var t' := StrayTables(c, w, fd, n, v);
    var j, a, b := w.streams[fd].w.index, FillerAddress(c), StrayAddress(c, w, fd);
    PoolUpsert(w.t.pool, Sealed(Stray(c, w, fd), 0));
    assert t'.Rows(Ver(n, v)) == map[0 := a, j := b];
    TwoRows(t'.pool, a, b, j);
    assert |Filler(c)| == c;
  }

  /** The close of the other writer, under its valid lock, publishes more than it wrote. */
  lemma ClosesWrong(c: pos, w: World, fd: Fd, g: Fd, m: MountId, l: LockId, n: Node, v: nat)
    returns (w1: World, w2: World)
    requires Doubled(c, w, fd, g, m, l, n, v)
    ensures Reaches(c, w, w1) && Step(c, w1, w2, Close(g)) && !ClosesRight(w1, w2, Close(g)) && !Passes(w2)
  {
    Loads(c, w, fd);
    Strays(c, w, fd, n, v);
    StrayRows(c, w, fd, g, m, l, n, v);
    w1 := Strayed(c, w, fd, n, v);
    w2 := Finished(c, w1, g, m, l, n, v);
    PoolUpsert(w.t.pool, Sealed(Stray(c, w, fd), 0));
    Finishing(c, w1, g, m, l, n, v);
    hide Step, Reaches, StrayTables, Whole;
    ReachesNext(c, w, WithStream(w, fd, Loaded(c, w.streams[fd])), w1, Flush(fd));
    assert w2.t.Committed(n) == w1.t.Rows(Ver(n, v));
    assert |Filler(c)| == c;
    assert w2.t.content[n].size == c;
    NotClean(w2.t, n);
  }

  lemma NotClean(t: Tables, n: Node)
    requires n in t.content && |BytesOf(t, n)| > t.content[n].size
    ensures !Clean(t, n)
  {
    assert t.Committed(n) == map[] ==> BytesOf(t, n) == [];
  }

  // ---- Closing before it lands --------------------------------------------------------------------------

  /** The other writer has closed, and its mount holds the entry locked. */
  function HeldNext(c: pos, w: World, g: Fd, m: MountId, l: LockId, k: LockId, n: Node, v: nat): World
    requires n in w.t.content
  {
    var w1 := Finished(c, w, g, m, l, n, v);
    w1.(s := Locked(w1.s, k, Lock(m, n, None)), used := w1.used + {k})
  }

  lemma Guards(c: pos, w: World, fd: Fd, g: Fd, m: MountId, l: LockId, k: LockId, n: Node, v: nat)
    requires Doubled(c, w, fd, g, m, l, n, v) && k !in w.used
    ensures Reaches(c, w, HeldNext(c, w, g, m, l, k, n, v)) && ValidLock(HeldNext(c, w, g, m, l, k, n, v).s, k)
  {
    var w1, w2 := Finished(c, w, g, m, l, n, v), HeldNext(c, w, g, m, l, k, n, v);
    Finishing(c, w, g, m, l, n, v);
    forall j | j in w1.s.locks && w1.s.locks[j].node == n ensures !ValidLock(w1.s, j) {
      assert j in w.s.locks && j != l;
      assert !ValidLock(w.s, j);
    }
    assert SessionStep(w1, w2, TakeLock(m, n, k, None));
    hide Doubled, Finished, HeldNext, StreamStep, Reaches;
    ReachesSelf(c, w);
    ReachesNext(c, w, w, w1, Close(g));
    ReachesNext(c, w, w1, w2, TakeLock(m, n, k, None));
  }

  /** A flush without a lock changes what another mount holds locked. */
  lemma ChangesHeld(c: pos, w: World, fd: Fd, g: Fd, m: MountId, l: LockId, n: Node, v: nat)
    returns (w1: World, w2: World)
    requires Doubled(c, w, fd, g, m, l, n, v)
    ensures Reaches(c, w, w1) && Step(c, w1, w2, Flush(fd)) && !OnlyHolders(w1, w2, Flush(fd))
  {
    var k := Largest(w.used) + 1;
    var held := HeldNext(c, w, g, m, l, k, n, v);
    Guards(c, w, fd, g, m, l, k, n, v);
    w1, w2 := WithStream(held, fd, Loaded(c, held.streams[fd])), Strayed(c, held, fd, n, v);
    Loads(c, held, fd);
    Strays(c, held, fd, n, v);
    HeldRows(c, w, fd, g, m, l, k, n, v);
    hide Step, Reaches, StrayTables, Whole;
    ReachesOn(c, w, held, w1);
    assert ValidLock(w1.s, k) && w1.s.locks[k].node == n && Actor(w1, Flush(fd)) == None;
  }

  lemma HeldRows(c: pos, w: World, fd: Fd, g: Fd, m: MountId, l: LockId, k: LockId, n: Node, v: nat)
    requires Doubled(c, w, fd, g, m, l, n, v)
    ensures var held := HeldNext(c, w, g, m, l, k, n, v);
            && BytesOf(held.t, n) == Filler(c)
            && fd in held.streams && BytesOf(StrayTables(c, held, fd, n, v), n) != Filler(c)
  {
    var held := HeldNext(c, w, g, m, l, k, n, v);
    StrayRows(c, w, fd, g, m, l, n, v);
    OneRow(w.t.pool, FillerAddress(c));
    assert held.t.Committed(n) == w.t.Rows(Ver(n, v));
    var t, t' := StrayTables(c, w, fd, n, v), StrayTables(c, held, fd, n, v);
    assert held.streams[fd] == w.streams[fd];
    assert t'.pool == t.pool && t'.versions == t.versions && t'.content == held.t.content;
    assert t'.Committed(n) == t.Rows(Ver(n, v));
    assert |Filler(c)| == c;
  }

  // ---- What the consistency check sees ------------------------------------------------------------------------

  /** `verify`, shallow or deep, has nothing to report. */
  ghost predicate Passes(w: World) {
    forall n | n in w.t.content :: Clean(w.t, n) && Authentic(w.t, n)
  }

  /** From here on, whatever happens but for unsafe collections, it never has. */
  ghost predicate StaysClean(c: pos, w: World) {
    forall ws: seq<World>, acts: seq<Action> | SafeRun(c, ws, acts) && ws[0] == w :: Passes(ws[|acts|])
  }

  lemma InvStaysClean(c: pos, w: World)
    requires Inv(c, w)
    ensures StaysClean(c, w)
  {
    hide Inv, Step, CollectSafe, Clean, Authentic, Sound;
    forall ws: seq<World>, acts: seq<Action> | SafeRun(c, ws, acts) && ws[0] == w ensures Passes(ws[|acts|]) {
      RunInv(c, ws, acts, |acts|);
      InvIsSound(c, ws[|acts|]);
      forall n | n in ws[|acts|].t.content ensures Clean(ws[|acts|].t, n) && Authentic(ws[|acts|].t, n) {
        SoundIsClean(c, ws[|acts|].t, n);
      }
    }
  }

  lemma NotStaysClean(c: pos, w: World, a: World)
    requires Reaches(c, w, a) && !Passes(a)
    ensures !StaysClean(c, w)
  {
    hide Step, Passes, Run, Path;
    var ws, acts :| Path(c, ws, acts, w, a);
    PathIsSafe(c, ws, acts, w, a);
  }

  // ---- The condition is exact -----------------------------------------------------------------------------

  lemma UnsafeGoesWrong(c: pos, w: World, fd: Fd, n: Node, v: nat)
    requires Adrift(c, w, fd, n, v)
    ensures !Trusted(c, w) && !Protected(c, w) && !StaysClean(c, w)
  {
    hide Step, Reaches, Adrift, Doubled, ClosesRight, OnlyHolders, Trusted, Protected, StaysClean, Passes;
    var m, w1 := MountsAgain(c, w, fd, n, v);
    ReachesSelf(c, w);
    ReachesNext(c, w, w, w1, NewMount(m, Mount(false, None, true)));
    var w2 := EditsUp(c, w1, m, fd, n, v);
    ReachesOn(c, w, w1, w2);
    var w3, g, l := GivenOutAgain(c, w2, m, fd, n, v);
    ReachesOn(c, w, w2, w3);
    var a, a' := ClosesWrong(c, w3, fd, g, m, l, n, v);
    ReachesOn(c, w, w3, a);
    NotTrusted(c, w, a, a', g);
    ReachesNext(c, w, a, a', Close(g));
    NotStaysClean(c, w, a');
    var b, b' := ChangesHeld(c, w3, fd, g, m, l, n, v);
    ReachesOn(c, w, w3, b);
    NotProtected(c, w, b, b', fd);
  }

  lemma PathIsSafe(c: pos, ws: seq<World>, acts: seq<Action>, w: World, w': World)
    requires Path(c, ws, acts, w, w')
    ensures SafeRun(c, ws, acts) && |ws| == |acts| + 1 && ws[0] == w && ws[|acts|] == w'
  {
    hide Step;
  }

  lemma NotTrusted(c: pos, w: World, a: World, a': World, g: Fd)
    requires Reaches(c, w, a) && Step(c, a, a', Close(g)) && !ClosesRight(a, a', Close(g))
    ensures !Trusted(c, w)
  {
    hide Step, ClosesRight, Run, Path;
    var ws, acts :| Path(c, ws, acts, w, a);
    PathIsSafe(c, ws, acts, w, a);
    assert CollectSafe(ws[|acts|], Close(g));
  }

  lemma NotProtected(c: pos, w: World, b: World, b': World, fd: Fd)
    requires Reaches(c, w, b) && Step(c, b, b', Flush(fd)) && !OnlyHolders(b, b', Flush(fd))
    ensures !Protected(c, w)
  {
    hide Step, OnlyHolders, Run, Path;
    var ws, acts :| Path(c, ws, acts, w, b);
    PathIsSafe(c, ws, acts, w, b);
    assert CollectSafe(ws[|acts|], Flush(fd));
  }

  /**
    From any state the invariant allows, and so from any state reached with
    safe collections only, an action leaves streaming and locking to be relied
    on, and the consistency check with nothing to report, exactly when it is not
    an unsafe collection.
   */
  lemma ExactlyWhenSafe(c: pos, w: World, w': World, a: Action)
    requires Inv(c, w) && Step(c, w, w', a)
    ensures Trusted(c, w') <==> CollectSafe(w, a)
    ensures Protected(c, w') <==> CollectSafe(w, a)
    ensures StaysClean(c, w') <==> CollectSafe(w, a)
  {
    hide Inv, Step, Trusted, Protected, StaysClean, Adrift, Ahead, Held, InScope;
    if CollectSafe(w, a) {
      StepInv(c, w, w', a);
      InvIsTrusted(c, w');
      InvStaysClean(c, w');
    } else {
      var fd :| IsOpen(w, fd) && Ahead(w.t, w.streams[fd].w)
             && !Held(w.s, w.streams[fd].w.node) && InScope(a.scope, w.streams[fd].w.node);
      AheadClaims(w.t, w.streams[fd].w);
      CollectedAdrift(c, w, w', a.scope, fd);
      UnsafeGoesWrong(c, w', fd, w.streams[fd].w.node, w.streams[fd].w.version.value);
    }
  }

  lemma AheadClaims(t: Tables, x: Writer)
    requires Ahead(t, x)
    ensures x.version.Some?
  {
  }

  // ---- From an empty volume ----------------------------------------------------------------------------------

  function Mounted(): World {
    EmptyWorld().(s := Sessions(map[1 := Mount(false, None, true)], map[], 0))
  }

  /** One empty entry. */
  function OneEntry(): World {
    Mounted().(kinds := map[0 := Entry], t := Tables(map[0 := Content(0, 0, None)], map[], map[]))
  }

  /** A writer has staged a chunk and its mount has gone. */
  function Abandoned(c: pos): World {
    var w := Flushed(c, OneEntry(), 1, 1, 1, 0, 1);
    w.(s := MountRow(w.s, 1, Mount(true, None, true)))
  }

  lemma Begins(c: pos)
    ensures Step(c, EmptyWorld(), Mounted(), NewMount(1, Mount(false, None, true)))
    ensures Step(c, Mounted(), OneEntry(), Create(0, Entry, []))
    ensures Idle(c, OneEntry(), 0)
  {
    hide Idle, Step;
    MountsFirst(c);
    CreatesNext(c);
    NothingYet(c);
  }

  lemma MountsFirst(c: pos)
    ensures Step(c, EmptyWorld(), Mounted(), NewMount(1, Mount(false, None, true)))
  {
  }

  lemma CreatesNext(c: pos)
    ensures Step(c, Mounted(), OneEntry(), Create(0, Entry, []))
  {
    hide SessionStep, StreamStep;
    NothingHeld(map[], c);
    assert EntrySound(c, OneEntry().t, 0);
    assert Born(c, Mounted().t, OneEntry().t, 0, []);
    assert ContentStep(c, Mounted(), OneEntry(), Create(0, Entry, []));
  }

  lemma NothingYet(c: pos)
    ensures Idle(c, OneEntry(), 0)
  {
    hide Sound, EntrySound, IsOpen;
    OneEntrySound(c);
  }

  lemma OneEntrySound(c: pos)
    ensures Sound(c, OneEntry().t)
  {
    hide Chunk, Holds, Fetch, Concat;
    NothingHeld(map[], c);
    NothingToFetch(map[], map[], 0);
    assert EntrySound(c, OneEntry().t, 0);
  }

  lemma AbandonedIsUnsafe(c: pos)
    ensures !CollectSafe(Abandoned(c), Collect(None))
  {
    hide Filler, FillerAddress, WithFiller;
    var w := Abandoned(c);
    assert IsOpen(w, 1) && Ahead(w.t, w.streams[1].w);
    assert !Held(w.s, 0);
  }

  lemma AbandonedStaged(c: pos)
    ensures Reaches(c, EmptyWorld(), Flushed(c, OneEntry(), 1, 1, 1, 0, 1))
  {
    Begins(c);
    Opens(c, OneEntry(), 1, 1, 1, 0);
    Fills(c, OneEntry(), 1, 1, 1, 0);
    FlushesOnce(c, OneEntry(), 1, 1, 1, 0, 1);
    hide Step, Reaches, Idle, Mounted, OneEntry, Newcomer, Filled, Flushed, EmptyWorld;
    var w0, w1, w2 := EmptyWorld(), Mounted(), OneEntry();
    var w3, w4, w5 := Newcomer(c, w2, 1, 1, 1, 0), Filled(c, w2, 1, 1, 1, 0), Flushed(c, w2, 1, 1, 1, 0, 1);
    ReachesSelf(c, w0);
    ReachesNext(c, w0, w0, w1, NewMount(1, Mount(false, None, true)));
    ReachesNext(c, w0, w1, w2, Create(0, Entry, []));
    ReachesNext(c, w0, w2, w3, Open(1, 1, 0, Overwriting, None, 1));
    ReachesNext(c, w0, w3, w4, Buffer(1, Filler(c)));
    ReachesNext(c, w0, w4, w5, Flush(1));
  }

  lemma AbandonedReached(c: pos)
    ensures Reaches(c, EmptyWorld(), Abandoned(c))
  {
    hide Reaches, StreamStep, ContentStep;
    AbandonedStaged(c);
    assert SessionStep(Flushed(c, OneEntry(), 1, 1, 1, 0, 1), Abandoned(c), Unmount(1));
    ReachesNext(c, EmptyWorld(), Flushed(c, OneEntry(), 1, 1, 1, 0, 1), Abandoned(c), Unmount(1));
  }

  /** Six calls from an empty volume lead to where a collection is unsafe, and what follows it goes wrong. */
  lemma UnsafeIsReached(c: pos) returns (w: World, w': World)
    ensures Reaches(c, EmptyWorld(), w) && Step(c, w, w', Collect(None))
    ensures !Trusted(c, w') && !Protected(c, w') && !StaysClean(c, w')
  {
    hide Reaches, Trusted, Protected, StaysClean, Inv, Abandoned, CollectSafe, EmptyWorld, SessionStep, StreamStep,
         Pruned;
    w := Abandoned(c);
    w' := w.(t := Pruned(w.t, w.s, None));
    AbandonedReached(c);
    AbandonedIsUnsafe(c);
    EmptyInv(c);
    ReachedInv(c, EmptyWorld(), w);
    assert ContentStep(c, w, w', Collect(None));
    ExactlyWhenSafe(c, w, w', Collect(None));
  }

  lemma ReachedInv(c: pos, w: World, w': World)
    requires Inv(c, w) && Reaches(c, w, w')
    ensures Inv(c, w')
  {
    hide Inv, Step, Run, CollectSafe;
    var ws, acts :| Path(c, ws, acts, w, w');
    PathIsSafe(c, ws, acts, w, w');
    RunInv(c, ws, acts, |acts|);
  }
}
