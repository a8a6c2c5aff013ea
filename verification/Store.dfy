/**
  The engine's content operations over its tables. Each public method is one
  transaction. Path resolution is modelled apart (see `Namespace`), so an
  operation is given the node its path resolved to.
 */
module Store {
  import opened Wrappers
  import opened Flat
  import opened Chunking
  import opened Editing
  import opened Sessions
  import opened Tables

  datatype Kind = Container | Entry | Symlink | Fifo | Socket

  datatype Error =
    | MountInvalid | ReadOnlyMount | NotFound | NotAnEntry | NotAContainer | LockHeld | LockInvalid | NegativeSize
    | Nameless | AlreadyExists | WouldCycle | NotEmpty | Corrupt | Unsupported

  /** Why a content write is refused before it touches anything, in the order the checks run. */
  function Refusal(s: Sessions, kinds: map<Node, Kind>, m: MountId, n: Node, checkLock: bool): Option<Error> {
    if !ValidMount(s, m) then Some(MountInvalid)
    else if !s.mounts[m].writable then Some(ReadOnlyMount)
    else if n !in kinds then Some(NotFound)
    else if kinds[n] == Container then Some(NotAnEntry)
    else if checkLock && HeldByOther(s, n, m) then Some(LockHeld)
    else None
  }

  /** Edits that commit no new version. */
  predicate IsNoOp(f: bytes, e: Edit) {
    match e
    case Replace(_) => false
    case Append(d) => d == []
    case WriteAt(_, d) => d == []
    case SetSize(n) => n == |f|
  }

  /**
    One edit of `n` as a transaction: nothing at all, or one new version whose
    bytes are the flat edit of the old ones, with no other entry touched.
   */
  ghost predicate Did(c: pos, t: Tables, t': Tables, n: Node, e: Edit) {
    var f := BytesOf(t, n);
    if IsNoOp(f, e) then t' == t else Publishes(c, t, t', n, NextVersion(t, n), Apply(f, e))
  }

  lemma PublishedEdit(c: pos, t: Tables, t': Tables, n: Node, e: Edit)
    requires !IsNoOp(BytesOf(t, n), e)
    requires Publishes(c, t, t', n, NextVersion(t, n), Apply(BytesOf(t, n), e))
    ensures Did(c, t, t', n, e)
  {
    hide Publishes;
  }

  /** `m'` is `m` with rows for `chunks` added from index `first` on. */
  ghost predicate RowsAppended(pool: Pool, m: Manifest, m': Manifest, first: nat, chunks: seq<bytes>) {
    && (forall i: nat :: i in m' <==> i in m || first <= i < first + |chunks|)
    && (forall i | i in m :: m'[i] == m[i])
    && (forall i | first <= i < first + |chunks| :: i in m' && i !in m
          && m'[i] in pool && pool[m'[i]].plain == chunks[i - first])
  }

  lemma NothingStagedYet(t: Tables, v: Ver, first: nat)
    ensures Stages(t, t, v) && RowsAppended(t.pool, t.Rows(v), t.Rows(v), first, [])
  {
  }

  lemma StagedPool(t: Tables, t': Tables, v: Ver)
    requires Stages(t, t', v)
    ensures PoolGrows(t.pool, t'.pool) && t'.content == t.content
  {
  }

  lemma SoundChunks(c: pos, t: Tables)
    requires Sound(c, t)
    ensures PoolSound(t.pool)
  {
  }

  lemma StagesMore(t: Tables, t': Tables, t'': Tables, v: Ver)
    requires Stages(t, t', v) && Stages(t', t'', v)
    ensures Stages(t, t'', v) && PoolGrows(t'.pool, t''.pool) && t'.content == t.content == t''.content
  {
  }

  lemma NextIsFree(pool: Pool, m: Manifest, m': Manifest, first: nat, chunks: seq<bytes>, j: nat)
    requires j < |chunks| && RowsAppended(pool, m, m', first, chunks[..j]) && Free(m, first, |chunks|)
    ensures first + j !in m'
  {
  }

  lemma RowsAppendedStep(p: Pool, p': Pool, m: Manifest, m1: Manifest, m2: Manifest, first: nat,
                         chunks: seq<bytes>, data: bytes)
    requires RowsAppended(p, m, m1, first, chunks) && PoolGrows(p, p')
    requires first + |chunks| !in m1 && first + |chunks| in m2
    requires m2 == m1[first + |chunks| := m2[first + |chunks|]]
    requires m2[first + |chunks|] in p' && p'[m2[first + |chunks|]].plain == data
    ensures RowsAppended(p', m, m2, first, chunks + [data])
  {
  }

  // ---- Rebuilding a window ---------------------------------------------------

  /** A window cut into chunks never reaches past the window. */
  lemma {:induction false} WindowFits(f: bytes, c: pos, lo: nat, hi: nat)
    requires lo <= hi
    ensures |Split(Span(f, c, lo, hi), c)| <= hi - lo
  {
    SplitIsChunks(Span(f, c, lo, hi), c, hi - lo);
    ChunkPastSpan(f, c, lo, hi, hi - lo);
  }

  /** Cutting the span `[lo, hi)` of `g` gives the chunks `lo, lo + 1, ...` of `g`. */
  lemma WindowChunks(g: bytes, c: pos, lo: nat, hi: nat, i: nat)
    requires lo <= i < hi
    ensures var chunks := Split(Span(g, c, lo, hi), c);
            && (i - lo < |chunks| <==> Chunk(g, c, i) != [])
            && (i - lo < |chunks| ==> chunks[i - lo] == Chunk(g, c, i))
  {
    hide Split, Chunk, Span;
    SplitIsChunks(Span(g, c, lo, hi), c, i - lo);
    ChunkOfSpan(g, c, lo, hi, i - lo);
  }

  /** Outside the window `[lo, hi)` the two have the same chunks. */
  ghost predicate SameOutside(f: bytes, g: bytes, c: pos, lo: nat, hi: nat) {
    forall i: nat | i < lo || hi <= i :: Chunk(f, c, i) == Chunk(g, c, i)
  }

  /**
    Rows outside the window carried from a version holding `f`, and the window
    `[lo, hi)` of `g` staged between them, together hold exactly `g`.
   */
  lemma WindowRebuilt(p: Pool, p': Pool, m: Manifest, m1: Manifest, m2: Manifest, c: pos,
                      f: bytes, g: bytes, lo: nat, hi: nat)
    requires Holds(p, m, c, f) && PoolGrows(p, p') && lo <= hi
    requires SameOutside(f, g, c, lo, hi) && m1 == Around(m, lo, hi)
    requires RowsAppended(p', m1, m2, lo, Split(Span(g, c, lo, hi), c))
    ensures Holds(p', m2, c, g)
  {
    hide Chunk, Split, Span;
    WindowFits(g, c, lo, hi);
    forall i: nat | lo <= i < hi
      ensures i in m2 <==> Chunk(g, c, i) != []
      ensures i in m2 ==> m2[i] in p' && p'[m2[i]].plain == Chunk(g, c, i)
    {
      WindowChunks(g, c, lo, hi, i);
    }
    forall i: nat | i < lo || hi <= i
      ensures i in m2 <==> Chunk(g, c, i) != []
      ensures i in m2 ==> m2[i] in p' && p'[m2[i]].plain == Chunk(g, c, i)
    {
      assert i in m2 <==> i in m;
    }
  }

  lemma ChunksOfNothing(c: pos)
    ensures forall i: nat :: Chunk([], c, i) == []
  {
  }

  /** The window that reaches the end of both `f` and `g`. */
  lemma SuffixWindow(f: bytes, g: bytes, c: pos, lo: nat) returns (hi: nat)
    requires Start(c, lo) <= |g|
    ensures lo <= hi && Span(g, c, lo, hi) == g[Start(c, lo)..]
    ensures forall i: nat | hi <= i :: Chunk(f, c, i) == [] && Chunk(g, c, i) == []
  {
    hi := Max(lo, Max(|f|, |g|));
    StartAdds(c, 0, hi);
    SpanToEnd(g, c, lo, hi);
    forall i: nat | hi <= i ensures Chunk(f, c, i) == [] && Chunk(g, c, i) == [] {
      StartAdds(c, 0, i);
      ChunkShape(f, c, i);
      ChunkShape(g, c, i);
    }
  }

  /** The rows of the first `full` chunks. */
  function Leading(m: Manifest, full: nat): Manifest {
    map i | i in m && i < full :: m[i]
  }

  /**
    When `f` and `g` share their first `n` bytes, the chunks that lie in them
    carried from `f` and the rest of `g` staged behind hold exactly `g`.
   */
  lemma TailRebuilt(p: Pool, p': Pool, m: Manifest, m2: Manifest, c: pos, f: bytes, g: bytes, n: nat)
    requires Holds(p, m, c, f) && PoolGrows(p, p')
    requires n <= |f| && n <= |g| && f[..n] == g[..n] && Start(c, Index(c, n)) <= n
    requires RowsAppended(p', Leading(m, Index(c, n)), m2, Index(c, n), Split(g[Start(c, Index(c, n))..], c))
    ensures Holds(p', m2, c, g)
  {
    var full := Index(c, n);
    var hi := SuffixWindow(f, g, c, full);
    forall i: nat | i < full ensures Chunk(f, c, i) == Chunk(g, c, i) { SharedPrefix(f, g, c, n, i); }
    WindowRebuilt(p, p', m, Leading(m, full), m2, c, f, g, full, hi);
  }

  /** The bytes of `g` from the chunk in which byte `n` lies. */
  function From(g: bytes, c: pos, n: nat): bytes
    requires n <= |g|
  {
    g[Start(c, Index(c, n))..]
  }

  /** Carrying the chunks that lie in the first `n` bytes and staging the rest of `g` stages `g`. */
  lemma TailStaged(c: pos, t: Tables, t1: Tables, t2: Tables, n: Node, v: nat, g: bytes, len: nat)
    requires Sound(c, t) && n in t.content && v != t.content[n].version && v > 0
    requires len <= |BytesOf(t, n)| && len <= |g| && BytesOf(t, n)[..len] == g[..len]
    requires Stages(t, t1, Ver(n, v)) && t1.Rows(Ver(n, v)) == Leading(t.Committed(n), Index(c, len))
    requires Stages(t1, t2, Ver(n, v)) && PoolSound(t2.pool)
    requires RowsAppended(t2.pool, t1.Rows(Ver(n, v)), t2.Rows(Ver(n, v)), Index(c, len), Split(From(g, c, len), c))
    ensures Staged(c, t, t2, n, v, g)
  {
    hide Sound;
    StagesTwice(t, t1, t2, Ver(n, v));
    EntryHeld(c, t, n);
    TailRebuilt(t.pool, t2.pool, t.Committed(n), t2.Rows(Ver(n, v)), c, BytesOf(t, n), g, len);
  }

  /** What an append must stage: the partial last chunk, if there is one, and the new bytes. */
  /** Growing is appending zeros. */
  lemma GrownTail(f: bytes, c: pos, size: nat)
    requires |f| < size
    ensures var tail := if Offset(c, |f|) > 0 then Chunk(f, c, Index(c, |f|)) else [];
            && size - Start(c, Index(c, |f|)) - |tail| == size - |f|
            && tail + Zeros(size - |f|) == From(Resize(f, size), c, |f|)
    ensures |Resize(f, size)| == size && f[..|f|] == Resize(f, size)[..|f|]
  {
    hide Index, Offset, Chunk, Start;
    AppendTail(f, c, Zeros(size - |f|));
    assert Resize(f, size) == f + Zeros(size - |f|);
  }

  lemma AppendTail(f: bytes, c: pos, data: bytes)
    ensures (if Offset(c, |f|) > 0 then Chunk(f, c, Index(c, |f|)) else []) + data == From(f + data, c, |f|)
    ensures f[..|f|] == (f + data)[..|f|]
    ensures |f| - Start(c, Index(c, |f|)) == |if Offset(c, |f|) > 0 then Chunk(f, c, Index(c, |f|)) else []|
  {
    PartialTail(f, c);
    var s := Start(c, Index(c, |f|));
    assert (f + data)[s..] == f[s..] + data;
  }

  /** What a cut must stage: the boundary chunk trimmed, when the cut falls inside one. */
  lemma ShrinkTail(f: bytes, c: pos, size: nat)
    requires size < |f|
    ensures Offset(c, size) < c && Offset(c, size) <= |Chunk(f, c, Index(c, size))|
    ensures From(f[..size], c, size) == Chunk(f, c, Index(c, size))[..Offset(c, size)]
    ensures f[..size][..size] == f[..size]
  {
    var i := Index(c, size);
    var s := Start(c, i);
    assert Start(c, i + 1) == s + c;
    SliceOfSlice(f, s, Min(s + c, |f|), 0, size - s);
    assert f[..size][s..] == f[s..size];
  }

  lemma NoChunkAppended(pool: Pool, m: Manifest, c: pos, first: nat)
    ensures RowsAppended(pool, m, m, first, Split([], c))
  {
  }

  /** The last row of a held, non-empty version. */
  lemma LastRow(pool: Pool, m: Manifest, c: pos, f: bytes)
    requires Holds(pool, m, c, f)
    ensures forall i | i in m :: i <= if |f| > 0 then Index(c, |f| - 1) else -1
  {
    forall i | i in m ensures i <= if |f| > 0 then Index(c, |f| - 1) else -1 {
      if f != [] { LastChunk(f, c, i); }
    }
  }

  lemma EntryHeld(c: pos, t: Tables, n: Node)
    requires Sound(c, t) && n in t.content
    ensures Holds(t.pool, t.Committed(n), c, BytesOf(t, n)) && |BytesOf(t, n)| == t.content[n].size
  {
    assert EntrySound(c, t, n);
  }

  /** The rows outside the window `[lo, hi)`. */
  function Around(m: Manifest, lo: nat, hi: nat): Manifest {
    map i | i in m && (i < lo || hi <= i) :: m[i]
  }

  /** No row stands where `count` rows from `first` on are to be inserted. */
  ghost predicate Free(m: Manifest, first: nat, count: nat) {
    forall i: nat | first <= i < first + count :: i !in m
  }

  lemma WindowIsFree(m: Manifest, m1: Manifest, g: bytes, buf: bytes, c: pos, lo: nat, hi: nat)
    requires lo <= hi && m1 == Around(m, lo, hi) && buf == Span(g, c, lo, hi)
    ensures Free(m1, lo, |Split(buf, c)|)
  {
    WindowFits(g, c, lo, hi);
  }

  /** The first and the last chunk an overwrite must rebuild. */
  function WindowLo(c: pos, size: nat, off: nat): nat {
    Min(Index(c, off), Index(c, size))
  }

  function WindowHi(c: pos, off: nat, n: pos): nat {
    Index(c, off + n - 1)
  }

  lemma OverwriteOutside(f: bytes, c: pos, off: nat, data: bytes)
    requires data != []
    ensures SameOutside(f, Overwrite(f, off, data), c, WindowLo(c, |f|, off), WindowHi(c, off, |data|) + 1)
  {
    forall i: nat | i < WindowLo(c, |f|, off) || WindowHi(c, off, |data|) + 1 <= i
      ensures Chunk(f, c, i) == Chunk(Overwrite(f, off, data), c, i)
    {
      hide Chunk, Overwrite;
      if i < WindowLo(c, |f|, off) {
        OverwritePrefix(f, c, off, data, i);
      } else {
        OverwriteSuffix(f, c, off, data, i);
      }
    }
  }

  /** Carrying the chunks around the window and staging the window of the overwritten bytes stages them all. */
  lemma OverwriteStaged(c: pos, t: Tables, t1: Tables, t2: Tables, n: Node, v: nat,
                        off: nat, data: bytes, lo: nat, hi: nat)
    requires Sound(c, t) && n in t.content && v != t.content[n].version && v > 0 && data != []
    requires lo == WindowLo(c, t.content[n].size, off) && hi == WindowHi(c, off, |data|)
    requires Stages(t, t1, Ver(n, v)) && t1.Rows(Ver(n, v)) == Around(t.Committed(n), lo, hi + 1)
    requires Stages(t1, t2, Ver(n, v)) && Sound(c, t2) && lo <= hi
    requires RowsAppended(t2.pool, t1.Rows(Ver(n, v)), t2.Rows(Ver(n, v)), lo,
                          Split(Span(Overwrite(BytesOf(t, n), off, data), c, lo, hi + 1), c))
    ensures Staged(c, t, t2, n, v, Overwrite(BytesOf(t, n), off, data))
  {
    hide Sound, BytesOf, Overwrite, Span, Split, Holds, RowsAppended, Around, WindowLo, WindowHi, SameOutside, Stages,
         Tables.Rows;
    EntryHeld(c, t, n);
    SoundChunks(c, t2);
    var f := BytesOf(t, n);
    var g := Overwrite(f, off, data);
    StagesMore(t, t1, t2, Ver(n, v));
    StagedPool(t, t2, Ver(n, v));
    OverwriteOutside(f, c, off, data);
    WindowRebuilt(t.pool, t2.pool, t.Committed(n), t1.Rows(Ver(n, v)), t2.Rows(Ver(n, v)), c, f, g, lo, hi + 1);
  }

  /** What the window must be rebuilt from: its old bytes, padded and patched. */
  lemma OverwriteBuffer(f: bytes, c: pos, off: nat, data: bytes, lo: nat, hi: nat, base: nat, got: bytes)
    requires data != [] && lo == WindowLo(c, |f|, off) && hi == WindowHi(c, off, |data|)
    requires base == Start(c, lo)
    ensures lo <= hi && base <= off
    ensures got == Span(f, c, lo, hi + 1) ==>
              Splice(PadTo(got, off - base), off - base, off + |data| - base, data)
              == Span(Overwrite(f, off, data), c, lo, hi + 1)
  {
    hide Splice, PadTo, Span, Overwrite, Index, Start, WindowLo, WindowHi;
    WindowEdges(|f|, c, off, |data|);
    OverwriteWindow(f, c, off, data, lo, hi);
  }

  lemma WindowEdges(size: nat, c: pos, off: nat, n: pos)
    ensures WindowLo(c, size, off) <= WindowHi(c, off, n)
    ensures Start(c, WindowLo(c, size, off)) <= Min(off, size)
    ensures off + n <= Start(c, WindowHi(c, off, n) + 1)
  {
    hide Index, Start;
    WindowBounds(size, c, off, n);
  }

  lemma WindowGot(f: bytes, c: pos, lo: nat, hi: nat, last: int, got: bytes)
    requires lo <= hi && last == if |f| > 0 then Index(c, |f| - 1) else -1
    requires got == if Min(hi, last) >= lo then Span(f, c, lo, Min(hi, last) + 1) else []
    ensures got == Span(f, c, lo, hi + 1)
  {
    if Min(hi, last) >= lo {
      WindowSource(f, c, lo, hi, Min(hi, last) + 1);
    } else {
      StartOrder(c, last + 1, lo);
      WindowSource(f, c, lo, hi, lo);
    }
  }

  /** One short chunk staged is the cut of its bytes. */
  lemma OneChunkAppended(pool: Pool, m: Manifest, m': Manifest, c: pos, first: nat, data: bytes)
    requires 0 < |data| <= c
    requires first !in m && first in m' && m' == m[first := m'[first]]
    requires m'[first] in pool && pool[m'[first]].plain == data
    ensures RowsAppended(pool, m, m', first, Split(data, c))
  {
    assert data[Min(c, |data|)..] == [] && data[..Min(c, |data|)] == data;
  }

  // ---- Content at birth ---------------------------------------------------------

  /** `n` is a new entry that reads as `f`; every other entry keeps its rows. */
  ghost predicate Born(c: pos, t: Tables, t': Tables, n: Node, f: bytes) {
    && n !in t.content && n in t'.content
    && t'.content == t.content[n := t'.content[n]]
    && (forall u: Ver | u.node != n :: t'.Rows(u) == t.Rows(u))
    && PoolGrows(t.pool, t'.pool)
    && Sound(c, t') && BytesOf(t', n) == f
  }

  /** Changing how much the collector is to keep changes no bytes. */
  lemma KeepIsSound(c: pos, t: Tables, n: Node, keep: Option<int>)
    requires Sound(c, t) && n in t.content
    ensures var t' := t.(content := t.content[n := t.content[n].(keep := keep)]);
            Sound(c, t') && forall o :: BytesOf(t', o) == BytesOf(t, o)
  {
    var t' := t.(content := t.content[n := t.content[n].(keep := keep)]);
    forall v: Ver ensures t'.Rows(v) == t.Rows(v) {}
    forall o | o in t.content ensures EntrySound(c, t', o) && BytesOf(t', o) == BytesOf(t, o) {
      KeptEntry(c, t, t', o);
    }
  }

  /** Content of every node but `n` is as it was. */
  ghost predicate KeptBut(t: Tables, t': Tables, n: Node) {
    forall o | o != n ::
      && BytesOf(t', o) == BytesOf(t, o)
      && (o in t'.content <==> o in t.content)
      && (o in t.content ==> t'.content[o] == t.content[o])
  }

  lemma BornKeepsOthers(c: pos, t: Tables, t': Tables, n: Node, f: bytes)
    requires Sound(c, t) && Born(c, t, t', n, f)
    ensures KeptBut(t, t', n)
  {
    forall o | o != n ensures BytesOf(t', o) == BytesOf(t, o) {
      if o in t.content { KeptEntry(c, t, t', o); }
    }
  }

  /** Staging a new node's first version and then inserting its content row. */
  lemma ContentBorn(c: pos, t: Tables, t': Tables, n: Node, version: nat, data: bytes)
    requires Sound(c, t) && n !in t.content && (version == 0 ==> data == [])
    requires Sound(c, t') && Stages(t, t', Ver(n, version))
    requires forall v: nat :: t.Rows(Ver(n, v)) == map[]
    requires RowsAppended(t'.pool, t.Rows(Ver(n, version)), t'.Rows(Ver(n, version)), 0, Split(data, c))
    ensures Born(c, t, t'.(content := t'.content[n := Content(version, |data|, None)]), n, data)
  {
    WholeStaged(t'.pool, t'.Rows(Ver(n, version)), c, data);
    ContentAdded(c, t', n, version, None, data);
  }

  lemma BornIsThere(c: pos, t: Tables, t': Tables, n: Node, f: bytes)
    requires Sound(c, t) && Born(c, t, t', n, f)
    ensures n in t'.content && BytesOf(t', n) == f && Sound(c, t') && t'.content.Keys == t.content.Keys + {n}
    ensures forall o | o != n :: BytesOf(t', o) == BytesOf(t, o)
  {
    BornKeepsOthers(c, t, t', n, f);
  }

  lemma WholeStaged(pool: Pool, m: Manifest, c: pos, data: bytes)
    requires RowsAppended(pool, map[], m, 0, Split(data, c))
    ensures Holds(pool, m, c, data)
  {
    var hi := SuffixWindow([], data, c, 0);
    ChunksOfNothing(c);
    WindowRebuilt(pool, pool, map[], map[], m, c, [], data, 0, hi);
  }

  /** `dst` takes over the committed version of `src`, number, size and rows. */
  function Copied(t: Tables, src: Node, dst: Node): Tables
    requires src in t.content
  {
    var v := t.content[src].version;
    Tables(t.content[dst := Content(v, t.content[src].size, None)],
           if v > 0 then t.versions[Ver(dst, v) := t.Rows(Ver(src, v))] else t.versions,
           t.pool)
  }

  /** The copy reads as the original and nothing else changes. */
  lemma CopyIsSound(c: pos, t: Tables, src: Node, dst: Node)
    requires Sound(c, t) && src in t.content && dst !in t.content
    requires forall v: nat :: t.Rows(Ver(dst, v)) == map[]
    ensures var t' := Copied(t, src, dst);
            && Sound(c, t') && BytesOf(t', dst) == BytesOf(t, src)
            && forall o | o != dst :: BytesOf(t', o) == BytesOf(t, o)
  {
    var v := t.content[src].version;
    var rows := t.Committed(src);
    RowsPresent(t, Ver(src, v));
    EntryHeld(c, t, src);
    if v > 0 {
      var t1 := t.(versions := t.versions[Ver(dst, v) := rows], pool := t.pool);
      RowsAdded(c, t, Ver(dst, v), rows, t.pool);
      StageMeaning(c, t, t1, Ver(dst, v));
      ContentAdded(c, t1, dst, v, None, BytesOf(t, src));
    } else {
      assert rows == map[] by { if Ver(src, v) in t.versions { assert t.versions[Ver(src, v)] == map[]; } }
      assert t.Rows(Ver(dst, v)) == rows;
      ContentAdded(c, t, dst, v, None, BytesOf(t, src));
    }
  }

  class Db {
    const chunkSize: pos

    var kinds: map<Node, Kind>
    var tables: Tables
    var sessions: Sessions

    ghost predicate Valid()
      reads this
    {
      && Sound(chunkSize, tables)
      && (forall n :: n in tables.content <==> n in kinds && kinds[n] != Container)
    }

    /** The current bytes of `n`. */
    ghost function Current(n: Node): bytes
      reads this
    {
      BytesOf(tables, n)
    }

    constructor (chunkSize: pos)
      ensures Valid()
      ensures this.chunkSize == chunkSize
      ensures tables == Tables(map[], map[], map[]) && kinds == map[]
    {
      this.chunkSize := chunkSize;
      kinds, tables, sessions := map[], Tables(map[], map[], map[]), Sessions(map[], map[], 0);
    }

    // ---- Chunk primitives ----------------------------------------------------

    /** Stage one chunk and its row. The row's key must be new, or the insert would abort. */
    method StageChunk(n: Node, v: nat, index: nat, data: bytes)
      requires Valid()
      requires v > 0 && index !in tables.Rows(Ver(n, v))
      requires n in tables.content ==> tables.content[n].version != v
      modifies `tables
      ensures Valid() && Stages(old(tables), tables, Ver(n, v))
      ensures var rows := tables.Rows(Ver(n, v));
              index in rows && rows == old(tables.Rows(Ver(n, v)))[index := rows[index]]
              && rows[index] in tables.pool && tables.pool[rows[index]].plain == data
              && tables.pool == old(tables.pool)[rows[index] := tables.pool[rows[index]]]
    {
      var seed: nat :| true;
      var stored := Sealed(data, seed);
      var address := AddressOf(stored);
      ghost var t := tables;
      var rows := tables.Rows(Ver(n, v));
      PoolUpsert(tables.pool, stored);
      RowsPresent(t, Ver(n, v));
      if address !in tables.pool {
        tables := tables.(pool := tables.pool[address := stored]);
      }
      RowsAdded(chunkSize, t, Ver(n, v), rows[index := address], tables.pool);
      tables := tables.(versions := tables.versions[Ver(n, v) := rows[index := address]]);
    }

    /** Stage `buf` cut into chunks, numbered from `first`. */
    method StageWindow(n: Node, v: nat, first: nat, buf: bytes)
      requires Valid()
      requires n in tables.content ==> tables.content[n].version != v
      requires Free(tables.Rows(Ver(n, v)), first, |Split(buf, chunkSize)|) && (v > 0 || buf == [])
      modifies `tables
      ensures Valid() && Stages(old(tables), tables, Ver(n, v))
      ensures RowsAppended(tables.pool, old(tables.Rows(Ver(n, v))), tables.Rows(Ver(n, v)), first,
                           Split(buf, chunkSize))
    {
      hide Sound, PoolGrows, Stages, RowsAppended;
      var chunks := Split(buf, chunkSize);
      assert v > 0 || chunks == [];
      NothingStagedYet(tables, Ver(n, v), first);
      var j := 0;
      while j < |chunks|
        invariant 0 <= j <= |chunks|
        invariant Valid() && tables.content == old(tables.content) && Stages(old(tables), tables, Ver(n, v))
        invariant RowsAppended(tables.pool, old(tables.Rows(Ver(n, v))), tables.Rows(Ver(n, v)), first, chunks[..j])
      {
        ghost var t := tables;
        NextIsFree(tables.pool, old(tables.Rows(Ver(n, v))), tables.Rows(Ver(n, v)), first, chunks, j);
        StageChunk(n, v, first + j, chunks[j]);
        StagesMore(old(tables), t, tables, Ver(n, v));
        RowsAppendedStep(t.pool, tables.pool, old(tables.Rows(Ver(n, v))), t.Rows(Ver(n, v)), tables.Rows(Ver(n, v)),
                         first, chunks[..j], chunks[j]);
        assert chunks[..j + 1] == chunks[..j] + [chunks[j]];
        j := j + 1;
      }
      assert chunks[..j] == chunks;
    }

    /** Carry rows `lo .. hi` of one version of `n` into another by reference. */
    method CopyRefsRange(n: Node, dst: nat, src: nat, lo: nat, hi: nat)
      requires Valid()
      requires n in tables.content ==> tables.content[n].version != dst
      requires dst > 0
      requires forall i | i in tables.Rows(Ver(n, dst)) :: !(lo <= i <= hi && i in tables.Rows(Ver(n, src)))
      modifies `tables
      ensures Valid() && Stages(old(tables), tables, Ver(n, dst)) && tables.pool == old(tables.pool)
      ensures tables.Rows(Ver(n, dst))
              == old(tables.Rows(Ver(n, dst))
                     + (map i | i in tables.Rows(Ver(n, src)) && lo <= i <= hi :: tables.Rows(Ver(n, src))[i]))
    {
      ghost var t := tables;
      var carried := map i | i in tables.Rows(Ver(n, src)) && lo <= i <= hi :: tables.Rows(Ver(n, src))[i];
      RowsPresent(t, Ver(n, src));
      RowsPresent(t, Ver(n, dst));
      RowsAdded(chunkSize, t, Ver(n, dst), tables.Rows(Ver(n, dst)) + carried, tables.pool);
      tables := tables.(versions := tables.versions[Ver(n, dst) := tables.Rows(Ver(n, dst)) + carried]);
    }

    /** Swap the committed pointer to a fully staged version. */
    method UpdateContent(n: Node, v: nat, size: nat, ghost t: Tables, ghost g: bytes)
      requires Valid() && Sound(chunkSize, t)
      requires Staged(chunkSize, t, tables, n, v, g) && size == |g|
      modifies `tables
      ensures Valid() && Publishes(chunkSize, t, tables, n, v, g)
    {
      SwapPublishes(chunkSize, t, tables, n, v, g);
      tables := Swapped(tables, n, v, size);
    }

    // ---- Replacing --------------------------------------------------------------

    /** Stage all of `data` as version `v`. */
    method StageChunks(n: Node, v: nat, data: bytes)
      requires Valid() && n in tables.content && v != tables.content[n].version && v > 0
      requires tables.Rows(Ver(n, v)) == map[]
      modifies `tables
      ensures Valid() && Staged(chunkSize, old(tables), tables, n, v, data)
    {
      ghost var p := tables.pool;
      StageWindow(n, v, 0, data);
      ghost var hi := SuffixWindow([], data, chunkSize, 0);
      ChunksOfNothing(chunkSize);
      WindowRebuilt(p, tables.pool, map[], map[], tables.Rows(Ver(n, v)), chunkSize, [], data, 0, hi);
    }

    /** Replace the whole content. */
    method WriteAll(m: MountId, n: Node, data: bytes) returns (r: Result<(), Error>)
      requires Valid()
      modifies `tables
      ensures Valid()
      ensures var refusal := old(Refusal(sessions, kinds, m, n, true));
              if refusal.Some? then r == Failure(refusal.value) && tables == old(tables)
              else r.Success? && Did(chunkSize, old(tables), tables, n, Replace(data))
      ensures m !in sessions.mounts || !sessions.mounts[m].writable ==> r.Failure? && tables == old(tables)
    {
      var refusal := Refusal(sessions, kinds, m, n, true);
      if refusal.Some? {
        return Failure(refusal.value);
      }
      CommitWhole(n, data);
      r := Success(());
    }

    method CommitWhole(n: Node, data: bytes)
      requires Valid() && n in tables.content
      modifies `tables
      ensures Valid() && Did(chunkSize, old(tables), tables, n, Replace(data))
    {
      hide BytesOf, NextVersion, Publishes, Did;
      var version := NextVersion(tables, n);
      NextVersionIsFresh(tables, n);
      StageChunks(n, version, data);
      UpdateContent(n, version, |data|, old(tables), data);
      PublishedEdit(chunkSize, old(tables), tables, n, Replace(data));
    }

    // ---- Appending --------------------------------------------------------------

    /** The stored chunk `index` of the committed version, or nothing when there is none. */
    method ReadOneChunk(n: Node, version: nat, index: nat) returns (data: bytes)
      requires Valid() && n in tables.content && version == tables.content[n].version
      ensures data == Chunk(Current(n), chunkSize, index)
    {
      assert EntrySound(chunkSize, tables, n);
      var rows := Fetch(tables.pool, tables.Rows(Ver(n, version)), index, index + 1);
      assert Fetch(tables.pool, tables.Rows(Ver(n, version)), index + 1, index + 1) == [];
      data := if rows != [] then rows[0] else [];
    }

    /** Carry the first `full` chunks of the committed version into `v` by reference. */
    method CarryLeading(n: Node, v: nat, source: nat, full: nat)
      requires Valid() && n in tables.content && source == tables.content[n].version && v != source
      requires v > 0 && tables.Rows(Ver(n, v)) == map[]
      modifies `tables
      ensures Valid() && Stages(old(tables), tables, Ver(n, v)) && tables.pool == old(tables.pool)
      ensures tables.Rows(Ver(n, v)) == Leading(old(tables.Committed(n)), full)
    {
      hide Sound;
      if full > 0 {
        CopyRefsRange(n, v, source, 0, full - 1);
      }
    }

    /** Carry the chunks the committed version has in full, then stage its partial last one extended by `data`. */
    method StageAppend(n: Node, v: nat, data: bytes)
      requires Valid() && n in tables.content && v != tables.content[n].version && v > 0
      requires tables.Rows(Ver(n, v)) == map[]
      modifies `tables
      ensures Valid() && Staged(chunkSize, old(tables), tables, n, v, old(Current(n)) + data)
    {
      ghost var t, f := tables, Current(n);
      var c := chunkSize;
      EntryHeld(chunkSize, tables, n);
      hide Sound, BytesOf, Stages, Holds, Index, Offset, Chunk, From, Split;
      var source, size := tables.content[n].version, tables.content[n].size;
      var full, partial := Index(c, size), Offset(c, size);
      var tail: bytes := [];
      if partial > 0 {
        tail := ReadOneChunk(n, source, full);
      }
      AppendTail(f, c, data);
      CarryLeading(n, v, source, full);
      ghost var t1 := tables;
      StageWindow(n, v, full, tail + data);
      TailStaged(chunkSize, t, t1, tables, n, v, f + data, size);
    }

    /** Append at the end; the new size. Appending nothing commits no version and ignores locks. */
    method Append(m: MountId, n: Node, data: bytes) returns (r: Result<nat, Error>)
      requires Valid()
      modifies `tables
      ensures Valid()
      ensures var refusal := old(Refusal(sessions, kinds, m, n, data != []));
              if refusal.Some? then r == Failure(refusal.value) && tables == old(tables)
              else r == Success(|Current(n)|) && Did(chunkSize, old(tables), tables, n, Edit.Append(data))
      ensures m !in sessions.mounts || !sessions.mounts[m].writable ==> r.Failure? && tables == old(tables)
    {
      var refusal := Refusal(sessions, kinds, m, n, data != []);
      if refusal.Some? {
        return Failure(refusal.value);
      }
      EntryHeld(chunkSize, tables, n);
      if data == [] {
        return Success(tables.content[n].size);
      }
      CommitAppend(n, data);
      EntryHeld(chunkSize, tables, n);
      r := Success(tables.content[n].size);
    }

    method CommitAppend(n: Node, data: bytes)
      requires Valid() && n in tables.content && data != []
      modifies `tables
      ensures Valid() && Did(chunkSize, old(tables), tables, n, Edit.Append(data))
    {
      hide Sound, BytesOf, NextVersion, Publishes, Staged, Did;
      EntryHeld(chunkSize, tables, n);
      ghost var g := Current(n) + data;
      var size := tables.content[n].size + |data|;
      var version := NextVersion(tables, n);
      NextVersionIsFresh(tables, n);
      StageAppend(n, version, data);
      UpdateContent(n, version, size, old(tables), g);
      assert g == Apply(old(Current(n)), Edit.Append(data));
      PublishedEdit(chunkSize, old(tables), tables, n, Edit.Append(data));
    }

    // ---- Writing a range ----------------------------------------------------------

    /** Carry the chunks before `lo` and from `hi + 1` to the last one, `last`, into `v` by reference. */
    method CarryAround(n: Node, v: nat, source: nat, lo: nat, hi: nat, last: int)
      requires Valid() && n in tables.content && source == tables.content[n].version && v != source
      requires v > 0 && tables.Rows(Ver(n, v)) == map[] && lo <= hi
      requires forall i | i in tables.Committed(n) :: i <= last
      modifies `tables
      ensures Valid() && Stages(old(tables), tables, Ver(n, v)) && tables.pool == old(tables.pool)
      ensures tables.Rows(Ver(n, v)) == Around(old(tables.Committed(n)), lo, hi + 1)
    {
      hide Sound;
      if lo > 0 {
        CopyRefsRange(n, v, source, 0, lo - 1);
      }
      ghost var t := tables;
      if last > hi {
        CopyRefsRange(n, v, source, hi + 1, last);
        StagesTwice(old(tables), t, tables, Ver(n, v));
      }
    }

    /** The bytes of chunks `lo .. hi` of the committed version. */
    method ReadWindow(n: Node, version: nat, lo: nat, hi: nat) returns (data: bytes)
      requires Valid() && n in tables.content && version == tables.content[n].version && lo <= hi
      ensures data == Span(Current(n), chunkSize, lo, hi + 1)
    {
      EntryHeld(chunkSize, tables, n);
      FetchHeld(tables.pool, tables.Committed(n), chunkSize, Current(n), lo, hi + 1);
      data := Concat(Fetch(tables.pool, tables.Rows(Ver(n, version)), lo, hi + 1));
    }

    /** The bytes of chunks `lo .. hi`, fetching no further than the last one, `last`. */
    method ReadUpTo(n: Node, version: nat, lo: nat, hi: nat, last: int) returns (data: bytes)
      requires Valid() && n in tables.content && version == tables.content[n].version && lo <= hi
      requires last == if |Current(n)| > 0 then Index(chunkSize, |Current(n)| - 1) else -1
      ensures data == Span(Current(n), chunkSize, lo, hi + 1)
    {
      ghost var f := Current(n);
      hide Sound, BytesOf, Index, Span;
      data := [];
      if Min(hi, last) >= lo {
        data := ReadWindow(n, version, lo, Min(hi, last));
      }
      WindowGot(f, chunkSize, lo, hi, last, data);
    }

    /** The window `lo .. hi` as it must read after the overwrite: fetched, padded and patched. */
    method PatchWindow(n: Node, source: nat, offset: nat, data: bytes, lo: nat, hi: nat, last: int) returns (buf: bytes)
      requires Valid() && n in tables.content && source == tables.content[n].version && data != []
      requires lo == WindowLo(chunkSize, |Current(n)|, offset) && hi == WindowHi(chunkSize, offset, |data|)
      requires last == if |Current(n)| > 0 then Index(chunkSize, |Current(n)| - 1) else -1
      ensures lo <= hi
      ensures buf == Span(Overwrite(Current(n), offset, data), chunkSize, lo, hi + 1)
    {
      hide Sound, BytesOf, Index, Start, WindowLo, WindowHi, Span, Overwrite, Splice, PadTo;
      ghost var f := Current(n);
      var c := chunkSize;
      WindowEdges(|f|, c, offset, |data|);
      var base := Start(c, lo);
      OverwriteBuffer(f, c, offset, data, lo, hi, base, Span(f, c, lo, hi + 1));
      buf := ReadUpTo(n, source, lo, hi, last);
      assert buf == Span(f, c, lo, hi + 1);
      buf := PadTo(buf, offset - base);
      buf := Splice(buf, offset - base, offset + |data| - base, data);
      assert buf == Span(Overwrite(f, offset, data), c, lo, hi + 1);
    }

    /** Carry everything around the touched window and rebuild only that. */
    method StageOverwrite(n: Node, v: nat, offset: nat, data: bytes)
      requires Valid() && n in tables.content && v != tables.content[n].version && v > 0
      requires tables.Rows(Ver(n, v)) == map[]
      requires data != []
      modifies `tables
      ensures Valid() && Staged(chunkSize, old(tables), tables, n, v, Overwrite(old(Current(n)), offset, data))
    {
      hide Sound, BytesOf, Holds, Index, WindowLo, WindowHi, Chunk, Span, Split, Overwrite, Around, Free;
      EntryHeld(chunkSize, tables, n);
      var c := chunkSize;
      var source, size := tables.content[n].version, tables.content[n].size;
      var lo, hi := WindowLo(c, size, offset), WindowHi(c, offset, |data|);
      var last := if size > 0 then Index(c, size - 1) else -1;
      LastRow(tables.pool, tables.Committed(n), c, Current(n));
      var buf := PatchWindow(n, source, offset, data, lo, hi, last);
      ghost var t := tables;
      ghost var g := Overwrite(Current(n), offset, data);
      CarryAround(n, v, source, lo, hi, last);
      ghost var t1 := tables;
      assert t1.Rows(Ver(n, v)) == Around(t.Committed(n), lo, hi + 1);
      WindowIsFree(t.Committed(n), t1.Rows(Ver(n, v)), g, buf, c, lo, hi + 1);
      StageWindow(n, v, lo, buf);
      OverwriteStaged(chunkSize, t, t1, tables, n, v, offset, data, lo, hi);
    }

    method CommitOverwrite(n: Node, offset: nat, data: bytes)
      requires Valid() && n in tables.content && data != []
      modifies `tables
      ensures Valid() && Did(chunkSize, old(tables), tables, n, WriteAt(offset, data))
    {
      EntryHeld(chunkSize, tables, n);
      ghost var g := Overwrite(Current(n), offset, data);
      var size := Max(tables.content[n].size, offset + |data|);
      assert size == |g|;
      var version := NextVersion(tables, n);
      NextVersionIsFresh(tables, n);
      hide Sound, BytesOf, Overwrite, NextVersion;
      StageOverwrite(n, version, offset, data);
      UpdateContent(n, version, size, old(tables), g);
      assert g == Apply(old(Current(n)), WriteAt(offset, data));
      PublishedEdit(chunkSize, old(tables), tables, n, WriteAt(offset, data));
    }

    /** Overwrite from `offset` on, zero-filling a gap; the new size. */
    method WriteRange(m: MountId, n: Node, offset: int, data: bytes) returns (r: Result<nat, Error>)
      requires Valid()
      modifies `tables
      ensures Valid()
      ensures var refusal := if offset < 0 then Some(NegativeSize) else old(Refusal(sessions, kinds, m, n, data != []));
              if refusal.Some? then r == Failure(refusal.value) && tables == old(tables)
              else r == Success(|Current(n)|) && Did(chunkSize, old(tables), tables, n, WriteAt(offset, data))
      ensures m !in sessions.mounts || !sessions.mounts[m].writable ==> r.Failure? && tables == old(tables)
    {
      if offset < 0 {
        return Failure(NegativeSize);
      }
      var refusal := Refusal(sessions, kinds, m, n, data != []);
      if refusal.Some? {
        return Failure(refusal.value);
      }
      EntryHeld(chunkSize, tables, n);
      if data == [] {
        return Success(tables.content[n].size);
      }
      CommitOverwrite(n, offset, data);
      EntryHeld(chunkSize, tables, n);
      r := Success(tables.content[n].size);
    }

    // ---- Setting the size -----------------------------------------------------------

    /** Carry the full chunks below `size` and trim the one it falls in. */
    method StageShrink(n: Node, v: nat, size: nat)
      requires Valid() && n in tables.content && v != tables.content[n].version && v > 0
      requires tables.Rows(Ver(n, v)) == map[]
      requires size < tables.content[n].size
      modifies `tables
      ensures Valid() && Staged(chunkSize, old(tables), tables, n, v, Resize(old(Current(n)), size))
    {
      ghost var t, f := tables, Current(n);
      EntryHeld(chunkSize, tables, n);
      var c := chunkSize;
      var source := tables.content[n].version;
      var full, rem := Index(c, size), Offset(c, size);
      ShrinkTail(f, c, size);
      hide Sound, BytesOf, Stages, Holds, Index, Offset, Chunk, From, Split;
      var boundary: bytes := [];
      if rem > 0 {
        boundary := ReadOneChunk(n, source, full);
      }
      CarryLeading(n, v, source, full);
      ghost var t1 := tables;
      if rem > 0 {
        StageChunk(n, v, full, boundary[..rem]);
        OneChunkAppended(tables.pool, t1.Rows(Ver(n, v)), tables.Rows(Ver(n, v)), c, full, boundary[..rem]);
      } else {
        NoChunkAppended(tables.pool, tables.Rows(Ver(n, v)), c, full);
      }
      TailStaged(chunkSize, t, t1, tables, n, v, f[..size], size);
    }

    /** Carry the full chunks, then stage the partial last one zero-filled up to `size`. */
    method StageGrow(n: Node, v: nat, size: nat)
      requires Valid() && n in tables.content && v != tables.content[n].version && v > 0
      requires tables.Rows(Ver(n, v)) == map[]
      requires tables.content[n].size < size
      modifies `tables
      ensures Valid() && Staged(chunkSize, old(tables), tables, n, v, Resize(old(Current(n)), size))
    {
      hide Sound, BytesOf, Stages, Holds, Index, Offset, Chunk, From, Split, Zeros, Resize;
      ghost var t, f := tables, Current(n);
      EntryHeld(chunkSize, tables, n);
      var c := chunkSize;
      var source, cur := tables.content[n].version, tables.content[n].size;
      var full, partial := Index(c, cur), Offset(c, cur);
      GrownTail(f, c, size);
      ghost var g := Resize(f, size);
      var tail: bytes := [];
      if partial > 0 {
        tail := ReadOneChunk(n, source, full);
      }
      assert size - Start(c, full) - |tail| == size - cur;
      var pad := tail + Zeros(size - Start(c, full) - |tail|);
      assert pad == From(g, c, cur);
      CarryLeading(n, v, source, full);
      ghost var t1 := tables;
      StagedPool(t, t1, Ver(n, v));
      StageWindow(n, v, full, pad);
      SoundChunks(c, tables);
      TailStaged(chunkSize, t, t1, tables, n, v, g, cur);
    }

    method CommitResize(n: Node, size: nat)
      requires Valid() && n in tables.content && tables.content[n].size != size
      modifies `tables
      ensures Valid() && Did(chunkSize, old(tables), tables, n, SetSize(size))
    {
      hide Sound, BytesOf, Resize, NextVersion, Publishes, Staged, Did;
      EntryHeld(chunkSize, tables, n);
      ghost var g := Resize(Current(n), size);
      var version := NextVersion(tables, n);
      NextVersionIsFresh(tables, n);
      if size < tables.content[n].size {
        StageShrink(n, version, size);
      } else {
        StageGrow(n, version, size);
      }
      UpdateContent(n, version, size, old(tables), g);
      assert g == Apply(old(Current(n)), SetSize(size));
      PublishedEdit(chunkSize, old(tables), tables, n, SetSize(size));
    }

    /** Cut or zero-extend to `size`; nothing at all when that is already the size. */
    method Truncate(m: MountId, n: Node, size: int) returns (r: Result<(), Error>)
      requires Valid()
      modifies `tables
      ensures Valid()
      ensures var refusal := if size < 0 then Some(NegativeSize) else old(Refusal(sessions, kinds, m, n, true));
              if refusal.Some? then r == Failure(refusal.value) && tables == old(tables)
              else r == Success(()) && Did(chunkSize, old(tables), tables, n, SetSize(size))
      ensures m !in sessions.mounts || !sessions.mounts[m].writable ==> r.Failure? && tables == old(tables)
    {
      if size < 0 {
        return Failure(NegativeSize);
      }
      var refusal := Refusal(sessions, kinds, m, n, true);
      if refusal.Some? {
        return Failure(refusal.value);
      }
      EntryHeld(chunkSize, tables, n);
      if size == tables.content[n].size {
        return Success(());
      }
      CommitResize(n, size);
      r := Success(());
    }

    // ---- Content at birth -----------------------------------------------------------

    /** Give a new node its first content: version 0 when empty, else version 1. */
    method PutInitialContent(n: Node, kind: Kind, data: bytes)
      requires Valid() && n !in kinds && kind != Container
      requires forall v: nat :: tables.Rows(Ver(n, v)) == map[]
      modifies `tables, `kinds
      ensures Valid() && kinds == old(kinds)[n := kind] && Born(chunkSize, old(tables), tables, n, data)
      ensures n in tables.content && tables.content[n].keep == None && Current(n) == data
      ensures forall o | o != n :: Current(o) == old(Current(o))
    {
      hide Sound, BytesOf, Stages, RowsAppended, Born, Split;
      ghost var t := tables;
      var version := if data == [] then 0 else 1;
      StageWindow(n, version, 0, data);
      ContentBorn(chunkSize, t, tables, n, version, data);
      tables := tables.(content := tables.content[n := Content(version, |data|, None)]);
      kinds := kinds[n := kind];
      BornIsThere(chunkSize, t, tables, n, data);
    }

    /** `set_retention_keep`: how many superseded versions the collector is to keep. */
    method SetKeep(n: Node, keep: Option<int>)
      requires Valid() && n in tables.content
      modifies `tables
      ensures Valid()
      ensures tables == old(tables).(content := old(tables.content)[n := old(tables.content[n]).(keep := keep)])
      ensures forall o :: Current(o) == old(Current(o))
    {
      KeepIsSound(chunkSize, tables, n, keep);
      tables := tables.(content := tables.content[n := tables.content[n].(keep := keep)]);
    }

    /** A container is a node without content. */
    method AddContainer(n: Node)
      requires Valid() && n !in kinds
      modifies `kinds
      ensures Valid() && kinds == old(kinds)[n := Container]
    {
      kinds := kinds[n := Container];
    }

    /** Give the new node `dst` the committed version of `src` by reference; no chunk is copied. */
    method CopyContent(src: Node, dst: Node, kind: Kind)
      requires Valid() && src in tables.content && dst !in kinds && kind != Container
      requires forall v: nat :: tables.Rows(Ver(dst, v)) == map[]
      modifies `tables, `kinds
      ensures Valid() && kinds == old(kinds)[dst := kind]
      ensures Born(chunkSize, old(tables), tables, dst, old(Current(src)))
      ensures tables.pool == old(tables.pool) && tables.content[dst].keep == None
      ensures dst in tables.content && Current(dst) == old(Current(src))
      ensures forall o | o != dst :: Current(o) == old(Current(o))
    {
      CopyIsSound(chunkSize, tables, src, dst);
      tables := Copied(tables, src, dst);
      kinds := kinds[dst := kind];
    }
  }
}
