/**
  The content tables: one committed `(version, size)` pointer per entry, the
  manifest rows of every version, and the immutable pool of stored chunks. The
  predicates here say when rows hold given bytes; the two-state relations say
  what one transaction may do to the tables.
 */
module Tables {
  import opened Wrappers
  import opened Flat
  import opened Chunking
  import opened Sessions

  /**
    A chunk as it is stored: sealed by the volume's cipher. `seed` is the fresh
    randomness of the non-convergent mode; a convergent cipher always uses 0.
    That opening undoes sealing is the destructor.
   */
  datatype Stored = Sealed(plain: bytes, seed: nat)

  /** The address of a chunk. Equal addresses mean equal stored bytes. */
  datatype Address = AddressOf(stored: Stored)

  datatype Content = Content(version: nat, size: nat, keep: Option<int>)

  datatype Ver = Ver(node: Node, number: nat)

  /** The rows of one version: chunk index to chunk address. */
  type Manifest = map<nat, Address>

  type Pool = map<Address, Stored>

  datatype Tables = Tables(content: map<Node, Content>, versions: map<Ver, Manifest>, pool: Pool) {
    function Rows(v: Ver): Manifest {
      if v in versions then versions[v] else map[]
    }

    function Committed(n: Node): Manifest
      requires n in content
    {
      Rows(Ver(n, content[n].version))
    }
  }

  // ---- Reading rows ------------------------------------------------------

  /** `read_chunks_range`: the stored chunks with index in `[lo, hi)`, in index order. */
  function Fetch(pool: Pool, m: Manifest, lo: nat, hi: nat): seq<bytes>
    decreases hi - lo
  {
    if hi <= lo then []
    else (if lo in m && m[lo] in pool then [pool[m[lo]].plain] else []) + Fetch(pool, m, lo + 1, hi)
  }

  function Concat(chunks: seq<bytes>): bytes {
    if chunks == [] then [] else chunks[0] + Concat(chunks[1..])
  }

  lemma ConcatCons(row: bytes, rest: seq<bytes>)
    ensures Concat([row] + rest) == row + Concat(rest)
  {
    assert ([row] + rest)[1..] == rest;
  }

  lemma {:induction false} LargestExists(s: set<nat>) returns (w: nat)
    requires s != {}
    ensures w in s && forall y | y in s :: y <= w
  {
    var x :| x in s;
    var rest := s - {x};
    w := x;
    if rest != {} {
      var z := LargestExists(rest);
      if x < z { w := z; }
    }
    forall y | y in s ensures y <= w { assert y == x || y in rest; }
  }

  function Largest(s: set<nat>): (r: nat)
    ensures s != {} ==> r in s
    ensures forall x | x in s :: x <= r
  {
    if s == {} then 0 else
      assert exists x :: x in s && forall y | y in s :: y <= x by { var w := LargestExists(s); }
      var x :| x in s && forall y | y in s :: y <= x;
      x
  }

  /** One past the largest chunk index of a version. */
  function Top(m: Manifest): nat {
    if m == map[] then 0 else Largest(m.Keys) + 1
  }

  /** The bytes a version reassembles to. */
  function Whole(pool: Pool, m: Manifest): bytes {
    Concat(Fetch(pool, m, 0, Top(m)))
  }

  /** `read_content_bytes`: the current bytes of an entry, empty when it has no content row. */
  function BytesOf(t: Tables, n: Node): bytes {
    if n in t.content then Whole(t.pool, t.Committed(n)) else []
  }

  // ---- When rows hold bytes ------------------------------------------------

  /** The rows are exactly the uniform chunks of `f`: indexes from 0 without a gap, each resolving in the pool. */
  ghost predicate Holds(pool: Pool, m: Manifest, c: pos, f: bytes) {
    && (forall i: nat :: i in m <==> Chunk(f, c, i) != [])
    && (forall i | i in m :: m[i] in pool && pool[m[i]].plain == Chunk(f, c, i))
  }

  lemma FetchStep(pool: Pool, m: Manifest, lo: nat, hi: nat)
    requires lo < hi && (lo in m ==> m[lo] in pool)
    ensures Concat(Fetch(pool, m, lo, hi))
            == (if lo in m then pool[m[lo]].plain else []) + Concat(Fetch(pool, m, lo + 1, hi))
  {
    if lo in m {
      ConcatCons(pool[m[lo]].plain, Fetch(pool, m, lo + 1, hi));
    } else {
      assert Fetch(pool, m, lo, hi) == Fetch(pool, m, lo + 1, hi);
    }
  }

  lemma NothingToFetch(pool: Pool, m: Manifest, i: nat)
    ensures Concat(Fetch(pool, m, i, i)) == []
  {
  }

  lemma NoSpan(f: bytes, c: pos, i: nat)
    ensures Span(f, c, i, i) == []
  {
  }

  lemma HeldAt(pool: Pool, m: Manifest, c: pos, f: bytes, i: nat)
    requires Holds(pool, m, c, f)
    ensures i in m ==> m[i] in pool && pool[m[i]].plain == Span(f, c, i, i + 1)
    ensures i !in m ==> Span(f, c, i, i + 1) == []
  {
    hide Span;
    assert Chunk(f, c, i) == Span(f, c, i, i + 1);
  }

  /** Fetching a range of chunks yields the span of bytes they cover. */
  lemma {:induction false} FetchHeld(pool: Pool, m: Manifest, c: pos, f: bytes, lo: nat, hi: nat)
    requires Holds(pool, m, c, f) && lo <= hi
    ensures Concat(Fetch(pool, m, lo, hi)) == Span(f, c, lo, hi)
    decreases hi - lo
  {
    hide Holds, Chunk, Span, Fetch, Concat;
    if lo == hi {
      NothingToFetch(pool, m, lo);
      NoSpan(f, c, lo);
    } else {
      HeldAt(pool, m, c, f, lo);
      FetchHeld(pool, m, c, f, lo + 1, hi);
      SpanSplit(f, c, lo, lo + 1, hi);
      FetchStep(pool, m, lo, hi);
    }
  }

  /** The bytes held are the bytes reassembled, so a version holds at most one byte sequence. */
  lemma HeldIsWhole(pool: Pool, m: Manifest, c: pos, f: bytes)
    requires Holds(pool, m, c, f)
    ensures Whole(pool, m) == f
  {
    var top := Top(m);
    assert top !in m;
    ChunkShape(f, c, top);
    FetchHeld(pool, m, c, f, 0, top);
    SpanToEnd(f, c, 0, top);
  }

  // ---- Consistency ---------------------------------------------------------

  ghost predicate PoolSound(pool: Pool) {
    forall h | h in pool :: AddressOf(pool[h]) == h
  }

  /** No manifest row dangles. */
  ghost predicate Resolves(t: Tables) {
    forall v, i | v in t.versions && i in t.versions[v] :: t.versions[v][i] in t.pool
  }

  /** Version 0 is the empty birth version and never has rows. */
  ghost predicate NumberedFromOne(t: Tables) {
    forall v | v in t.versions && v.number == 0 :: t.versions[v] == map[]
  }

  /** The committed version of `n` is uniformly chunked and as long as its pointer says. */
  ghost predicate EntrySound(c: pos, t: Tables, n: Node)
    requires n in t.content
  {
    && Holds(t.pool, t.Committed(n), c, BytesOf(t, n))
    && |BytesOf(t, n)| == t.content[n].size
  }

  ghost predicate Sound(c: pos, t: Tables) {
    && PoolSound(t.pool)
    && Resolves(t)
    && NumberedFromOne(t)
    && (forall n {:trigger EntrySound(c, t, n)} | n in t.content :: EntrySound(c, t, n))
  }

  // ---- What a transaction does ----------------------------------------------

  /** Chunks are only ever added to the pool, never rewritten in place. */
  ghost predicate PoolGrows(p: Pool, p': Pool) {
    forall h | h in p :: h in p' && p'[h] == p[h]
  }

  lemma {:induction false} FetchStable(p: Pool, p': Pool, m: Manifest, lo: nat, hi: nat)
    requires forall i | i in m :: m[i] in p && m[i] in p' && p'[m[i]] == p[m[i]]
    ensures Fetch(p', m, lo, hi) == Fetch(p, m, lo, hi)
    decreases hi - lo
  {
    if lo < hi { FetchStable(p, p', m, lo + 1, hi); }
  }

  /** `next_version`: above the committed pointer and above every version that has rows. */
  function NextVersion(t: Tables, n: Node): nat {
    Max(if n in t.content then t.content[n].version else 0,
        Largest(set v | v in t.versions && v.node == n && t.versions[v] != map[] :: v.number)) + 1
  }

  /** No number is left out: the one before it is committed, or has rows, or is 0. */
  lemma NextVersionIsNext(t: Tables, n: Node)
    ensures var last := NextVersion(t, n) - 1;
            last == 0 || t.Rows(Ver(n, last)) != map[] || (n in t.content && t.content[n].version == last)
  {
    var used := set v | v in t.versions && v.node == n && t.versions[v] != map[] :: v.number;
    if used != {} { assert Largest(used) in used; }
  }

  lemma NextVersionIsFresh(t: Tables, n: Node)
    ensures t.Rows(Ver(n, NextVersion(t, n))) == map[]
    ensures n in t.content ==> t.content[n].version < NextVersion(t, n)
  {
    var used := set v | v in t.versions && v.node == n && t.versions[v] != map[] :: v.number;
    var v := Ver(n, NextVersion(t, n));
    assert v.number !in used;
  }

  /** Only the rows of version `v` and unreferenced pool chunks were added. */
  ghost predicate Stages(t: Tables, t': Tables, v: Ver) {
    && t'.content == t.content
    && (forall u :: u != v ==> t'.Rows(u) == t.Rows(u))
    && PoolGrows(t.pool, t'.pool)
  }

  /** A new version of `n` holding `g` was staged and its pointer swapped, and nothing else. */
  ghost predicate Commits(c: pos, t: Tables, t': Tables, n: Node, v: nat, g: bytes) {
    && n in t.content && v > 0
    && t'.content == t.content[n := t.content[n].(version := v, size := |g|)]
    && (forall u :: u != Ver(n, v) ==> t'.Rows(u) == t.Rows(u))
    && Holds(t'.pool, t'.Rows(Ver(n, v)), c, g)
    && PoolGrows(t.pool, t'.pool)
    && PoolSound(t'.pool)
  }

  /** An entry whose committed rows and their chunks are kept reads as before. */
  lemma KeptEntry(c: pos, t: Tables, t': Tables, n: Node)
    requires Sound(c, t)
    requires n in t.content && n in t'.content && t'.content[n].version == t.content[n].version
    requires t'.content[n].size == t.content[n].size
    requires t'.Committed(n) == t.Committed(n)
    requires forall i | i in t.Committed(n) && t.Committed(n)[i] in t.pool ::
               t.Committed(n)[i] in t'.pool && t'.pool[t.Committed(n)[i]] == t.pool[t.Committed(n)[i]]
    ensures BytesOf(t', n) == BytesOf(t, n) && EntrySound(c, t', n)
  {
    assert EntrySound(c, t, n);
    FetchStable(t.pool, t'.pool, t.Committed(n), 0, Top(t.Committed(n)));
  }

  /** A commit publishes exactly `g`, keeps the tables sound and leaves every other entry's bytes alone. */
  lemma CommitMeaning(c: pos, t: Tables, t': Tables, n: Node, v: nat, g: bytes)
    requires Sound(c, t) && Commits(c, t, t', n, v, g)
    requires v != t.content[n].version
    ensures Sound(c, t')
    ensures BytesOf(t', n) == g
    ensures forall o | o != n :: BytesOf(t', o) == BytesOf(t, o)
  {
    HeldIsWhole(t'.pool, t'.Rows(Ver(n, v)), c, g);
    assert EntrySound(c, t', n);
    forall o | o != n
      ensures BytesOf(t', o) == BytesOf(t, o)
      ensures o in t.content ==> EntrySound(c, t', o)
    {
      CommitKeepsOthers(c, t, t', n, v, g, o);
    }
    RowsResolve(t, t', Ver(n, v));
  }

  lemma CommitKeepsOthers(c: pos, t: Tables, t': Tables, n: Node, v: nat, g: bytes, o: Node)
    requires Sound(c, t) && Commits(c, t, t', n, v, g) && o != n
    ensures BytesOf(t', o) == BytesOf(t, o)
    ensures o in t.content ==> EntrySound(c, t', o)
  {
    hide Holds, EntrySound;
    if o in t.content { KeptEntry(c, t, t', o); }
  }

  lemma RowsResolve(t: Tables, t': Tables, v: Ver)
    requires Resolves(t) && PoolGrows(t.pool, t'.pool)
    requires forall u :: u != v ==> t'.Rows(u) == t.Rows(u)
    requires forall i | i in t'.Rows(v) :: t'.Rows(v)[i] in t'.pool
    requires NumberedFromOne(t) && (v.number > 0 || t'.Rows(v) == map[])
    ensures Resolves(t') && NumberedFromOne(t')
  {
    forall u | u in t'.versions && u.number == 0 ensures t'.versions[u] == map[] {
      assert t'.Rows(u) == t'.versions[u];
      if u != v { assert t'.Rows(u) == t.Rows(u); }
    }
    forall u, i | u in t'.versions && i in t'.versions[u]
      ensures t'.versions[u][i] in t'.pool
    {
      if u != v {
        assert t'.Rows(u) == t.Rows(u);
        assert u in t.versions;
      } else {
        assert t'.Rows(v)[i] in t'.pool;
      }
    }
  }

  /** Staging rows of a version that is not committed changes no entry's bytes. */
  lemma StageMeaning(c: pos, t: Tables, t': Tables, v: Ver)
    requires Sound(c, t) && Stages(t, t', v) && PoolSound(t'.pool)
    requires v.node in t.content ==> t.content[v.node].version != v.number
    requires v.number > 0 || t'.Rows(v) == map[]
    requires forall i | i in t'.Rows(v) :: t'.Rows(v)[i] in t'.pool
    ensures Sound(c, t')
    ensures forall o :: BytesOf(t', o) == BytesOf(t, o)
  {
    forall o
      ensures BytesOf(t', o) == BytesOf(t, o)
      ensures o in t.content ==> EntrySound(c, t', o)
    {
      if o in t.content { KeptEntry(c, t, t', o); }
    }
    RowsResolve(t, t', v);
  }

  /** Adding rows that resolve to a version that is not committed is a staging step. */
  lemma RowsAdded(c: pos, t: Tables, v: Ver, rows: Manifest, p': Pool)
    requires Sound(c, t) && PoolGrows(t.pool, p') && PoolSound(p')
    requires v.node in t.content ==> t.content[v.node].version != v.number
    requires v.number > 0 || rows == map[]
    requires forall i | i in rows :: rows[i] in p'
    ensures var t' := t.(versions := t.versions[v := rows], pool := p');
            Sound(c, t') && Stages(t, t', v) && t'.Rows(v) == rows
  {
    var t' := t.(versions := t.versions[v := rows], pool := p');
    assert t'.Rows(v) == rows;
    assert forall u :: u != v ==> t'.Rows(u) == t.Rows(u);
    StageMeaning(c, t, t', v);
  }

  /** Existing rows resolve, so they may be carried into another version by reference. */
  lemma RowsPresent(t: Tables, v: Ver)
    requires Resolves(t)
    ensures forall i | i in t.Rows(v) :: t.Rows(v)[i] in t.pool
  {
  }

  lemma StagesTwice(t: Tables, t': Tables, t'': Tables, v: Ver)
    requires Stages(t, t', v) && Stages(t', t'', v)
    ensures Stages(t, t'', v)
  {
  }

  /** Rows staged at `index` hold `data`, whether the chunk was new or already pooled. */
  lemma PoolUpsert(p: Pool, stored: Stored)
    requires PoolSound(p)
    ensures var p' := if AddressOf(stored) in p then p else p[AddressOf(stored) := stored];
            PoolGrows(p, p') && PoolSound(p') && AddressOf(stored) in p' && p'[AddressOf(stored)] == stored
  {
  }

  /** Since `t`, a version holding `g` was committed to `n`; every other entry reads as before. */
  ghost predicate Publishes(c: pos, t: Tables, t': Tables, n: Node, v: nat, g: bytes) {
    && Sound(c, t')
    && Commits(c, t, t', n, v, g)
    && BytesOf(t', n) == g
    && (forall o | o != n :: BytesOf(t', o) == BytesOf(t, o))
  }

  /** Version `v` of `n` has been staged since `t`, and holds `g`. */
  ghost predicate Staged(c: pos, t: Tables, t1: Tables, n: Node, v: nat, g: bytes) {
    && Stages(t, t1, Ver(n, v)) && PoolSound(t1.pool)
    && n in t.content && v != t.content[n].version && v > 0
    && Holds(t1.pool, t1.Rows(Ver(n, v)), c, g)
  }

  function Swapped(t: Tables, n: Node, v: nat, size: nat): Tables
    requires n in t.content
  {
    t.(content := t.content[n := t.content[n].(version := v, size := size)])
  }

  lemma SwapCommits(c: pos, t: Tables, t1: Tables, n: Node, v: nat, g: bytes)
    requires Staged(c, t, t1, n, v, g)
    ensures Commits(c, t, Swapped(t1, n, v, |g|), n, v, g)
  {
    var t' := Swapped(t1, n, v, |g|);
    forall u ensures t'.Rows(u) == t1.Rows(u) {}
  }

  /** Swapping the pointer of `n` to rows that hold `g` publishes `g`. */
  lemma SwapPublishes(c: pos, t: Tables, t1: Tables, n: Node, v: nat, g: bytes)
    requires Sound(c, t) && Staged(c, t, t1, n, v, g)
    ensures Publishes(c, t, Swapped(t1, n, v, |g|), n, v, g)
  {
    SwapCommits(c, t, t1, n, v, g);
    CommitMeaning(c, t, Swapped(t1, n, v, |g|), n, v, g);
  }

  /** A content row for a new node whose rows are in place: the node reads as `f`, all others as before. */
  lemma ContentAdded(c: pos, t: Tables, n: Node, v: nat, keep: Option<int>, f: bytes)
    requires Sound(c, t) && n !in t.content && Holds(t.pool, t.Rows(Ver(n, v)), c, f)
    ensures var t' := t.(content := t.content[n := Content(v, |f|, keep)]);
            Sound(c, t') && BytesOf(t', n) == f && forall o | o != n :: BytesOf(t', o) == BytesOf(t, o)
  {
    var t' := t.(content := t.content[n := Content(v, |f|, keep)]);
    HeldIsWhole(t.pool, t.Rows(Ver(n, v)), c, f);
    assert t'.Committed(n) == t.Rows(Ver(n, v));
    assert EntrySound(c, t', n);
    forall o | o != n
      ensures BytesOf(t', o) == BytesOf(t, o)
      ensures o in t'.content ==> EntrySound(c, t', o)
    {
      hide Holds, EntrySound;
      if o in t.content { KeptEntry(c, t, t', o); }
    }
  }
}
