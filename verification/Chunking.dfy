/**
  Uniform chunking. A byte sequence is cut into chunks of one fixed size, the
  last one possibly short. Every chunk is determined by the flat bytes, the
  chunk size and the index alone, which is what lets a new version carry the
  chunks around an edit by reference.
 */
module Chunking {
  import opened Flat

  /** The offset at which chunk `i` starts: `i * c`, as a sum so that proofs stay linear. */
  function Start(c: pos, i: nat): nat {
    if i == 0 then 0 else Start(c, i - 1) + c
  }

  lemma {:induction false} StartIsProduct(c: pos, i: nat)
    ensures Start(c, i) == i * c
  {
    if i > 0 {
      StartIsProduct(c, i - 1);
      assert i * c == (i - 1) * c + c;
    }
  }

  lemma {:induction false} StartAdds(c: pos, i: nat, k: nat)
    ensures Start(c, i + k) == Start(c, i) + Start(c, k)
    ensures k <= Start(c, k)
  {
    if k > 0 { StartAdds(c, i, k - 1); }
  }

  lemma StartOrder(c: pos, i: nat, j: nat)
    ensures i <= j ==> Start(c, i) <= Start(c, j)
    ensures i < j ==> Start(c, i + 1) <= Start(c, j)
  {
    if i <= j { StartAdds(c, i, j - i); }
    if i < j { StartAdds(c, i + 1, j - i - 1); }
  }

  /** The number of the chunk that holds byte `k`. */
  function Index(c: pos, k: nat): (r: nat)
    ensures Start(c, r) <= k < Start(c, r + 1)
  {
    if k < c then 0 else Index(c, k - c) + 1
  }

  /** How far byte `k` lies into its chunk. */
  function Offset(c: pos, k: nat): nat {
    k - Start(c, Index(c, k))
  }

  /** `Index` and `Offset` are quotient and remainder, written so that proofs stay linear. */
  lemma IndexIsQuotient(c: pos, k: nat)
    ensures Index(c, k) == k / c && Offset(c, k) == k % c
  {
    StartIsProduct(c, Index(c, k));
    QuotientUnique(c, k, Index(c, k), Offset(c, k));
  }

  lemma QuotientUnique(c: pos, k: nat, q: nat, r: nat)
    requires k == q * c + r && r < c
    ensures q == k / c && r == k % c
  {
    var d := k / c - q;
    assert k == (k / c) * c + k % c;
    assert (k / c) * c == q * c + d * c;
    ProductSign(d, c);
  }

  lemma ProductSign(d: int, c: pos)
    ensures d >= 1 ==> d * c >= c
    ensures d <= -1 ==> d * c + c <= 0
  {
    assert d * c == (d - 1) * c + c;
    assert d * c == (d + 1) * c - c;
  }

  /** Where chunk `i` starts, clipped to the length `n` of the whole. */
  function Cut(n: nat, c: pos, i: nat): (r: nat)
    ensures r <= n
  {
    Min(Start(c, i), n)
  }

  /** The bytes of chunks `i .. j-1`. */
  function Span(f: bytes, c: pos, i: nat, j: nat): bytes
    requires i <= j
  {
    StartOrder(c, i, j);
    f[Cut(|f|, c, i)..Cut(|f|, c, j)]
  }

  function Chunk(f: bytes, c: pos, i: nat): bytes {
    Span(f, c, i, i + 1)
  }

  /** A chunk exists exactly while its start lies inside the bytes; all but the last are full. */
  lemma ChunkShape(f: bytes, c: pos, i: nat)
    ensures Chunk(f, c, i) != [] <==> Start(c, i) < |f|
    ensures |Chunk(f, c, i)| <= c
    ensures Chunk(f, c, i + 1) != [] ==> |Chunk(f, c, i)| == c
  {
    assert Start(c, i + 2) == Start(c, i) + c + c;
  }

  lemma SpanSplit(f: bytes, c: pos, i: nat, j: nat, k: nat)
    requires i <= j <= k
    ensures Span(f, c, i, k) == Span(f, c, i, j) + Span(f, c, j, k)
  {
    StartOrder(c, i, j);
    StartOrder(c, j, k);
  }

  /** A span long enough to reach the end is a plain suffix. */
  lemma SpanToEnd(f: bytes, c: pos, i: nat, j: nat)
    requires Start(c, i) <= |f| <= Start(c, j) && i <= j
    ensures Span(f, c, i, j) == f[Start(c, i)..]
  {
  }

  lemma CutShift(n: nat, c: pos, i: nat, j: nat, k: nat)
    requires i + k <= j
    ensures Cut(n, c, i) <= Cut(n, c, i + k) <= Cut(n, c, j)
    ensures Cut(Cut(n, c, j) - Cut(n, c, i), c, k) == Cut(n, c, i + k) - Cut(n, c, i)
  {
    StartAdds(c, i, k);
    StartOrder(c, i + k, j);
  }

  lemma SliceOfSlice(f: bytes, a: nat, b: nat, x: nat, y: nat)
    requires x <= y && a + y <= b <= |f|
    ensures f[a..b][x..y] == f[a + x..a + y]
  {
    var s, r := f[a..b][x..y], f[a + x..a + y];
    assert |s| == |r|;
    forall i | 0 <= i < |s| ensures s[i] == r[i] {
      assert s[i] == f[a..b][x + i];
    }
  }

  /** Chunking a span is chunking the whole, shifted. */
  lemma ChunkOfSpan(f: bytes, c: pos, i: nat, j: nat, k: nat)
    requires i + k < j
    ensures Chunk(Span(f, c, i, j), c, k) == Chunk(f, c, i + k)
  {
    hide Cut;
    CutShift(|f|, c, i, j, k);
    CutShift(|f|, c, i, j, k + 1);
    CutShift(|f|, c, i + k, j, 1);
    SliceOfSlice(f, Cut(|f|, c, i), Cut(|f|, c, j), Cut(|f|, c, i + k) - Cut(|f|, c, i),
                 Cut(|f|, c, i + k + 1) - Cut(|f|, c, i));
  }

  /** Past the span there is nothing. */
  lemma ChunkPastSpan(f: bytes, c: pos, i: nat, j: nat, k: nat)
    requires i <= j <= i + k
    ensures Chunk(Span(f, c, i, j), c, k) == []
  {
    StartAdds(c, i, k);
    StartOrder(c, i, j);
    StartOrder(c, j, i + k);
    ChunkShape(Span(f, c, i, j), c, k);
  }

  /** Chunking a suffix that starts on a chunk boundary is chunking the whole, shifted. */
  lemma ChunkOfSuffix(f: bytes, c: pos, i: nat, k: nat)
    requires Start(c, i) <= |f|
    ensures Chunk(f[Start(c, i)..], c, k) == Chunk(f, c, i + k)
  {
    var far := Max(i + k + 1, |f|);
    StartAdds(c, 0, far);
    SpanToEnd(f, c, i, far);
    ChunkOfSpan(f, c, i, far, k);
  }

  /** Bytes that agree on a chunk's range have that chunk in common. */
  lemma ChunkAgree(f: bytes, g: bytes, c: pos, i: nat)
    requires Cut(|f|, c, i) == Cut(|g|, c, i) && Cut(|f|, c, i + 1) == Cut(|g|, c, i + 1)
    requires forall k | Cut(|f|, c, i) <= k < Cut(|f|, c, i + 1) :: f[k] == g[k]
    ensures Chunk(f, c, i) == Chunk(g, c, i)
  {
  }

  /** `split_chunks`: the pieces of `data`, each of `c` bytes but the last. */
  function Split(data: bytes, c: pos): seq<bytes> {
    if data == [] then [] else [data[..Min(c, |data|)]] + Split(data[Min(c, |data|)..], c)
  }

  lemma ChunkOfRest(data: bytes, c: pos, k: nat)
    ensures Chunk(data[Min(c, |data|)..], c, k) == Chunk(data, c, k + 1)
  {
    assert Start(c, 1) == c;
    if c <= |data| {
      ChunkOfSuffix(data, c, 1, k);
    } else {
      StartOrder(c, 1, k + 1);
      ChunkShape(data, c, k + 1);
      ChunkShape([], c, k);
    }
  }

  lemma FirstChunk(data: bytes, c: pos)
    ensures Chunk(data, c, 0) == data[..Min(c, |data|)]
  {
    assert Start(c, 0) == 0 && Start(c, 1) == c;
  }

  lemma {:induction false} SplitIsChunks(data: bytes, c: pos, k: nat)
    ensures k < |Split(data, c)| <==> Chunk(data, c, k) != []
    ensures k < |Split(data, c)| ==> Split(data, c)[k] == Chunk(data, c, k)
  {
    if data == [] {
      ChunkShape(data, c, k);
    } else {
      hide Chunk;
      var rest := data[Min(c, |data|)..];
      assert Split(data, c) == [data[..Min(c, |data|)]] + Split(rest, c);
      if k == 0 {
        FirstChunk(data, c);
      } else {
        SplitIsChunks(rest, c, k - 1);
        ChunkOfRest(data, c, k - 1);
      }
    }
  }
}
