/**
  How an edit of flat bytes looks chunk by chunk: which chunks are the same
  before and after, and what the rebuilt window must contain.
 */
module Editing {
  import opened Flat
  import opened Chunking

  /** Slice assignment `buf[a:b] = d`, where `b` may lie past the end. */
  function Splice(buf: bytes, a: nat, b: nat, d: bytes): bytes
    requires a <= |buf| && a <= b
  {
    buf[..a] + d + buf[Min(b, |buf|)..]
  }

  /** Zero-fill `buf` up to `n` bytes. */
  function PadTo(buf: bytes, n: int): (r: bytes)
    ensures n <= |r|
  {
    if n > |buf| then buf + Zeros(n - |buf|) else buf
  }

  // ---- write_range ---------------------------------------------------------

  /** Chunks before the window are untouched by an overwrite. */
  lemma OverwritePrefix(f: bytes, c: pos, off: nat, d: bytes, i: nat)
    requires d != [] && i < Min(Index(c, off), Index(c, |f|))
    ensures Chunk(Overwrite(f, off, d), c, i) == Chunk(f, c, i)
    ensures Chunk(f, c, i) != []
  {
    StartOrder(c, i, Index(c, off));
    StartOrder(c, i, Index(c, |f|));
    ChunkAgree(Overwrite(f, off, d), f, c, i);
  }

  /** Chunks after the window are untouched by an overwrite, present or not. */
  lemma OverwriteSuffix(f: bytes, c: pos, off: nat, d: bytes, i: nat)
    requires d != [] && Index(c, off + |d| - 1) < i
    ensures Chunk(Overwrite(f, off, d), c, i) == Chunk(f, c, i)
  {
    var hi := Index(c, off + |d| - 1);
    StartOrder(c, hi + 1, i);
    var g := Overwrite(f, off, d);
    if Start(c, i) < |f| {
      ChunkAgree(g, f, c, i);
    } else {
      ChunkShape(g, c, i);
      ChunkShape(f, c, i);
    }
  }

  /** The last chunk of a non-empty byte sequence. */
  lemma LastChunk(f: bytes, c: pos, i: nat)
    requires f != []
    ensures Chunk(f, c, i) != [] <==> i <= Index(c, |f| - 1)
  {
    var last := Index(c, |f| - 1);
    ChunkShape(f, c, i);
    StartOrder(c, i, last);
    StartOrder(c, last, i);
  }

  /** Fetching stops at the last existing chunk; the span up to the window's end is the same. */
  lemma WindowSource(f: bytes, c: pos, lo: nat, hi: nat, got: nat)
    requires lo <= hi + 1 && lo <= got <= hi + 1
    requires got <= hi ==> |f| <= Start(c, got)
    ensures Span(f, c, lo, got) == Span(f, c, lo, hi + 1)
  {
    StartOrder(c, got, hi + 1);
  }

  lemma PatchSlice(f: bytes, off: nat, d: bytes, base: nat, stop: nat)
    requires d != [] && base <= |f| && base <= off && off + |d| <= stop
    ensures var g := Overwrite(f, off, d);
            Splice(PadTo(f[base..Min(stop, |f|)], off - base), off - base, off + |d| - base, d)
            == g[base..Min(stop, |g|)]
  {
    var g := Overwrite(f, off, d);
    var old' := f[base..Min(stop, |f|)];
    var padded := PadTo(old', off - base);
    var patched := Splice(padded, off - base, off + |d| - base, d);
    assert |patched| == Max(|padded|, off + |d| - base);
    assert |patched| == Min(stop, |g|) - base;
    forall i | 0 <= i < |patched| ensures patched[i] == g[base + i] {
      if i < off - base {
        assert patched[i] == padded[i];
      } else if i < off + |d| - base {
      } else {
        assert patched[i] == padded[i] == f[base + i];
      }
    }
  }

  lemma WindowBounds(size: nat, c: pos, off: nat, n: pos)
    ensures Min(Index(c, off), Index(c, size)) <= Index(c, off + n - 1)
    ensures Start(c, Min(Index(c, off), Index(c, size))) <= Min(off, size)
    ensures off + n <= Start(c, Index(c, off + n - 1) + 1)
  {
    StartOrder(c, Index(c, off + n - 1) + 1, Index(c, off));
    StartOrder(c, Min(Index(c, off), Index(c, size)), Index(c, off));
    StartOrder(c, Min(Index(c, off), Index(c, size)), Index(c, size));
  }

  /** Padding and patching the old window gives the window of the overwritten bytes. */
  lemma OverwriteWindow(f: bytes, c: pos, off: nat, d: bytes, wlo: nat, hi: nat)
    requires d != [] && wlo <= hi
    requires Start(c, wlo) <= Min(off, |f|) && off + |d| <= Start(c, hi + 1)
    ensures var before := PadTo(Span(f, c, wlo, hi + 1), off - Start(c, wlo));
            Splice(before, off - Start(c, wlo), off + |d| - Start(c, wlo), d)
            == Span(Overwrite(f, off, d), c, wlo, hi + 1)
  {
    PatchSlice(f, off, d, Start(c, wlo), Start(c, hi + 1));
  }

  // ---- append and truncate ---------------------------------------------------

  /** The full leading chunks are shared by any two byte sequences with that much in common. */
  lemma SharedPrefix(f: bytes, g: bytes, c: pos, n: nat, i: nat)
    requires n <= |f| && n <= |g| && f[..n] == g[..n]
    requires i < Index(c, n)
    ensures Chunk(f, c, i) == Chunk(g, c, i) && Chunk(g, c, i) != []
  {
    StartOrder(c, i, Index(c, n));
    forall k | Start(c, i) <= k < Start(c, i + 1) ensures f[k] == g[k] {
      assert f[..n][k] == g[..n][k];
    }
    ChunkAgree(f, g, c, i);
  }

  /** The partial last chunk is what follows the full ones. */
  lemma PartialTail(f: bytes, c: pos)
    ensures Start(c, Index(c, |f|)) <= |f|
    ensures Chunk(f, c, Index(c, |f|)) == f[Start(c, Index(c, |f|))..]
    ensures Offset(c, |f|) == 0 <==> f[Start(c, Index(c, |f|))..] == []
  {
  }
}
