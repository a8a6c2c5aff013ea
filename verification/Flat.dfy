/**
  The plain meaning of an entry: a flat sequence of bytes, and what writing,
  appending and resizing mean on it. Everything the engine stores is proved
  against these few definitions.
 */
module Flat {
  newtype byte = x: int | 0 <= x < 256

  type bytes = seq<byte>

  type pos = x: int | 1 <= x witness 1

  function Min(a: int, b: int): int {
    if a <= b then a else b
  }

  function Max(a: int, b: int): int {
    if a <= b then b else a
  }

  function Zeros(n: nat): bytes {
    seq(n, _ => 0)
  }

  /** Byte `i` of `f` once `d` is laid over it at `off`; a gap reads as zero. */
  function OverwrittenAt(f: bytes, off: nat, d: bytes, i: nat): byte {
    if off <= i < off + |d| then d[i - off] else if i < |f| then f[i] else 0
  }

  /** Overwrite `[off, off + |d|)`, zero-filling a gap. Writing nothing changes nothing. */
  function Overwrite(f: bytes, off: nat, d: bytes): bytes {
    if d == [] then f else seq(Max(|f|, off + |d|), i requires i >= 0 => OverwrittenAt(f, off, d, i))
  }

  /** Cut to, or zero-extend to, `n` bytes. */
  function Resize(f: bytes, n: nat): (r: bytes)
    ensures |r| == n
  {
    if n <= |f| then f[..n] else f + Zeros(n - |f|)
  }

  /** The operations that rewrite an entry's content, read on flat bytes. */
  datatype Edit =
    | Replace(data: bytes)
    | Append(data: bytes)
    | WriteAt(offset: nat, data: bytes)
    | SetSize(size: nat)

  function Apply(f: bytes, e: Edit): bytes {
    match e
    case Replace(d) => d
    case Append(d) => f + d
    case WriteAt(off, d) => Overwrite(f, off, d)
    case SetSize(n) => Resize(f, n)
  }

  function ApplyAll(f: bytes, es: seq<Edit>): bytes {
    if es == [] then f else Apply(ApplyAll(f, es[..|es| - 1]), es[|es| - 1])
  }
}
