/** Edits in sequence, on any number of entries, against the same edits on flat bytes. */
module Edits {
  import opened Flat
  import opened Chunking
  import opened Sessions
  import opened Tables
  import opened Store

  /** The edits among `es` that were made to `n`, in order. */
  function EditsOf(es: seq<(Node, Edit)>, n: Node): seq<Edit> {
    if es == [] then []
    else
      var last := es[|es| - 1];
      EditsOf(es[..|es| - 1], n) + if last.0 == n then [last.1] else []
  }

  ghost predicate EditRun(c: pos, ts: seq<Tables>, es: seq<(Node, Edit)>) {
    && |ts| == |es| + 1
    && forall i | 0 <= i < |es| :: es[i].0 in ts[i].content && Did(c, ts[i], ts[i + 1], es[i].0, es[i].1)
  }

  lemma NoOpChangesNothing(f: bytes, e: Edit)
    requires IsNoOp(f, e)
    ensures Apply(f, e) == f
  {
  }

  lemma OneEdit(c: pos, t: Tables, t': Tables, n: Node, e: Edit)
    requires Sound(c, t) && Did(c, t, t', n, e)
    ensures Sound(c, t') && BytesOf(t', n) == Apply(BytesOf(t, n), e)
    ensures forall o | o != n :: BytesOf(t', o) == BytesOf(t, o)
  {
    if IsNoOp(BytesOf(t, n), e) { NoOpChangesNothing(BytesOf(t, n), e); }
  }

  /**
    After any sequence of replacements, appends, range writes and resizes,
    interleaved over any entries, each entry reads as its own edits applied in
    order to its flat bytes, although the entries share chunks.
   */
  lemma {:induction false} EditsAreFlat(c: pos, ts: seq<Tables>, es: seq<(Node, Edit)>, n: Node, k: nat)
    requires EditRun(c, ts, es) && Sound(c, ts[0]) && k <= |es|
    ensures Sound(c, ts[k])
    ensures BytesOf(ts[k], n) == ApplyAll(BytesOf(ts[0], n), EditsOf(es[..k], n))
  {
    if k > 0 {
      EditsAreFlat(c, ts, es, n, k - 1);
      OneEdit(c, ts[k - 1], ts[k], es[k - 1].0, es[k - 1].1);
      OneMoreEdit(BytesOf(ts[0], n), es, n, k);
    }
  }

  lemma OneMoreEdit(f: bytes, es: seq<(Node, Edit)>, n: Node, k: nat)
    requires 0 < k <= |es|
    ensures var before := ApplyAll(f, EditsOf(es[..k - 1], n));
            ApplyAll(f, EditsOf(es[..k], n)) == if es[k - 1].0 == n then Apply(before, es[k - 1].1) else before
  {
    hide Apply;
    assert es[..k][..k - 1] == es[..k - 1];
    var before := EditsOf(es[..k - 1], n);
    if es[k - 1].0 == n {
      assert (before + [es[k - 1].1])[..|before|] == before;
    } else {
      assert before + [] == before;
    }
  }

  /** In a sound state every chunk of a committed version but the last is full. */
  lemma AllButLastFull(c: pos, t: Tables, n: Node, i: nat)
    requires Sound(c, t) && n in t.content && i + 1 in t.Committed(n)
    ensures i in t.Committed(n) && t.Committed(n)[i] in t.pool && |t.pool[t.Committed(n)[i]].plain| == c
  {
    EntryHeld(c, t, n);
    ChunkShape(BytesOf(t, n), c, i);
  }
}
