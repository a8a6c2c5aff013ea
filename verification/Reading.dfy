/**
  The read side of a descriptor: a cursor over an entry that fetches only the
  chunks a request covers. The committed pointer is read afresh on every call.
 */
module Reading {
  import opened Wrappers
  import opened Flat
  import opened Chunking
  import opened Sessions
  import opened Tables
  import opened Store

  datatype Whence = Set | Cur | End

  lemma RangeOfChunks(c: pos, start: nat, end: nat)
    requires start < end
    ensures Index(c, start) <= Index(c, end - 1)
    ensures Start(c, Index(c, start)) <= start && end <= Start(c, Index(c, end - 1) + 1)
  {
    StartOrder(c, Index(c, end - 1) + 1, Index(c, start));
  }

  /** Cutting the fetched chunks at the edges gives exactly the requested bytes. */
  lemma EdgesTrimmed(f: bytes, c: pos, start: nat, end: nat, lo: nat, hi: nat, base: nat, buf: bytes)
    requires start < end <= |f| && lo <= hi && base == Start(c, lo) && base <= start && end <= Start(c, hi + 1)
    requires buf == Span(f, c, lo, hi + 1)
    ensures end - base <= |buf| && buf[start - base..end - base] == f[start..end]
  {
    StartOrder(c, lo, hi + 1);
    SliceOfSlice(f, Cut(|f|, c, lo), Cut(|f|, c, hi + 1), start - base, end - base);
  }

  /** `_fetch_range`: the chunks of version `u` that cover `[start, end)`, cut at the edges as far as they reach. */
  function Ranged(c: pos, t: Tables, u: Ver, start: nat, end: nat): bytes
    requires start < end
  {
    RangeOfChunks(c, start, end);
    var lo, hi := Index(c, start), Index(c, end - 1);
    var buf, base := Concat(Fetch(t.pool, t.Rows(u), lo, hi + 1)), Start(c, lo);
    buf[Min(start - base, |buf|)..Min(end - base, |buf|)]
  }

  /** Where the version holds `f`, that is the slice of `f`. */
  lemma RangedHeld(c: pos, t: Tables, u: Ver, f: bytes, start: nat, end: nat)
    requires Holds(t.pool, t.Rows(u), c, f) && start < end <= |f|
    ensures Ranged(c, t, u, start, end) == f[start..end]
  {
    hide Holds, Index, Span, Start, Fetch, Concat;
    var lo, hi := Index(c, start), Index(c, end - 1);
    RangeOfChunks(c, start, end);
    FetchHeld(t.pool, t.Rows(u), c, f, lo, hi + 1);
    EdgesTrimmed(f, c, start, end, lo, hi, Start(c, lo), Concat(Fetch(t.pool, t.Rows(u), lo, hi + 1)));
  }

  lemma RangedAlways(c: pos, t: Tables, u: Ver, start: nat, end: nat)
    requires start < end
    ensures forall f: bytes | Holds(t.pool, t.Rows(u), c, f) && end <= |f| ::
              Ranged(c, t, u, start, end) == f[start..end]
  {
    hide Holds, Ranged;
    forall f: bytes | Holds(t.pool, t.Rows(u), c, f) && end <= |f|
      ensures Ranged(c, t, u, start, end) == f[start..end]
    {
      RangedHeld(c, t, u, f, start, end);
    }
  }

  /** Where the version has no rows, that is nothing. */
  lemma RangedGone(c: pos, t: Tables, u: Ver, start: nat, end: nat)
    requires t.Rows(u) == map[] && start < end
    ensures Ranged(c, t, u, start, end) == []
  {
    hide Index, Start;
    NothingFetched(t.pool, Index(c, start), Index(c, end - 1) + 1);
  }

  lemma {:induction false} NothingFetched(pool: Pool, lo: nat, hi: nat)
    ensures Fetch(pool, map[], lo, hi) == []
    decreases hi - lo
  {
    if lo < hi { NothingFetched(pool, lo + 1, hi); }
  }

  class ReadDescriptor {
    const db: Db
    const node: Node
    var position: nat
    var version: nat
    var size: nat
    var closed: bool

    constructor (db: Db, node: Node)
      ensures this.db == db && this.node == node && position == 0 && !closed
    {
      this.db, this.node := db, node;
      position, version, size, closed := 0, 0, 0, false;
    }

    /** Re-read the committed pointer. */
    method Refresh()
      modifies `version, `size
      ensures node in db.tables.content ==>
                version == db.tables.content[node].version && size == db.tables.content[node].size
      ensures node !in db.tables.content ==> version == 0 && size == 0
    {
      if node in db.tables.content {
        version, size := db.tables.content[node].version, db.tables.content[node].size;
      } else {
        version, size := 0, 0;
      }
    }

    /** The bytes `[start, end)` of the version last refreshed, as its rows are by now. */
    method FetchRange(start: nat, end: nat) returns (data: bytes)
      requires start < end
      ensures data == Ranged(db.chunkSize, db.tables, Ver(node, version), start, end)
      ensures forall f: bytes |
                Holds(db.tables.pool, db.tables.Rows(Ver(node, version)), db.chunkSize, f) && end <= |f| ::
                data == f[start..end]
    {
      hide Index, Start, Fetch, Concat, Holds;
      var c := db.chunkSize;
      RangeOfChunks(c, start, end);
      RangedAlways(c, db.tables, Ver(node, version), start, end);
      var lo, hi := Index(c, start), Index(c, end - 1);
      var buf := Concat(Fetch(db.tables.pool, db.tables.Rows(Ver(node, version)), lo, hi + 1));
      var base := Start(c, lo);
      data := buf[Min(start - base, |buf|)..Min(end - base, |buf|)];
    }

    /** Read up to `n` bytes, or to the end when `n` is negative, and advance. */
    method Read(n: int) returns (data: bytes)
      requires db.Valid() && !closed
      modifies this
      ensures closed == old(closed)
      ensures var f := db.Current(node);
              var end := if n < 0 then |f| else Min(|f|, old(position) + n);
              if end <= old(position) then data == [] && position == old(position)
              else data == f[old(position)..end] && position == end
    {
      hide Sound, Whole, Holds;
      Refresh();
      ghost var f := db.Current(node);
      if node in db.tables.content { EntryHeld(db.chunkSize, db.tables, node); }
      var start := position;
      var end := if n < 0 then size else Min(size, start + n);
      if end <= start {
        return [];
      }
      data := FetchRange(start, end);
      position := end;
    }

    /** Move the cursor. `End` is relative to the size committed now, not at open. */
    method Seek(offset: int, whence: Whence) returns (r: Option<nat>)
      requires db.Valid() && !closed
      modifies this
      ensures closed == old(closed)
      ensures var target := match whence
                            case Set => offset
                            case Cur => old(position) + offset
                            case End => |db.Current(node)| + offset;
              if target < 0 then r == None && position == old(position) else r == Some(target) && position == target
    {
      if whence == End {
        Refresh();
        if node in db.tables.content { EntryHeld(db.chunkSize, db.tables, node); }
      }
      var target := match whence case Set => offset case Cur => position + offset case End => size + offset;
      if target < 0 {
        return None;
      }
      position := target;
      r := Some(target);
    }

    method Close()
      modifies `closed
      ensures closed
    {
      closed := true;
    }
  }

  /** Reading in pieces until a read comes back empty rebuilds the rest of the file. */
  method ReadToEnd(r: ReadDescriptor, piece: pos) returns (data: bytes)
    requires r.db.Valid() && !r.closed
    modifies r
    ensures data == if r.db.Current(r.node) == [] || |r.db.Current(r.node)| < old(r.position) then []
                    else r.db.Current(r.node)[old(r.position)..]
  {
    ghost var f, from := r.db.Current(r.node), r.position;
    data := [];
    var chunk := r.Read(piece);
    while chunk != []
      invariant r.db.Valid() && !r.closed && r.db.Current(r.node) == f
      invariant chunk != [] ==> from <= r.position <= |f| && data + chunk == f[from..r.position]
      invariant chunk == [] && from <= |f| ==> r.position == |f| && data == f[from..]
      invariant chunk == [] && from > |f| ==> data == []
      decreases if chunk == [] then 0 else |f| - r.position + 1
    {
      data := data + chunk;
      ghost var at := r.position;
      chunk := r.Read(piece);
      if chunk != [] {
        assert f[from..at] + f[at..r.position] == f[from..r.position];
      }
    }
  }
}
