/**
  The random-access write buffer of one inode: dirty extents over committed
  content. Reads overlay them, a flush commits each one as its own write.
 */
module Overlay {
  import opened Wrappers
  import opened Flat
  import opened Sessions
  import opened Tables
  import opened Store
  import opened Reading
  import opened Extents

  /** Flush once this many bytes are dirty. */
  const DIRTY_FLUSH: nat := 0x200_0000

  /** `f[off..off + n]`, cut off at the end of `f`. */
  function Slice(f: bytes, off: nat, n: nat): bytes {
    if Min(off + n, |f|) <= off then [] else f[off..Min(off + n, |f|)]
  }

  /** Slices of `f` join up to `f`, each no longer than asked for. */
  lemma SlicesJoin(f: bytes, off: nat, n: nat, k: nat)
    ensures |Slice(f, off, n)| <= n && Slice(f, 0, |f|) == f
    ensures Slice(f, off, n) + Slice(f, off + n, k) == Slice(f, off, n + k)
  {
  }

  lemma EditedBytes(c: pos, t: Tables, t': Tables, n: Node, e: Edit)
    requires Did(c, t, t', n, e)
    ensures BytesOf(t', n) == Apply(BytesOf(t, n), e)
    ensures forall o | o != n :: BytesOf(t', o) == BytesOf(t, o)
    ensures t'.content.Keys == t.content.Keys + if IsNoOp(BytesOf(t, n), e) then {} else {n}
  {
  }

  lemma NothingOverlaid(f: bytes, es: seq<Extent>, off: nat, end: nat, data: bytes)
    requires off < end
    requires var got := Slice(f, off, end - off);
             data == got + Zeros(end - off)[|got|..]
    ensures |data| == end - off && Overlaid(f, es, 0, off, data)
  {
    assert es[..0] == [];
  }

  /** `data` holds bytes `[off, end)`; lay the part of `e` that falls in there over it. */
  function Patched(data: bytes, e: Extent, off: nat, end: nat): (r: bytes)
    requires off <= end && |data| == end - off
    ensures |r| == |data|
  {
    if e.Hi() <= off || e.lo >= end then data
    else
      var from, to := Max(e.lo, off), Min(e.Hi(), end);
      data[..from - off] + e.data[from - e.lo..to - e.lo] + data[to - off..]
  }

  lemma PatchedBytes(data: bytes, e: Extent, off: nat, end: nat, k: nat)
    requires off <= end && |data| == end - off && k < |data|
    ensures Patched(data, e, off, end)[k] == if e.lo <= off + k < e.Hi() then ByteAt(e, off + k) else data[k]
  {
    var from, to := Max(e.lo, off), Min(e.Hi(), end);
    if e.lo <= off + k < e.Hi() {
      assert e.data[from - e.lo..to - e.lo][off + k - from] == e.data[off + k - e.lo];
    }
  }

  lemma ResizeLength(f: bytes, size: nat)
    ensures |Resize(f, size)| == size
  {
  }

  lemma NothingMerged(es: seq<Extent>, w: Extent)
    ensures Merging(es, 0, [], w, w)
  {
    assert es[..0] == [];
  }

  /**
    Fold the old extents that overlap or adjoin the new bytes around them, so
    that the new bytes win, and keep the rest; in order of position.
   */
  method Coalesce(es: seq<Extent>, off: nat, data: bytes) returns (r: seq<Extent>, newHi: nat)
    requires Apart(es) && data != []
    ensures Apart(r) && Image(r) == Image(es) + Patch(Extent(off, data))
    ensures LastEnd(r) == Max(LastEnd(es), off + |data|) && off + |data| <= newHi <= LastEnd(r)
  {
    hide Image, Patch, Apart, LastEnd, Merging, Folded;
    ghost var w := Extent(off, data);
    var newLo: nat, buf := off, data;
    newHi := off + |data|;
    var merged: seq<Extent> := [];
    NothingMerged(es, w);
    for i := 0 to |es|
      invariant Merging(es, i, merged, Extent(newLo, buf), w) && newHi == newLo + |buf|
    {
      var e := es[i];
      ghost var n := Extent(newLo, buf);
      if e.Hi() < newLo || e.lo > newHi {
        MergeKeeps(es, i, merged, n, w);
        merged := merged + [e];
      } else {
        MergeFolds(es, i, merged, n, w);
        FoldedSteps(e, n);
        if e.lo < newLo {
          buf := e.data[..newLo - e.lo] + buf;
          newLo := e.lo;
        }
        if e.Hi() > newHi {
          buf := buf + e.data[newHi - e.lo..];
          newHi := newLo + |buf|;
        }
        assert Extent(newLo, buf) == Folded(e, n);
      }
    }
    MergeSorted(es, merged, Extent(newLo, buf), w);
    r := SortByLo(merged + [Extent(newLo, buf)]);
  }

  class OpenFile {
    const db: Db
    const mount: MountId
    const node: Node
    var refs: nat
    var size: nat
    var extents: seq<Extent>
    var dirty: nat

    /** Why the engine would refuse a write of the entry through this mount, if it would. */
    function Refused(): Option<Error>
      reads db
    {
      Refusal(db.sessions, db.kinds, mount, node, true)
    }

    predicate Ready()
      reads db
    {
      Refused().None?
    }

    ghost predicate Valid()
      reads this, db
    {
      && db.Valid() && node in db.tables.content
      && Apart(extents)
      && dirty == Total(extents)
      && size == Max(|db.Current(node)|, LastEnd(extents))
    }

    /** The file every handle sees. */
    ghost function Logical(): bytes
      reads this, db
    {
      View(db.Current(node), extents, size)
    }

    constructor (db: Db, mount: MountId, node: Node)
      requires db.Valid() && node in db.tables.content
      ensures this.db == db && this.mount == mount && this.node == node && refs == 0
      ensures Valid() && Logical() == db.Current(node) && extents == []
    {
      EntryHeld(db.chunkSize, db.tables, node);
      ViewOfNone(db.Current(node));
      this.db, this.mount, this.node := db, mount, node;
      refs, size, extents, dirty := 0, db.tables.content[node].size, [], 0;
    }

    /**
      Fold the new bytes into the extents they touch; flush when too much is
      dirty. Where that flush is refused so is the write, but its bytes stay.
     */
    method Write(off: nat, data: bytes) returns (r: Result<nat, Error>)
      requires Valid() && data != []
      modifies `size, `extents, `dirty, db`tables
      ensures Valid() && Refused() == old(Refused())
      ensures Logical() == Overwrite(old(Logical()), off, data)
      ensures r.Success? ==> r.value == |data| && dirty < DIRTY_FLUSH
      ensures r.Failure? ==> Refused() == Some(r.error) && dirty >= DIRTY_FLUSH && db.tables == old(db.tables)
      ensures forall o | o != node :: db.Current(o) == old(db.Current(o))
    {
      hide View, Image, Patch, Overwrite, BytesOf, Apart, Sound, Refusal;
      ghost var w := Extent(off, data);
      var merged, newHi := Coalesce(extents, off, data);
      ViewWrite(db.Current(node), extents, size, w, merged);
      extents := merged;
      dirty := Total(extents);
      size := Max(size, newHi);
      if dirty >= DIRTY_FLUSH {
        var flushed := Flush();
        if flushed.Failure? {
          return Failure(flushed.error);
        }
      }
      r := Success(|data|);
    }

    method CommitExtent(e: Extent)
      requires db.Valid() && node in db.tables.content && Ready()
      modifies db`tables
      ensures db.Valid() && node in db.tables.content
      ensures db.Current(node) == Overwrite(old(db.Current(node)), e.lo, e.data)
      ensures forall o | o != node :: db.Current(o) == old(db.Current(o))
    {
      ghost var t := db.tables;
      hide Did, Sound, BytesOf, Overwrite;
      var r := db.WriteRange(mount, node, e.lo, e.data);
      EditedBytes(db.chunkSize, t, db.tables, node, WriteAt(e.lo, e.data));
    }

    method CommitSize(newSize: nat)
      requires db.Valid() && node in db.tables.content && Ready()
      modifies db`tables
      ensures db.Valid() && node in db.tables.content
      ensures db.Current(node) == Resize(old(db.Current(node)), newSize)
      ensures forall o | o != node :: db.Current(o) == old(db.Current(o))
    {
      ghost var t := db.tables;
      hide Did, Sound, BytesOf, Resize;
      var r := db.Truncate(mount, node, newSize);
      EditedBytes(db.chunkSize, t, db.tables, node, SetSize(newSize));
    }

    /** Every write on the way keeps the view of what is left to commit. */
    method CommitExtents()
      requires Valid() && (extents != [] ==> Ready())
      modifies db`tables
      ensures db.Valid() && node in db.tables.content
      ensures db.Current(node) == old(Logical()) && |db.Current(node)| == size
      ensures forall o | o != node :: db.Current(o) == old(db.Current(o))
      ensures extents == [] ==> db.tables == old(db.tables)
    {
      ghost var view := Logical();
      assert extents[0..] == extents;
      for i := 0 to |extents|
        invariant db.Valid() && node in db.tables.content
        invariant size == Max(|db.Current(node)|, LastEnd(extents[i..]))
        invariant view == View(db.Current(node), extents[i..], size)
        invariant forall o | o != node :: db.Current(o) == old(db.Current(o))
        invariant extents == [] ==> db.tables == old(db.tables)
      {
        hide View, Overwrite, Image, Refusal, db.Valid, db.Current;
        FlushStep(db.Current(node), extents, i, size, view);
        CommitExtent(extents[i]);
      }
      assert extents[|extents|..] == [];
      ViewOfNone(db.Current(node));
    }

    /** Commit each extent as one write of the engine; the file stays as it was. Refused, the first one stops it. */
    method Flush() returns (r: Result<(), Error>)
      requires Valid()
      modifies `extents, `dirty, db`tables
      ensures Valid() && Logical() == old(Logical()) && Refused() == old(Refused())
      ensures r == if old(extents) == [] || Ready() then Success(()) else Failure(Refused().value)
      ensures r.Success? ==> extents == [] && dirty == 0 && db.Current(node) == Logical()
      ensures r.Failure? ==> extents == old(extents) && dirty == old(dirty)
      ensures forall o | o != node :: db.Current(o) == old(db.Current(o))
      ensures old(extents) == [] || !Ready() ==> db.tables == old(db.tables)
    {
      hide View, Overwrite, Image, Refusal, db.Valid, db.Current;
      if extents != [] && !Ready() {
        return Failure(Refused().value);
      }
      CommitExtents();
      extents, dirty := [], 0;
      assert Logical() == View(db.Current(node), [], |db.Current(node)|);
      ViewOfNone(db.Current(node));
      r := Success(());
    }

    /** Up to `n` bytes at `off` of the file every handle sees. */
    method Read(off: nat, n: nat) returns (r: Result<bytes, Error>)
      requires Valid()
      ensures r == if ValidMount(db.sessions, mount) || Slice(Logical(), off, n) == []
                   then Success(Slice(Logical(), off, n))
                   else Failure(MountInvalid)
    {
      var end := Min(off + n, size);
      if end <= off {
        return Success([]);
      }
      if !ValidMount(db.sessions, mount) {
        return Failure(MountInvalid);
      }
      var data := ReadOverlaid(off, n, end);
      r := Success(data);
    }

    /** The committed bytes there, with the dirty extents laid over them. */
    method ReadOverlaid(off: nat, n: nat, end: nat) returns (data: bytes)
      requires Valid() && off < end == Min(off + n, size)
      ensures data == Slice(Logical(), off, n)
    {
      ghost var f := db.Current(node);
      data := ReadCommitted(off, end);
      var es := extents;
      hide View, Image, db.Valid, Patched, Overlaid, ByteAt;
      for i := 0 to |es|
        invariant |data| == end - off && Overlaid(f, es, i, off, data)
      {
        var next := Patched(data, es[i], off, end);
        forall k: nat | k < |data|
          ensures next[k] == if es[i].lo <= off + k < es[i].Hi() then ByteAt(es[i], off + k) else data[k]
        {
          PatchedBytes(data, es[i], off, end, k);
        }
        OverlaidNext(f, es, i, off, data, next);
        data := next;
      }
      OverlaidIsView(f, es, size, off, data);
    }

    /** The committed bytes of `[off, end)`, zero past the committed size. */
    method ReadCommitted(off: nat, end: nat) returns (data: bytes)
      requires Valid() && off < end
      ensures |data| == end - off && Overlaid(db.Current(node), extents, 0, off, data)
    {
      hide Sound, BytesOf, Apart, Total, LastEnd, Overlaid;
      EntryHeld(db.chunkSize, db.tables, node);
      var committed := db.tables.content[node].size;
      data := Zeros(end - off);
      if off < committed {
        var r := new ReadDescriptor(db, node);
        var _ := r.Seek(off, Set);
        var got := r.Read(Max(0, Min(end, committed) - off));
        data := got + data[|got|..];
      }
      NothingOverlaid(db.Current(node), extents, off, end, data);
    }

    /** Flush, then resize what is committed. Refused, it changes nothing. */
    method Truncate(newSize: nat) returns (r: Result<(), Error>)
      requires Valid()
      modifies `size, `extents, `dirty, db`tables
      ensures Valid() && Refused() == old(Refused())
      ensures r == if Ready() then Success(()) else Failure(Refused().value)
      ensures Logical() == if Ready() then Resize(old(Logical()), newSize) else old(Logical())
      ensures r.Success? ==> dirty == 0
      ensures forall o | o != node :: db.Current(o) == old(db.Current(o))
    {
      hide View, Did, Sound, BytesOf, Apart, Resize, Total;
      r := Flush();
      if r.Failure? {
        return;
      }
      ResizeLength(db.Current(node), newSize);
      if !Ready() {
        return Failure(Refused().value);
      }
      CommitSize(newSize);
      size := newSize;
      ViewOfNone(db.Current(node));
    }
  }
}
