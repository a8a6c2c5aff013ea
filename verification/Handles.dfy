/**
  The handle table of a mounted volume: read handles and random-access
  handles, the latter sharing one write buffer per inode. Whatever mixture is
  open on an inode, every handle sees the same file.
 */
module Handles {
  import opened Wrappers
  import opened Flat
  import opened Sessions
  import opened Tables
  import opened Store
  import opened Reading
  import opened Extents
  import opened Overlay
  import opened Edits

  /** The file layer's own refusal, or one of the engine's passed on. */
  datatype Errno = NotSupported | Refused(error: Error)

  datatype Handle = Reader(node: Node, r: ReadDescriptor) | Random(node: Node, of: OpenFile)

  /** One inode being worked on, and the reference pending before and after. */
  datatype Touch = Touch(node: Node, before: Option<Node>, after: Option<Node>)

  /** The open random-access handles on `n`. */
  ghost function RandomOn(handles: map<nat, Handle>, n: Node): set<nat> {
    set fh | fh in handles && handles[fh].Random? && handles[fh].node == n
  }

  lemma OpenedCounts(handles: map<nat, Handle>, fh: nat, h: Handle, n: Node)
    requires fh !in handles
    ensures |RandomOn(handles[fh := h], n)| == |RandomOn(handles, n)| + if h.Random? && h.node == n then 1 else 0
  {
    var after := RandomOn(handles[fh := h], n);
    if h.Random? && h.node == n {
      assert after == RandomOn(handles, n) + {fh};
    } else {
      assert after == RandomOn(handles, n);
    }
  }

  lemma ReleasedCounts(handles: map<nat, Handle>, fh: nat, n: Node)
    requires fh in handles
    ensures |RandomOn(handles - {fh}, n)|
         == |RandomOn(handles, n)| - if handles[fh].Random? && handles[fh].node == n then 1 else 0
  {
    OpenedCounts(handles - {fh}, fh, handles[fh], n);
    assert (handles - {fh})[fh := handles[fh]] == handles;
  }

  lemma NoneLeft(handles: map<nat, Handle>, n: Node)
    requires |RandomOn(handles, n)| == 0
    ensures forall fh | fh in handles && handles[fh].Random? :: handles[fh].node != n
  {
    forall fh | fh in handles && handles[fh].Random? ensures handles[fh].node != n {
      assert fh !in RandomOn(handles, n);
    }
  }

  // ---- The shared files under any sequence of calls -----------------------------------------

  /** The calls that can change a file, and all the others. */
  datatype Call = Wrote(node: Node, offset: nat, data: bytes) | Resized(node: Node, size: nat) | Other

  type Files = imap<Node, bytes>

  function EditsIn(calls: seq<Call>): seq<(Node, Edit)> {
    if calls == [] then []
    else
      EditsIn(calls[..|calls| - 1]) +
      match calls[|calls| - 1]
      case Wrote(n, off, data) => [(n, WriteAt(off, data))]
      case Resized(n, size) => [(n, SetSize(size))]
      case Other => []
  }

  function Effect(c: Call, n: Node, f: bytes): bytes {
    match c
    case Wrote(m, off, data) => if n == m then Overwrite(f, off, data) else f
    case Resized(m, size) => if n == m then Resize(f, size) else f
    case Other => f
  }

  ghost predicate Follows(before: Files, after: Files, c: Call) {
    forall n: Node :: n in before && n in after && after[n] == Effect(c, n, before[n])
  }

  /**
    After any sequence of calls by any handles each file is its own writes and
    resizings applied in order to what it was, buffered, committed or half of each.
   */
  lemma {:induction false} OneSharedFile(files: seq<Files>, calls: seq<Call>, n: Node, k: nat)
    requires |files| == |calls| + 1 && k <= |calls| && n in files[0]
    requires forall i | 0 <= i < |calls| :: Follows(files[i], files[i + 1], calls[i])
    ensures n in files[k] && files[k][n] == ApplyAll(files[0][n], EditsOf(EditsIn(calls[..k]), n))
  {
    if k > 0 {
      OneSharedFile(files, calls, n, k - 1);
      assert Follows(files[k - 1], files[k - 1 + 1], calls[k - 1]);
      CallsGrow(files[0][n], calls, n, k);
    }
  }

  lemma CallsGrow(f: bytes, calls: seq<Call>, n: Node, k: nat)
    requires 0 < k <= |calls|
    ensures ApplyAll(f, EditsOf(EditsIn(calls[..k]), n))
            == Effect(calls[k - 1], n, ApplyAll(f, EditsOf(EditsIn(calls[..k - 1]), n)))
  {
    hide Overwrite, Resize;
    assert calls[..k][..k - 1] == calls[..k - 1];
    var before := EditsIn(calls[..k - 1]);
    if calls[k - 1].Other? {
      assert before + [] == before;
    } else {
      var c := calls[k - 1];
      var e := if c.Wrote? then WriteAt(c.offset, c.data) else SetSize(c.size);
      var all := before + [(calls[k - 1].node, e)];
      assert all[..|all|] == all && all[..|all| - 1] == before;
      OneMoreEdit(f, all, n, |all|);
    }
  }

  class FileSystem {
    const db: Db
    const mount: MountId
    var handles: map<nat, Handle>
    var files: map<Node, OpenFile>
    var lastHandle: nat
    /** References whose call failed before it could give them back. */
    ghost var lost: multiset<Node>

    ghost function Readers(): set<object>
      reads `handles
    {
      set fh | fh in handles && handles[fh].Reader? :: handles[fh].r
    }

    ghost predicate HandlesLinked()
      reads `handles, `lastHandle, `files, Readers()
    {
      forall fh | fh in handles ::
        && fh <= lastHandle
        && match handles[fh]
           case Reader(n, r) => r.db == db && r.node == n && !r.closed
           case Random(n, of) => n in files && files[n] == of
    }

    /** No two read handles share a descriptor. */
    ghost predicate ReadersApart()
      reads `handles
    {
      forall a, b | a in handles && b in handles && handles[a].Reader? && handles[b].Reader? ::
        handles[a].r == handles[b].r ==> a == b
    }

    ghost predicate BufferHeld(n: Node)
      requires n in files
      reads `files, db, files[n]
    {
      && files[n].db == db && files[n].mount == mount && files[n].node == n && files[n].Valid()
    }

    ghost predicate LostKept()
      reads `lost, `files
    {
      forall n | n in lost :: n in files
    }

    /** A buffer lives as long as a random-access handle is open on its inode, and counts them and the lost ones. */
    ghost predicate Valid()
      reads this, db, files.Values, Readers()
    {
      Counted(None)
    }

    /** A reference taken for a handle not yet in the table is `pending`. */
    ghost predicate Counted(pending: Option<Node>)
      reads this, db, files.Values, Readers()
    {
      && db.Valid() && HandlesLinked() && ReadersApart() && LostKept()
      && (forall n | n in files ::
            && BufferHeld(n)
            && files[n].refs == |RandomOn(handles, n)| + lost[n] + (if pending == Some(n) then 1 else 0) > 0)
    }

    /** Why a write of `n` would be refused, if it would. */
    function RefusalFor(n: Node): Option<Error>
      reads db
    {
      Refusal(db.sessions, db.kinds, mount, n, true)
    }

    predicate Writable(n: Node)
      reads db
    {
      RefusalFor(n).None?
    }

    /** Nothing is pending on the inode, or what is can be written. */
    ghost predicate Flushable(n: Node)
      reads this, db, files.Values
    {
      n in files && files[n].extents != [] ==> Writable(n)
    }

    /** The mount can open the entry. */
    predicate Openable(n: Node)
      reads db
    {
      ValidMount(db.sessions, mount) && n in db.kinds && db.kinds[n] != Container
    }

    /** The one file all handles on `n` share. */
    ghost function File(n: Node): bytes
      reads `files, db, files.Values
    {
      if n in files then View(db.Current(n), files[n].extents, files[n].size) else db.Current(n)
    }

    ghost function Files(): Files
      reads `files, db, files.Values
    {
      imap n: Node | true :: File(n)
    }

    constructor (db: Db, mount: MountId)
      requires db.Valid()
      ensures Valid() && this.db == db && this.mount == mount && handles == map[] && files == map[]
      ensures lost == multiset{}
      ensures forall n :: File(n) == db.Current(n)
    {
      this.db, this.mount := db, mount;
      handles, files, lastHandle, lost := map[], map[], 0, multiset{};
    }

    /** A step that touches one inode's buffer and committed bytes leaves the other files alone. */
    twostate lemma OnlyOneChanged(t: Touch)
      requires old(Counted(t.before)) && db.Valid() && unchanged(this) && unchanged(db`kinds)
      requires forall fh | fh in handles && handles[fh].Reader? :: !handles[fh].r.closed
      requires forall o | o in files && o != t.node :: unchanged(files[o])
      requires forall o | o != t.node :: db.Current(o) == old(db.Current(o))
      requires t.node in files ==> files[t.node].Valid() && files[t.node].refs == old(files[t.node].refs)
      ensures Counted(t.before)
      ensures forall o | o != t.node :: File(o) == old(File(o))
    {
      hide BytesOf, Sound, Apart, View, RandomOn, FileSystem.LostKept;
      forall o | o in files ensures BufferHeld(o) {
        assert old(BufferHeld(o));
      }
    }

    /** Taking or dropping a reference on one inode's buffer leaves everything else counted. */
    twostate lemma OnlyOneReferenced(t: Touch)
      requires old(Counted(t.before)) && t.before in {None, Some(t.node)} && t.after in {None, Some(t.node)}
      requires unchanged(db) && unchanged(`handles) && unchanged(`lastHandle) && unchanged(`lost)
      requires forall fh | fh in handles && handles[fh].Reader? :: unchanged(handles[fh].r)
      requires forall o | o != t.node :: o in files <==> o in old(files)
      requires forall o | o in old(files) && o != t.node :: files[o] == old(files[o]) && unchanged(files[o])
      requires t.node in files ==>
                 && BufferHeld(t.node)
                 && files[t.node].refs ==
                      |RandomOn(handles, t.node)| + lost[t.node] + (if t.after == Some(t.node) then 1 else 0) > 0
      requires t.node !in files ==> t.node !in lost
      requires t.node !in files ==> forall fh | fh in handles && handles[fh].Random? :: handles[fh].node != t.node
      requires t.node in old(files) && t.node in files ==> files[t.node] == old(files[t.node])
      ensures Counted(t.after)
      ensures forall o | o != t.node :: File(o) == old(File(o))
    {
      hide BytesOf, Sound, Apart, View, RandomOn, OpenFile.Valid;
      forall o | o in files ensures BufferHeld(o) {
        assert o != t.node ==> old(BufferHeld(o));
      }
    }

    /** Make everything pending on the inode durable. */
    method Settle(n: Node) returns (r: Result<(), Errno>)
      requires Valid()
      modifies files.Values, db`tables
      ensures Valid() && RefusalFor(n) == old(RefusalFor(n))
      ensures r == if old(Flushable(n)) then Success(()) else Failure(Refused(RefusalFor(n).value))
      ensures r.Success? ==> db.Current(n) == File(n)
      ensures forall o :: File(o) == old(File(o))
    {
      r := Success(());
      if n in files {
        assert BufferHeld(n);
        hide BytesOf, Sound, Apart, View;
        if files[n].dirty > 0 {
          r := FlushShared(n, None);
        } else {
          NothingDirty(files[n].extents);
          ViewOfNone(db.Current(n));
        }
      }
    }

    method NextHandle() returns (fh: nat)
      requires Valid()
      modifies `lastHandle
      ensures Valid() && fh == lastHandle && fh !in handles
      ensures forall o :: File(o) == old(File(o))
    {
      hide BytesOf, Sound, Apart, View, RandomOn, OpenFile.Valid, FileSystem.LostKept;
      lastHandle := lastHandle + 1;
      fh := lastHandle;
      forall o | o in files ensures BufferHeld(o) {
        assert old(BufferHeld(o));
      }
    }

    method OpenRead(n: Node) returns (fh: nat)
      requires Valid() && Openable(n)
      modifies `handles, `lastHandle
      ensures Valid() && fh !in old(handles) && fh in handles
      ensures handles == old(handles)[fh := handles[fh]] && handles[fh].Reader? && handles[fh].node == n
      ensures forall o :: File(o) == old(File(o))
      ensures Follows(old(Files()), Files(), Other)
    {
      hide BytesOf, Sound, Apart, View, RandomOn, OpenFile.Valid, FileSystem.LostKept;
      var r := new ReadDescriptor(db, n);
      fh := NextHandle();
      InstallReader(fh, n, r);
    }

    method InstallReader(fh: nat, n: Node, r: ReadDescriptor)
      requires Valid() && fh !in handles && fh <= lastHandle && r.db == db && r.node == n && !r.closed
      requires r !in Readers()
      modifies `handles
      ensures Valid() && handles == old(handles)[fh := Reader(n, r)]
      ensures forall o :: File(o) == old(File(o))
    {
      hide BytesOf, Sound, Apart, View, RandomOn, OpenFile.Valid, FileSystem.LostKept;
      handles := handles[fh := Reader(n, r)];
      forall o | o in files ensures BufferHeld(o) && files[o].refs == |RandomOn(handles, o)| + lost[o] {
        assert old(BufferHeld(o));
        OpenedCounts(old(handles), fh, handles[fh], o);
      }
    }

    lemma NothingRefers(n: Node)
      requires Valid() && n !in files
      ensures |RandomOn(handles, n)| == 0 && lost[n] == 0
    {
      assert RandomOn(handles, n) == {};
    }

    /** The inode's buffer, made on its first random-access open; the caller owns one reference. */
    method Acquire(n: Node) returns (of: OpenFile)
      requires Valid() && Openable(n)
      modifies `files, files.Values
      ensures files == old(files)[n := of] && (of in old(files.Values) || fresh(of))
      ensures n !in old(files) ==> of.extents == [] && of.size == |db.Current(n)|
      ensures Counted(Some(n)) && forall o :: File(o) == old(File(o))
    {
      hide BytesOf, Sound, Apart, View, RandomOn, FileSystem.LostKept, Refusal, Overwrite;
      if n !in files {
        NothingRefers(n);
        of := new OpenFile(db, mount, n);
        ViewOfNone(db.Current(n));
        files := files[n := of];
      } else {
        of := files[n];
        assert BufferHeld(n);
      }
      of.refs := of.refs + 1;
      OnlyOneReferenced(Touch(n, None, Some(n)));
    }

    method Install(fh: nat, n: Node, of: OpenFile)
      requires Counted(Some(n)) && n in files && files[n] == of && fh !in handles && fh <= lastHandle
      modifies `handles
      ensures Valid() && handles == old(handles)[fh := Random(n, of)]
      ensures forall o :: File(o) == old(File(o))
    {
      hide BytesOf, Sound, Apart, View, RandomOn, OpenFile.Valid, FileSystem.LostKept;
      handles := handles[fh := Random(n, of)];
      forall o | o in files ensures BufferHeld(o) && files[o].refs == |RandomOn(handles, o)| + lost[o] > 0 {
        assert old(BufferHeld(o));
        OpenedCounts(old(handles), fh, handles[fh], o);
      }
    }

    /** Where truncating is refused there is no handle, but its reference on the buffer is not given back. */
    method OpenRandom(n: Node, truncate: bool) returns (r: Result<nat, Errno>)
      requires Valid() && Openable(n)
      modifies this, files.Values, db`tables
      ensures Valid() && RefusalFor(n) == old(RefusalFor(n))
      ensures r.Success? <==> !truncate || Writable(n)
      ensures r.Success? ==>
                && r.value !in old(handles) && r.value in handles
                && handles == old(handles)[r.value := handles[r.value]]
                && handles[r.value].Random? && handles[r.value].node == n && lost == old(lost)
      ensures r.Failure? ==>
                r.error == Refused(RefusalFor(n).value) && handles == old(handles) && lost == old(lost) + multiset{n}
      ensures forall o :: File(o) == if o == n && truncate && r.Success? then Resize(old(File(o)), 0) else old(File(o))
      ensures Follows(old(Files()), Files(), if truncate && r.Success? then Resized(n, 0) else Other)
    {
      hide BytesOf, Sound, Apart, View, Resize, FileSystem.BufferHeld, FileSystem.HandlesLinked,
           FileSystem.ReadersApart, FileSystem.Counted,
           RandomOn, OpenFile.Valid, FileSystem.RefusalFor, FileSystem.Openable;
      var fh := NextHandle();
      var of := Acquire(n);
      if truncate {
        var cut := TruncateShared(n, 0, Some(n));
        if cut.Failure? {
          Forget(n);
          return Failure(cut.error);
        }
      }
      Install(fh, n, of);
      r := Success(fh);
    }

    /** The call that took the reference has failed: nobody will give it back. */
    ghost method Forget(n: Node)
      requires Counted(Some(n)) && n in files
      modifies `lost
      ensures Valid() && lost == old(lost) + multiset{n}
      ensures forall o :: File(o) == old(File(o))
    {
      hide BytesOf, Sound, Apart, View, RandomOn, OpenFile.Valid, FileSystem.BufferHeld, FileSystem.File,
           FileSystem.ReadersApart;
      lost := lost + multiset{n};
      forall o | o in files ensures BufferHeld(o) && files[o].refs == |RandomOn(handles, o)| + lost[o] > 0 {
        assert old(BufferHeld(o));
      }
    }

    method TruncateShared(n: Node, size: nat, ghost pending: Option<Node>) returns (r: Result<(), Errno>)
      requires Counted(pending) && n in files
      modifies files[n], db`tables
      ensures Counted(pending) && RefusalFor(n) == old(RefusalFor(n))
      ensures r == if Writable(n) then Success(()) else Failure(Refused(RefusalFor(n).value))
      ensures forall o :: File(o) == if o == n && r.Success? then Resize(old(File(o)), size) else old(File(o))
    {
      hide BytesOf, Sound, Apart, View, Resize;
      assert BufferHeld(n);
      var cut := files[n].Truncate(size);
      OnlyOneChanged(Touch(n, pending, pending));
      r := if cut.Success? then Success(()) else Failure(Refused(cut.error));
    }

    /** A read handle first settles what others have pending; a random-access one reads past it. */
    ghost predicate Readable(fh: nat, off: nat, size: nat)
      requires fh in handles
      reads this, db, files.Values
    {
      match handles[fh]
      case Reader(n, _) => Flushable(n)
      case Random(n, _) => ValidMount(db.sessions, mount) || Slice(File(n), off, size) == []
    }

    /** Whatever kind of handle reads, it gets the shared file's bytes. */
    method Read(fh: nat, off: nat, size: nat) returns (r: Result<bytes, Errno>)
      requires Valid() && fh in handles
      modifies files.Values, Readers(), db`tables
      ensures Valid() && handles == old(handles)
      ensures r.Success? <==> old(Readable(fh, off, size))
      ensures r.Success? ==> r.value == Slice(old(File(handles[fh].node)), off, size)
      ensures forall o :: File(o) == old(File(o))
      ensures Follows(old(Files()), Files(), Other)
    {
      hide BytesOf, Sound, Apart, View, RandomOn, FileSystem.RefusalFor, FileSystem.LostKept, FileSystem.ReadersApart,
           OpenFile.Valid;
      match handles[fh]
      case Reader(n, _) =>
        var settled := Settle(n);
        if settled.Failure? {
          return Failure(settled.error);
        }
        var data := ReadThrough(fh, off, size);
        r := Success(data);
      case Random(n, of) =>
        r := ReadShared(n, off, size);
    }

    method ReadShared(n: Node, off: nat, size: nat) returns (r: Result<bytes, Errno>)
      requires Valid() && n in files
      ensures r.Success? <==> ValidMount(db.sessions, mount) || Slice(File(n), off, size) == []
      ensures r.Success? ==> r.value == Slice(File(n), off, size)
    {
      hide BytesOf, Sound, Apart, View, RandomOn;
      assert BufferHeld(n);
      var got := files[n].Read(off, size);
      r := if got.Success? then Success(got.value) else Failure(Refused(got.error));
    }

    /** A read handle serves committed content, whatever is pending. */
    method ReadThrough(fh: nat, off: nat, size: nat) returns (data: bytes)
      requires Valid() && fh in handles && handles[fh].Reader?
      modifies handles[fh].r
      ensures Valid() && data == Slice(db.Current(handles[fh].node), off, size)
      ensures forall o :: File(o) == old(File(o))
    {
      hide BytesOf, Sound, Apart, View, RandomOn, OpenFile.Valid;
      var r := handles[fh].r;
      var _ := r.Seek(off, Set);
      data := r.Read(size);
      forall o | o in files ensures BufferHeld(o) {
        assert old(BufferHeld(o));
      }
    }

    /** A write refused while flushing stays in the shared file all the same. */
    method Write(fh: nat, off: nat, data: bytes) returns (r: Result<nat, Errno>)
      requires Valid() && fh in handles && data != []
      modifies files.Values, db`tables
      ensures Valid() && RefusalFor(handles[fh].node) == old(RefusalFor(handles[fh].node))
      ensures var n := handles[fh].node;
              if handles[fh].Reader? then r == Failure(NotSupported) && forall o :: File(o) == old(File(o))
              else
                && (r == Success(|data|) || (!Writable(n) && r == Failure(Refused(RefusalFor(n).value))))
                && forall o :: File(o) == if o == n then Overwrite(old(File(n)), off, data) else old(File(o))
      ensures Follows(old(Files()), Files(), if handles[fh].Random? then Wrote(handles[fh].node, off, data) else Other)
    {
      hide BytesOf, Sound, Apart, View, Overwrite, FileSystem.RefusalFor, FileSystem.LostKept, FileSystem.ReadersApart,
           OpenFile.Valid;
      match handles[fh]
      case Reader(_, _) =>
        r := Failure(NotSupported);
      case Random(n, of) =>
        r := WriteShared(n, off, data);
    }

    method WriteShared(n: Node, off: nat, data: bytes) returns (r: Result<nat, Errno>)
      requires Valid() && n in files && data != []
      modifies files[n], db`tables
      ensures Valid() && RefusalFor(n) == old(RefusalFor(n))
      ensures r == Success(|data|) || (!Writable(n) && r == Failure(Refused(RefusalFor(n).value)))
      ensures forall o :: File(o) == if o == n then Overwrite(old(File(n)), off, data) else old(File(o))
    {
      hide BytesOf, Sound, Apart, View, Overwrite, FileSystem.LostKept, RandomOn;
      assert BufferHeld(n);
      var count := files[n].Write(off, data);
      OnlyOneChanged(Touch(n, None, None));
      r := if count.Success? then Success(count.value) else Failure(Refused(count.error));
    }

    method Truncate(fh: nat, size: nat) returns (r: Result<(), Errno>)
      requires Valid() && fh in handles
      modifies files.Values, db`tables
      ensures Valid() && RefusalFor(handles[fh].node) == old(RefusalFor(handles[fh].node))
      ensures var n := handles[fh].node;
              if handles[fh].Reader? then r == Failure(NotSupported) && forall o :: File(o) == old(File(o))
              else
                && r == (if Writable(n) then Success(()) else Failure(Refused(RefusalFor(n).value)))
                && forall o :: File(o) == if o == n && Writable(n) then Resize(old(File(n)), size) else old(File(o))
      ensures Follows(old(Files()), Files(), if r.Success? then Resized(handles[fh].node, size) else Other)
    {
      hide BytesOf, Sound, Apart, View, Resize, FileSystem.RefusalFor, FileSystem.LostKept, FileSystem.ReadersApart,
           OpenFile.Valid;
      match handles[fh]
      case Reader(_, _) =>
        r := Failure(NotSupported);
      case Random(n, of) =>
        r := TruncateShared(n, size, None);
    }

    method FlushShared(n: Node, ghost pending: Option<Node>) returns (r: Result<(), Errno>)
      requires Counted(pending) && n in files
      modifies files[n], db`tables
      ensures Counted(pending) && RefusalFor(n) == old(RefusalFor(n))
      ensures r == if old(Flushable(n)) then Success(()) else Failure(Refused(RefusalFor(n).value))
      ensures r.Success? ==> db.Current(n) == File(n)
      ensures forall o :: File(o) == old(File(o))
    {
      hide BytesOf, Sound, Apart, View;
      assert BufferHeld(n);
      var flushed := files[n].Flush();
      OnlyOneChanged(Touch(n, pending, pending));
      r := if flushed.Success? then Success(()) else Failure(Refused(flushed.error));
    }

    method Flush(fh: nat) returns (r: Result<(), Errno>)
      requires Valid()
      modifies files.Values, db`tables
      ensures Valid() && handles == old(handles)
      ensures r.Success? <==> fh in handles && handles[fh].Random? ==> old(Flushable(handles[fh].node))
      ensures forall o :: File(o) == old(File(o))
      ensures Follows(old(Files()), Files(), Other)
      ensures r.Success? && fh in handles && handles[fh].Random? ==>
                db.Current(handles[fh].node) == File(handles[fh].node)
    {
      hide FileSystem.RefusalFor, View, BytesOf, Sound, Apart, RandomOn, FileSystem.LostKept, FileSystem.ReadersApart,
           FileSystem.BufferHeld, OpenFile.Valid;
      r := Success(());
      if fh in handles && handles[fh].Random? {
        r := FlushShared(handles[fh].node, None);
      }
    }

    /** Forget one reference; the buffer goes with its last handle. */
    method Drop(n: Node)
      requires Counted(Some(n)) && n in files && db.Current(n) == File(n)
      modifies `files, files[n]
      ensures Valid()
      ensures forall o :: File(o) == old(File(o))
    {
      hide BytesOf, Sound, Apart, View;
      var of := files[n];
      of.refs := of.refs - 1;
      if of.refs <= 0 {
        NoneLeft(handles, n);
        files := files - {n};
      }
      OnlyOneReferenced(Touch(n, Some(n), None));
    }

    /** Take a handle out of the table; its reference on the buffer is then pending. */
    method Pop(fh: nat) returns (h: Handle)
      requires Valid() && fh in handles
      modifies `handles
      ensures h == old(handles[fh]) && handles == old(handles) - {fh}
      ensures Counted(if h.Random? then Some(h.node) else None)
      ensures h.Random? ==> h.node in files
      ensures h.Reader? ==> h.r !in Readers()
      ensures Readers() <= old(Readers())
      ensures forall o :: File(o) == old(File(o))
    {
      hide BytesOf, Sound, Apart, View, RandomOn, OpenFile.Valid;
      h := handles[fh];
      handles := handles - {fh};
      forall o | o in files
        ensures BufferHeld(o)
        ensures files[o].refs == |RandomOn(handles, o)| + lost[o] + if h.Random? && h.node == o then 1 else 0
      {
        assert old(BufferHeld(o));
        ReleasedCounts(old(handles), fh, o);
      }
    }

    /**
      Close a handle. The last random-access one on an inode takes the buffer
      away, after a flush. Where the flush is refused the handle is gone, but
      the buffer stays, with what is pending and with one reference too many.
     */
    method Release(fh: nat) returns (r: Result<(), Errno>)
      requires Valid()
      modifies this, files.Values, Readers(), db`tables
      ensures Valid() && handles == old(handles) - {fh}
      ensures fh in old(handles) && old(handles[fh]).Reader? ==> old(handles[fh]).r.closed
      ensures r.Success? <==> fh in old(handles) && old(handles[fh]).Random? ==> old(Flushable(handles[fh].node))
      ensures lost == if r.Success? then old(lost) else old(lost) + multiset{old(handles[fh]).node}
      ensures forall o :: File(o) == old(File(o))
      ensures Follows(old(Files()), Files(), Other)
      ensures r.Success? && fh in old(handles) && old(handles[fh]).Random? ==>
                db.Current(old(handles[fh]).node) == File(old(handles[fh]).node)
    {
      hide BytesOf, Sound, Apart, View, RandomOn, OpenFile.Valid, FileSystem.RefusalFor, FileSystem.BufferHeld,
           FileSystem.HandlesLinked, FileSystem.ReadersApart, FileSystem.Counted;
      r := Success(());
      if fh in handles {
        var h := Pop(fh);
        match h
        case Reader(n, d) =>
          CloseReader(n, d);
        case Random(n, of) =>
          r := LetGo(n);
      }
    }

    method CloseReader(n: Node, d: ReadDescriptor)
      requires Valid() && d !in Readers()
      modifies d
      ensures Valid() && d.closed
      ensures forall o :: File(o) == old(File(o))
    {
      hide BytesOf, Sound, Apart, View, RandomOn, OpenFile.Valid;
      d.Close();
      assert n in files ==> BufferHeld(n);
      OnlyOneChanged(Touch(n, None, None));
    }

    /** Flush and give the pending reference back. */
    method LetGo(n: Node) returns (r: Result<(), Errno>)
      requires Counted(Some(n)) && n in files
      modifies `files, `lost, files[n], db`tables
      ensures Valid()
      ensures r.Success? <==> old(Flushable(n))
      ensures lost == if r.Success? then old(lost) else old(lost) + multiset{n}
      ensures r.Success? ==> db.Current(n) == File(n)
      ensures forall o :: File(o) == old(File(o))
    {
      hide BytesOf, Sound, Apart, View, RandomOn, OpenFile.Valid, FileSystem.BufferHeld, FileSystem.HandlesLinked,
           FileSystem.ReadersApart, FileSystem.Counted;
      r := FlushShared(n, Some(n));
      if r.Failure? {
        Forget(n);
        return;
      }
      Drop(n);
    }

    /** The first random-access handle on an inode finds nothing pending. */
    method OpenFirst(n: Node)
      requires Valid() && Openable(n) && n !in files
      modifies this, files.Values
      ensures Valid() && n in files && files[n].extents == [] && files[n].size == |db.Current(n)|
    {
      hide BytesOf, Sound, Apart, View, Resize, RandomOn, OpenFile.Valid, FileSystem.LostKept, FileSystem.Counted,
           FileSystem.BufferHeld, FileSystem.HandlesLinked, FileSystem.ReadersApart;
      var fh := NextHandle();
      var of := Acquire(n);
      Install(fh, n, of);
    }

    /** So a buffer outlives its inode's last random-access handle exactly when a reference on it was lost. */
    lemma LivesWithHandles(n: Node)
      requires Valid()
      ensures n in files <==> RandomOn(handles, n) != {} || lost[n] > 0
    {
      if RandomOn(handles, n) != {} {
        var fh :| fh in RandomOn(handles, n);
      }
    }

    /**
      Resizing a file with no handle goes straight to the engine and past the
      buffer. The file its handles see is resized only where it had that size
      already; in the others they go on with the size from before.
     */
    method TruncateByPath(n: Node, size: nat) returns (r: Result<(), Errno>)
      requires Valid()
      modifies db`tables
      ensures db.Valid() && r == if Writable(n) then Success(()) else Failure(Refused(RefusalFor(n).value))
      ensures db.Current(n) == if r.Success? then Resize(old(db.Current(n)), size) else old(db.Current(n))
      ensures r.Failure? ==> Valid() && forall o :: File(o) == old(File(o))
      ensures r.Success? ==> (File(n) == Resize(old(File(n)), size) <==> n !in files || size == files[n].size)
      ensures n in files ==> |File(n)| == files[n].size
      ensures r.Success? ==> (Valid() <==> n !in files || files[n].size == Max(size, LastEnd(files[n].extents)))
      ensures forall o | o != n :: File(o) == old(File(o))
    {
      hide BytesOf, Sound, Apart, View, Did, Refusal, Resize, FileSystem.LostKept, RandomOn;
      ghost var t := db.tables;
      assert n in files ==> BufferHeld(n);
      var cut := db.Truncate(mount, n, size);
      if cut.Failure? {
        OnlyOneChanged(Touch(n, None, None));
        if n in files { ViewLength(db.Current(n), files[n].extents, files[n].size); }
        return Failure(Refused(cut.error));
      }
      EditedBytes(db.chunkSize, t, db.tables, n, SetSize(size));
      ResizeLength(old(db.Current(n)), size);
      if n in files {
        ResizedPast(old(db.Current(n)), files[n].extents, files[n].size, size);
      }
      if n !in files || files[n].size == Max(size, LastEnd(files[n].extents)) {
        OnlyOneChanged(Touch(n, None, None));
      } else {
        assert !BufferHeld(n);
      }
      r := Success(());
    }
  }

  lemma ViewLength(f: bytes, es: seq<Extent>, size: nat)
    ensures |View(f, es, size)| == size
  {
  }

  /**
    What the handles see of committed bytes resized behind their back is the file
    resized only where it had that size.
   */
  lemma ResizedPast(f: bytes, es: seq<Extent>, shown: nat, size: nat)
    requires shown == Max(|f|, LastEnd(es))
    ensures |View(Resize(f, size), es, shown)| == shown
    ensures View(Resize(f, size), es, shown) == Resize(View(f, es, shown), size) <==> size == shown
  {
    var a, b := View(Resize(f, size), es, shown), Resize(View(f, es, shown), size);
    assert |b| == size;
    if size == shown {
      forall k | 0 <= k < shown ensures a[k] == b[k] {}
    }
  }

  /**
    One byte, a handle open on it, then a truncation by path: nothing is
    committed any more, but the handle goes on showing a byte, by now zero.
   */
  method StaleSize(db: Db, mount: MountId, n: Node) returns (fs: FileSystem)
    requires db.Valid() && db.Current(n) == [7] && Refusal(db.sessions, db.kinds, mount, n, true).None?
    modifies db`tables
    ensures db.Valid() && db.Current(n) == [] && fs.db == db && fs.File(n) == [0]
  {
    hide BytesOf, Sound, Did, View, Resize, Follows, FileSystem.Counted, db.Valid;
    fs := new FileSystem(db, mount);
    assert fs.Openable(n);
    fs.OpenFirst(n);
    ResizeLength([7], 0);
    var cut := fs.TruncateByPath(n, 0);
    NothingOfOne(fs.files[n].extents, [7]);
  }

  lemma NothingOfOne(es: seq<Extent>, f: bytes)
    ensures es == [] && f == [7] ==> View(Resize(f, 0), es, 1) == [0]
  {
  }
}
