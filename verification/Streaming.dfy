/**
  The streaming writer. Full chunks leave the pending buffer one transaction
  at a time, staged under a version number above the committed pointer; the
  pointer is swapped only at close, and only under a lock that is still valid.

  The relations here say what one transaction of a writer does to the tables.
  The methods of `WriteDescriptor` are proved to be such transactions, and
  `Protocol` lets them interleave with everyone else's.
 */
module Streaming {
  import opened Wrappers
  import opened Flat
  import opened Chunking
  import opened Editing
  import opened Sessions
  import opened Tables
  import opened Store
  import opened Reading

  /** The state of one write descriptor. */
  datatype Writer = Writer(
    node: Node,
    lock: LockId,
    ownsLock: bool,
    version: Option<nat>,
    carrySource: nat,
    carryFull: nat,
    index: nat,
    flushed: nat,
    pending: bytes,
    position: nat,
    closed: bool)

  // ---- What the writer holds ---------------------------------------------------

  /** The version whose rows stand for the flushed bytes: the claimed one, or before that the one carried from. */
  function Backing(w: Writer): Ver {
    Ver(w.node, if w.version.Some? then w.version.value else w.carrySource)
  }

  /** Chunks `0 .. n-1` of `text` are in place. */
  ghost predicate PrefixStaged(pool: Pool, m: Manifest, c: pos, text: bytes, n: nat) {
    forall i: nat | i < n :: i in m && m[i] in pool && pool[m[i]].plain == Chunk(text, c, i)
  }

  /**
    The writer stands for `text`: what it has flushed is staged in full chunks,
    and the rest is pending.
   */
  ghost predicate Represents(c: pos, t: Tables, w: Writer, text: bytes) {
    && w.flushed == Start(c, w.index)
    && w.flushed + |w.pending| == |text|
    && text[w.flushed..] == w.pending
    && PrefixStaged(t.pool, t.Rows(Backing(w)), c, text, w.index)
    && (w.version.Some? ==> forall i | i in t.Rows(Backing(w)) :: i < w.index)
    && (w.version.None? ==> w.index == w.carryFull)
  }

  // ---- Buffering a write ---------------------------------------------------------

  /** The memory half of `write`: patch the pending buffer, zero-filling a gap. A flushed region is immutable. */
  function Buffered(w: Writer, data: bytes): (r: Option<Writer>)
  {
    if data == [] then Some(w)
    else if w.position < w.flushed then None
    else
      var lo := w.position - w.flushed;
      Some(w.(pending := Splice(PadTo(w.pending, lo), lo, lo + |data|, data), position := w.position + |data|))
  }

  /** Patching the buffer is overwriting the whole text at the cursor. */
  lemma BufferedIsOverwrite(c: pos, t: Tables, w: Writer, data: bytes, text: bytes)
    requires Represents(c, t, w, text) && Buffered(w, data).Some?
    ensures Represents(c, t, Buffered(w, data).value, Overwrite(text, w.position, data))
  {
    hide Splice, PadTo, PrefixStaged;
    if data != [] {
      var w' := Buffered(w, data).value;
      var text' := Overwrite(text, w.position, data);
      BufferedTail(w, data, text);
      hide Buffered;
      forall i: nat | i < w.index ensures Chunk(text', c, i) == Chunk(text, c, i) {
        StartOrder(c, i, w.index);
        ChunkAgree(text', text, c, i);
      }
      hide Chunk;
      PrefixAgrees(t.pool, t.Rows(Backing(w)), c, text, text', w.index);
    }
  }

  lemma PrefixAgrees(pool: Pool, m: Manifest, c: pos, text: bytes, text': bytes, n: nat)
    requires PrefixStaged(pool, m, c, text, n) && forall i: nat | i < n :: Chunk(text', c, i) == Chunk(text, c, i)
    ensures PrefixStaged(pool, m, c, text', n)
  {
    hide Chunk;
  }

  /** The patched buffer is the tail of the overwritten text. */
  lemma BufferedTail(w: Writer, data: bytes, text: bytes)
    requires data != [] && Buffered(w, data).Some? && w.flushed <= |text| && text[w.flushed..] == w.pending
    ensures var w' := Buffered(w, data).value;
            var text' := Overwrite(text, w.position, data);
            && w.flushed <= |text'| && text'[w.flushed..] == w'.pending
            && w' == w.(pending := w'.pending, position := w'.position)
  {
    hide Overwrite;
    PatchSlice(text, w.position, data, w.flushed, Max(|text|, w.position + |data|));
    OverwriteLength(text, w.position, data);
    assert text[w.flushed..Min(Max(|text|, w.position + |data|), |text|)] == w.pending;
  }

  lemma OverwriteLength(f: bytes, off: nat, d: bytes)
    requires d != []
    ensures |Overwrite(f, off, d)| == Max(|f|, off + |d|)
  {
  }

  // ---- One flush -------------------------------------------------------------------

  /** The version number the writer stages under: its own once claimed, else the next one. */
  function Target(t: Tables, w: Writer): nat {
    if w.version.Some? then w.version.value else NextVersion(t, w.node)
  }

  /** The rows of the target once claimed, with the carried chunks copied in by reference. */
  function Claimed(t: Tables, w: Writer): Manifest {
    var own := t.Rows(Ver(w.node, Target(t, w)));
    if w.version.Some? then own else own + Leading(t.Rows(Ver(w.node, w.carrySource)), w.carryFull)
  }

  /** The writer once its version is claimed. */
  function WithVersion(t: Tables, w: Writer): Writer {
    w.(version := Some(Target(t, w)))
  }

  function AfterFlush(c: pos, t: Tables, w: Writer): Writer
    requires c <= |w.pending|
  {
    WithVersion(t, w).(index := w.index + 1, flushed := w.flushed + c, pending := w.pending[c..])
  }

  /** From `t` to `t'`, chunk `index` holding `data` was staged behind the rows `m` of version `v`. */
  ghost predicate Adds(t: Tables, t': Tables, v: Ver, m: Manifest, index: nat, data: bytes) {
    && Stages(t, t', v) && PoolSound(t'.pool)
    && index !in m && index in t'.Rows(v)
    && t'.Rows(v) == m[index := t'.Rows(v)[index]]
    && t'.Rows(v)[index] in t'.pool
    && t'.pool[t'.Rows(v)[index]].plain == data
  }

  /** One flush transaction: claim the version if need be and stage one full chunk. */
  ghost predicate Flushes(c: pos, t: Tables, w: Writer, t': Tables, w': Writer) {
    && !w.closed && c <= |w.pending|
    && Adds(t, t', Ver(w.node, Target(t, w)), Claimed(t, w), w.index, w.pending[..c])
    && w' == AfterFlush(c, t, w)
  }

  /** After claiming, the target's rows are the staged prefix and nothing else. */
  lemma ClaimedRows(c: pos, t: Tables, w: Writer, text: bytes)
    requires Represents(c, t, w, text)
    ensures PrefixStaged(t.pool, Claimed(t, w), c, text, w.index)
    ensures forall i | i in Claimed(t, w) :: i < w.index
  {
    NextVersionIsFresh(t, w.node);
  }

  /** A flush moves bytes from the buffer to the store and changes nothing of the text. */
  lemma FlushKeepsText(c: pos, t: Tables, w: Writer, t': Tables, w': Writer, text: bytes)
    requires Represents(c, t, w, text) && Flushes(c, t, w, t', w')
    ensures Represents(c, t', w', text)
  {
    hide Chunk, Claimed, Target, Start, Adds, PrefixStaged;
    FlushedChunk(c, t, w, t', w', text);
    ClaimedRows(c, t, w, text);
    assert Backing(w') == Ver(w.node, Target(t, w));
    PrefixGrows(c, t, t', Ver(w.node, Target(t, w)), Claimed(t, w), text, w.index);
  }

  /** Staging the next chunk behind a staged prefix makes the prefix one chunk longer. */
  lemma PrefixGrows(c: pos, t: Tables, t': Tables, v: Ver, m: Manifest, text: bytes, index: nat)
    requires PrefixStaged(t.pool, m, c, text, index) && Adds(t, t', v, m, index, Chunk(text, c, index))
    requires forall i | i in m :: i < index
    ensures PrefixStaged(t'.pool, t'.Rows(v), c, text, index + 1)
    ensures forall i | i in t'.Rows(v) :: i < index + 1
  {
    hide Chunk;
  }

  /** The chunk a flush takes off the buffer is the next chunk of the text. */
  lemma FlushedChunk(c: pos, t: Tables, w: Writer, t': Tables, w': Writer, text: bytes)
    requires Represents(c, t, w, text) && Flushes(c, t, w, t', w')
    ensures text[w'.flushed..] == w'.pending && w'.flushed == Start(c, w'.index) <= |text|
    ensures Chunk(text, c, w.index) == w.pending[..c]
  {
    hide Adds, Claimed, Target;
    assert text[w'.flushed..] == text[w.flushed..][c..];
    assert Chunk(text, c, w.index) == text[w.flushed..][..c];
  }

  // ---- Close -------------------------------------------------------------------------

  /** From `t` to `t1` the version was claimed and the short last chunk staged, if there is one. */
  ghost predicate Finishes(t: Tables, w: Writer, t1: Tables) {
    var v := Ver(w.node, Target(t, w));
    if w.pending == [] then Stages(t, t1, v) && PoolSound(t1.pool) && t1.Rows(v) == Claimed(t, w)
    else Adds(t, t1, v, Claimed(t, w), w.index, w.pending)
  }

  /** The close transaction: finish the staging and swap the pointer. */
  ghost predicate Closes(t: Tables, w: Writer, t': Tables, w': Writer) {
    && !w.closed && w.node in t.content
    && w' == WithVersion(t, w).(closed := true)
    && exists t1: Tables ::
         Finishes(t, w, t1) && w.node in t1.content && t' == Swapped(t1, w.node, Target(t, w), w.flushed + |w.pending|)
  }

  /** The rows staged at close hold exactly the text. */
  lemma FinalRows(c: pos, t: Tables, w: Writer, t1: Tables, text: bytes, m': Manifest)
    requires Represents(c, t, w, text) && |w.pending| <= c && PoolGrows(t.pool, t1.pool)
    requires if w.pending == [] then m' == Claimed(t, w)
             else w.index in m' && m' == Claimed(t, w)[w.index := m'[w.index]]
                  && m'[w.index] in t1.pool && t1.pool[m'[w.index]].plain == w.pending
    ensures Holds(t1.pool, m', c, text)
  {
    ClaimedRows(c, t, w, text);
    var m := Claimed(t, w);
    var last := if w.pending == [] then w.index else w.index + 1;
    LastPiece(c, text, w.index, w.flushed, w.pending);
    forall i: nat
      ensures i in m' <==> Chunk(text, c, i) != []
      ensures i in m' ==> m'[i] in t1.pool && t1.pool[m'[i]].plain == Chunk(text, c, i)
    {
      hide Chunk, Claimed;
      if i < w.index { assert i in m; }
    }
  }

  lemma LastPiece(c: pos, text: bytes, index: nat, flushed: nat, pending: bytes)
    requires flushed == Start(c, index) && flushed + |pending| == |text| && text[flushed..] == pending && |pending| <= c
    ensures forall i: nat | i < index :: Chunk(text, c, i) != []
    ensures Chunk(text, c, index) == pending
    ensures forall i: nat | index < i :: Chunk(text, c, i) == []
  {
    forall i: nat | i < index ensures Chunk(text, c, i) != [] {
      StartOrder(c, i, index);
      ChunkShape(text, c, i);
    }
    forall i: nat | index < i ensures Chunk(text, c, i) == [] {
      StartOrder(c, index, i);
      ChunkShape(text, c, i);
    }
  }

  /** A close publishes exactly the text, and no other entry changes. */
  lemma ClosePublishes(c: pos, t: Tables, w: Writer, t': Tables, w': Writer, text: bytes)
    requires Sound(c, t) && Represents(c, t, w, text) && |w.pending| <= c && Closes(t, w, t', w')
    requires Target(t, w) > 0 && t.content[w.node].version != Target(t, w)
    ensures Publishes(c, t, t', w.node, Target(t, w), text)
  {
    hide Sound, Represents, Claimed, Target, Finishes, Publishes;
    var t1: Tables :|
      Finishes(t, w, t1) && w.node in t1.content && t' == Swapped(t1, w.node, Target(t, w), w.flushed + |w.pending|);
    FinishStages(c, t, w, t1, text);
    SwapPublishes(c, t, t1, w.node, Target(t, w), text);
  }

  lemma FinishStages(c: pos, t: Tables, w: Writer, t1: Tables, text: bytes)
    requires Represents(c, t, w, text) && |w.pending| <= c && Finishes(t, w, t1)
    requires w.node in t.content && Target(t, w) > 0 && t.content[w.node].version != Target(t, w)
    ensures Staged(c, t, t1, w.node, Target(t, w), text) && |text| == w.flushed + |w.pending|
  {
    hide Represents, Claimed, Target;
    assert |text| == w.flushed + |w.pending| by { TextLength(c, t, w, text); }
    FinalRows(c, t, w, t1, text, t1.Rows(Ver(w.node, Target(t, w))));
  }

  lemma TextLength(c: pos, t: Tables, w: Writer, text: bytes)
    requires Represents(c, t, w, text)
    ensures |text| == w.flushed + |w.pending|
  {
  }

  /**
    A buffer is drained below a chunk before the close unless a flush inside a
    write failed. Closed with more than a chunk left, it goes in as one row, and
    the entry is no longer cut into uniform chunks.
   */
  lemma OverlongClose(c: pos, t: Tables, w: Writer, t': Tables, w': Writer, text: bytes)
    requires Sound(c, t) && Represents(c, t, w, text) && Closes(t, w, t', w')
    requires Target(t, w) > 0 && t.content[w.node].version != Target(t, w)
    ensures w.node in t'.content && (EntrySound(c, t', w.node) <==> |w.pending| <= c)
  {
    if |w.pending| <= c {
      ClosePublishes(c, t, w, t', w', text);
      hide Closes, Represents, Target;
    } else {
      LongRow(c, t, w, t', w');
    }
  }

  lemma LongRow(c: pos, t: Tables, w: Writer, t': Tables, w': Writer)
    requires Closes(t, w, t', w') && |w.pending| > c
    ensures w.node in t'.content && !EntrySound(c, t', w.node)
  {
    hide Claimed, Target, BytesOf, Chunk;
    var t1: Tables :|
      Finishes(t, w, t1) && w.node in t1.content && t' == Swapped(t1, w.node, Target(t, w), w.flushed + |w.pending|);
    assert t'.Committed(w.node) == t1.Rows(Ver(w.node, Target(t, w)));
    ChunkShape(BytesOf(t', w.node), c, w.index);
  }

  // ---- Open ----------------------------------------------------------------------------

  datatype WriteMode = Overwriting | Appending

  /** The writer that `open_write` hands back. */
  function Opened(c: pos, t: Tables, n: Node, mode: WriteMode, lock: LockId, owns: bool): Writer
    requires n in t.content
  {
    if mode == Overwriting then Writer(n, lock, owns, None, 0, 0, 0, 0, [], 0, false)
    else
      var size := t.content[n].size;
      var full := Index(c, size);
      var tail := Fetch(t.pool, t.Committed(n), full, full + 1);
      Writer(n, lock, owns, None, t.content[n].version, full, full, Start(c, full),
             if Offset(c, size) != 0 && tail != [] then tail[0] else [], size, false)
  }

  /** A new writer stands for nothing, or for the entry's current bytes when appending, with the cursor at the end. */
  lemma OpenedRepresents(c: pos, t: Tables, n: Node, mode: WriteMode, lock: LockId, owns: bool)
    requires Sound(c, t) && n in t.content
    ensures var w := Opened(c, t, n, mode, lock, owns);
            var text := if mode == Overwriting then [] else BytesOf(t, n);
            Represents(c, t, w, text) && |w.pending| < c && w.position == |text|
  {
    hide Chunk, Sound, Holds, BytesOf, PrefixStaged, Fetch, Start, Index, Offset;
    if mode == Appending {
      EntryHeld(c, t, n);
      LeadingHeld(t.pool, t.Committed(n), c, BytesOf(t, n));
      TailHeld(t.pool, t.Committed(n), c, BytesOf(t, n));
    } else {
      NothingStaged(t.pool, t.Rows(Ver(n, 0)), c);
    }
  }

  lemma NothingStaged(pool: Pool, m: Manifest, c: pos)
    ensures PrefixStaged(pool, m, c, [], 0) && Start(c, 0) == 0
  {
  }

  /** The full leading chunks of a held version are staged. */
  lemma LeadingHeld(pool: Pool, m: Manifest, c: pos, f: bytes)
    requires Holds(pool, m, c, f)
    ensures PrefixStaged(pool, m, c, f, Index(c, |f|))
  {
    forall i: nat | i < Index(c, |f|) ensures i in m && m[i] in pool && pool[m[i]].plain == Chunk(f, c, i) {
      SharedPrefix(f, f, c, |f|, i);
    }
  }

  /** What follows them is the partial last chunk, fetched only when the size says there is one. */
  lemma TailHeld(pool: Pool, m: Manifest, c: pos, f: bytes)
    requires Holds(pool, m, c, f)
    ensures var full := Index(c, |f|);
            var tail := Fetch(pool, m, full, full + 1);
            && Start(c, full) <= |f| && |f| - Start(c, full) < c
            && (if Offset(c, |f|) != 0 && tail != [] then tail[0] else []) == f[Start(c, full)..]
  {
    var full := Index(c, |f|);
    PartialTail(f, c);
    assert Start(c, full + 1) == Start(c, full) + c;
    assert full in m <==> Chunk(f, c, full) != [];
    assert Fetch(pool, m, full + 1, full + 1) == [];
    hide Chunk, Start, Index;
  }

  /** Why `open_write` is refused, in the order the checks run. */
  function OpenRefusal(s: Sessions, kinds: map<Node, Kind>, m: MountId, n: Node, mode: WriteMode,
                       supplied: Option<LockId>)
    : Option<Error>
  {
    if !ValidMount(s, m) then Some(MountInvalid)
    else if !s.mounts[m].writable then Some(ReadOnlyMount)
    else if n !in kinds && mode == Appending then Some(NotFound)
    else if n in kinds && kinds[n] == Container then Some(NotAnEntry)
    else if supplied.Some? then
      if !ValidLock(s, supplied.value) then Some(LockInvalid)
      else if s.locks[supplied.value].mount != m then Some(LockHeld)
      else if s.locks[supplied.value].node != n then Some(LockInvalid)
      else None
    else if HeldByOther(s, n, m) then Some(LockHeld)
    else None
  }

  class WriteDescriptor {
    const db: Db
    const node: Node
    const lock: LockId
    const ownsLock: bool
    const carrySource: nat
    const carryFull: nat
    var version: Option<nat>
    var index: nat
    var flushed: nat
    var pending: bytes
    var position: nat
    var closed: bool

    /** What has been written so far, carried bytes included. */
    ghost var text: bytes

    function State(): Writer
      reads this
    {
      Writer(node, lock, ownsLock, version, carrySource, carryFull, index, flushed, pending, position, closed)
    }

    /** The claimed version, or the next one, may still be staged. */
    ghost predicate Valid()
      reads this, db
    {
      && db.Valid() && node in db.tables.content
      && Target(db.tables, State()) > 0 && db.tables.content[node].version != Target(db.tables, State())
      && Represents(db.chunkSize, db.tables, State(), text)
    }

    constructor (db: Db, w: Writer, ghost text: bytes)
      requires db.Valid() && w.node in db.tables.content && w.version.None?
      requires Represents(db.chunkSize, db.tables, w, text)
      ensures Valid() && State() == w && this.text == text && this.db == db
    {
      this.db, node, lock, ownsLock := db, w.node, w.lock, w.ownsLock;
      carrySource, carryFull := w.carrySource, w.carryFull;
      version, index, flushed := w.version, w.index, w.flushed;
      pending, position, closed := w.pending, w.position, w.closed;
      this.text := text;
      NextVersionIsFresh(db.tables, w.node);
    }

    /** Allocate the version on first use and carry the prior version's full leading chunks into it. */
    method ClaimVersion()
      requires Valid() && !closed
      modifies `version, db`tables
      ensures State() == WithVersion(old(db.tables), old(State()))
      ensures db.Valid() && Stages(old(db.tables), db.tables, Ver(node, Target(old(db.tables), old(State()))))
      ensures PoolSound(db.tables.pool) && db.tables.content == old(db.tables.content)
      ensures db.tables.Rows(Ver(node, Target(old(db.tables), old(State())))) == Claimed(old(db.tables), old(State()))
    {
      hide NextVersion, BytesOf, Holds, Represents;
      if version.None? {
        var v := NextVersion(db.tables, node);
        NextVersionIsFresh(db.tables, node);
        if carryFull > 0 {
          db.CopyRefsRange(node, v, carrySource, 0, carryFull - 1);
        }
        version := Some(v);
      }
    }

    /** Peel one full chunk off the buffer and stage it in its own transaction. */
    method FlushOneChunk()
      requires Valid() && !closed && db.chunkSize <= |pending|
      modifies `version, `index, `flushed, `pending, db`tables
      ensures Flushes(db.chunkSize, old(db.tables), old(State()), db.tables, State())
      ensures Valid()
    {
      var chunk := pending[..db.chunkSize];
      ghost var t, w := db.tables, State();
      ClaimedRows(db.chunkSize, t, w, text);
      ClaimVersion();
      ghost var t1 := db.tables;
      db.StageChunk(node, version.value, index, chunk);
      StagesTwice(t, t1, db.tables, Ver(node, version.value));
      index := index + 1;
      flushed := flushed + db.chunkSize;
      pending := pending[db.chunkSize..];
      FlushKeepsText(db.chunkSize, t, w, db.tables, State(), text);
    }

    /** Write at the cursor. Refused when the cursor stands in the flushed region. */
    method Write(data: bytes) returns (r: Option<nat>)
      requires Valid() && !closed && |pending| < db.chunkSize
      modifies this, db`tables
      ensures Valid() && closed == old(closed) && |pending| < db.chunkSize
      ensures r.None? <==> data != [] && old(position) < old(flushed)
      ensures r.None? ==> State() == old(State()) && text == old(text) && db.tables == old(db.tables)
      ensures r.Some? ==> r.value == |data| && text == Overwrite(old(text), old(position), data)
      ensures r.Some? ==> position == old(position) + |data|
    {
      hide Overwrite, Represents, Sound, BytesOf;
      var buffered := Buffered(State(), data);
      if buffered.None? {
        return None;
      }
      BufferedIsOverwrite(db.chunkSize, db.tables, State(), data, text);
      text := Overwrite(text, position, data);
      pending, position := buffered.value.pending, buffered.value.position;
      while db.chunkSize <= |pending|
        invariant Valid() && !closed
        invariant text == Overwrite(old(text), old(position), data) && position == old(position) + |data|
        decreases |pending|
      {
        FlushOneChunk();
      }
      r := Some(|data|);
    }

    /** Move the cursor; `End` counts the buffered bytes. A negative target is refused. */
    method Seek(offset: int, whence: Whence) returns (r: Option<nat>)
      requires Valid() && !closed
      modifies `position
      ensures Valid()
      ensures var target := match whence
                            case Set => offset
                            case Cur => old(position) + offset
                            case End => |text| + offset;
              if target < 0 then r == None && position == old(position) else r == Some(target) && position == target
    {
      var target := match whence
                    case Set => offset
                    case Cur => position + offset
                    case End => flushed + |pending| + offset;
      if target < 0 {
        return None;
      }
      position := target;
      r := Some(target);
    }

    /** Claim and stage what is still pending. */
    method StageLast()
      requires Valid() && !closed
      modifies `version, db`tables
      ensures db.Valid() && State() == WithVersion(old(db.tables), old(State()))
      ensures Finishes(old(db.tables), old(State()), db.tables) && db.tables.content == old(db.tables.content)
    {
      ghost var t, w := db.tables, State();
      ClaimedRows(db.chunkSize, t, w, text);
      ClaimVersion();
      ghost var t1 := db.tables;
      if pending != [] {
        db.StageChunk(node, version.value, index, pending);
        StagesTwice(t, t1, db.tables, Ver(node, version.value));
      }
    }

    /** The commit transaction itself, under a lock found valid. */
    method Commit()
      requires Valid() && !closed && |pending| < db.chunkSize
      modifies `version, `closed, db`tables
      ensures db.Valid() && closed
      ensures Closes(old(db.tables), old(State()), db.tables, State())
      ensures Publishes(db.chunkSize, old(db.tables), db.tables, node, Target(old(db.tables), old(State())), old(text))
    {
      hide Represents, Claimed, Target, Finishes, Sound, Holds, BytesOf;
      ghost var t, w := db.tables, State();
      StageLast();
      ghost var t1 := db.tables;
      closed := true;
      db.tables := Swapped(db.tables, node, version.value, flushed + |pending|);
      assert Finishes(t, w, t1);
      ClosePublishes(db.chunkSize, t, w, db.tables, State(), text);
    }

    /** Publish and release an owned lock; under an invalid lock publish nothing. Closing twice does nothing. */
    method Close() returns (r: Result<(), Error>)
      requires !closed ==> Valid() && |pending| < db.chunkSize
      modifies this, db`tables, db`sessions
      ensures closed
      ensures old(closed) ==> r == Success(()) && db.tables == old(db.tables) && db.sessions == old(db.sessions)
      ensures !old(closed) && !old(ValidLock(db.sessions, lock)) ==>
                r == Failure(LockInvalid) && db.tables == old(db.tables) && db.sessions == old(db.sessions)
      ensures !old(closed) && old(ValidLock(db.sessions, lock)) ==>
                && r == Success(())
                && Publishes(db.chunkSize, old(db.tables), db.tables, node, Target(old(db.tables), old(State())),
                             old(text))
                && db.sessions == if ownsLock then Released(old(db.sessions), lock) else old(db.sessions)
    {
      if closed {
        return Success(());
      }
      if !ValidLock(db.sessions, lock) {
        closed := true;
        return Failure(LockInvalid);
      }
      Commit();
      if ownsLock {
        db.sessions := Released(db.sessions, lock);
      }
      r := Success(());
    }

    /** Discard the write: nothing of it becomes visible, and an owned lock is released. */
    method Abort()
      modifies `closed, db`sessions
      ensures closed
      ensures db.sessions == if !old(closed) && ownsLock then Released(old(db.sessions), lock) else old(db.sessions)
    {
      if !closed && ownsLock {
        db.sessions := Released(db.sessions, lock);
      }
      closed := true;
    }
  }

  /**
    Open an entry for writing under an exclusive lock: a supplied one, or a
    fresh one of its own. `fresh` is the new lock's id. A path that resolves to
    nothing is created empty first, except for appending; `n` is then the id
    the new node gets.
   */
  method OpenWrite(db: Db, m: MountId, n: Node, mode: WriteMode, supplied: Option<LockId>, newLock: LockId)
    returns (r: Result<WriteDescriptor, Error>)
    requires db.Valid()
    requires n !in db.kinds ==> forall v: nat :: db.tables.Rows(Ver(n, v)) == map[]
    modifies db`tables, db`sessions, db`kinds
    ensures db.Valid()
    ensures var refusal := old(OpenRefusal(db.sessions, db.kinds, m, n, mode, supplied));
            if refusal.Some? then r == Failure(refusal.value) && db.sessions == old(db.sessions)
            else r.Success?
    ensures r.Success? ==>
              && fresh(r.value) && r.value.db == db && r.value.node == n && r.value.Valid() && !r.value.closed
              && |r.value.pending| < db.chunkSize && r.value.position == |r.value.text|
              && r.value.text == (if mode == Overwriting then [] else old(db.Current(n)))
              && r.value.lock == (if supplied.Some? then supplied.value else newLock)
              && r.value.ownsLock == supplied.None?
    ensures r.Success? ==>
              db.sessions == if supplied.Some? then old(db.sessions)
                             else Locked(old(db.sessions), newLock, Lock(m, n, None))
    ensures forall o :: db.Current(o) == old(db.Current(o))
    ensures r.Failure? || n in old(db.kinds) ==> db.tables == old(db.tables) && db.kinds == old(db.kinds)
  {
    var refusal := OpenRefusal(db.sessions, db.kinds, m, n, mode, supplied);
    if refusal.Some? {
      return Failure(refusal.value);
    }
    if n !in db.kinds {
      db.PutInitialContent(n, Entry, []);
    }
    var lock := newLock;
    if supplied.Some? {
      lock := supplied.value;
    } else {
      db.sessions := Locked(db.sessions, newLock, Lock(m, n, None));
    }
    OpenedRepresents(db.chunkSize, db.tables, n, mode, lock, supplied.None?);
    var d := new WriteDescriptor(db, Opened(db.chunkSize, db.tables, n, mode, lock, supplied.None?),
                                 if mode == Overwriting then [] else db.Current(n));
    r := Success(d);
  }
}
