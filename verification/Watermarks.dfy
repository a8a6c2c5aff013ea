/**
  The stored high-water mark of a volume. Sessions fence their mint by it on
  first use and write it back with the rows they commit.
 */
module Watermarks {
  import opened Wrappers
  import opened Ids

  type Volume = string

  // ---- Every session together -------------------------------------------------------------

  type Sid = nat

  /**
    One volume as all sessions see it: the stored mark, the ids committed so
    far, where each fenced mint stands, and the ids of each open transaction.
   */
  datatype World = World(mark: Stamp, committed: set<Stamp>, mints: map<Sid, Stamp>, open: map<Sid, set<Stamp>>)

  datatype Action = Attach(s: Sid) | Mint(s: Sid, now: nat) | Commit(s: Sid) | Rollback(s: Sid)

  ghost predicate Step(w: World, w': World, a: Action) {
    match a
    case Attach(s) =>
      s !in w.mints && w' == w.(mints := w.mints[s := Raised(Stamp(0, -1), w.mark)], open := w.open[s := {}])
    case Mint(s, now) =>
      && s in w.mints && s in w.open
      && var id := Next(w.mints[s], now);
         w' == w.(mints := w.mints[s := id], open := w.open[s := w.open[s] + {id}])
    case Commit(s) =>
      && s in w.mints && s in w.open
      && w' == w.(mark := if w.open[s] == {} then w.mark else Raised(w.mark, w.mints[s]),
                  committed := w.committed + w.open[s], open := w.open[s := {}])
    case Rollback(s) =>
      s in w.mints && s in w.open && w' == w.(open := w.open[s := {}])
  }

  // ---- One session's side --------------------------------------------------------------

  /** The volume rows of the database file, shared by every session. */
  class VolumeFile {
    var marks: map<Volume, Stamp>

    constructor ()
      ensures marks == map[]
    {
      marks := map[];
    }
  }

  /** `rest` are the other sessions: session `s` is none of them. */
  ghost predicate Outside(rest: World, s: Sid) {
    s !in rest.mints && s !in rest.open
  }

  /** The world once session `s` is attached, which its first mint sees to. */
  function Attached(w: World, s: Sid): World {
    if s in w.mints then w
    else w.(mints := w.mints[s := Raised(Stamp(0, -1), w.mark)], open := w.open[s := {}])
  }

  /** The stored mark, one session's mint and the other sessions, put together. */
  function Seen(mark: Stamp, own: Option<Stamp>, ids: set<Stamp>, rest: World, s: Sid): World {
    match own
    case None => World(mark, rest.committed, rest.mints, rest.open)
    case Some(at) => World(mark, rest.committed, rest.mints[s := at], rest.open[s := ids])
  }

  /** Where a mint stands, or would start. */
  function Standing(mark: Stamp, own: Option<Stamp>): Stamp {
    if own.Some? then own.value else Raised(Stamp(0, -1), mark)
  }

  lemma StandsAtFloor(marks: map<Volume, Stamp>, v: Volume, own: Option<Stamp>)
    ensures v in marks ==> Standing(marks[v], own) == if own.Some? then own.value else Floor(marks, v)
  {
  }

  /** Attaching puts the mint where it would start. */
  lemma AttachedView(mark: Stamp, own: Option<Stamp>, ids: set<Stamp>)
    requires own.None? ==> ids == {}
    ensures forall rest: World, s: Sid | Outside(rest, s) ::
              Attached(Seen(mark, own, ids, rest, s), s) == Seen(mark, Some(Standing(mark, own)), ids, rest, s)
  {
  }

  lemma MintIsStep(mark: Stamp, own: Option<Stamp>, ids: set<Stamp>, id: Stamp, now: nat)
    requires id == Next(Standing(mark, own), now) && (own.None? ==> ids == {})
    ensures forall rest: World, s: Sid | Outside(rest, s) ::
              Step(Attached(Seen(mark, own, ids, rest, s), s), Seen(mark, Some(id), ids + {id}, rest, s),
                   Action.Mint(s, now))
  {
  }

  /** With the mark and the mint where they are, committing `ids` is a step. */
  ghost predicate Commits(mark: Stamp, at: Stamp, ids: set<Stamp>) {
    forall rest: World, s: Sid | Outside(rest, s) ::
      Step(Seen(mark, Some(at), ids, rest, s),
           Seen(if ids == {} then mark else Raised(mark, at), Some(at), {}, rest.(committed := rest.committed + ids),
                s),
           Action.Commit(s))
  }

  lemma CommitIsStep(mark: Stamp, at: Stamp, ids: set<Stamp>)
    ensures Commits(mark, at, ids)
  {
  }

  /** So is rolling them back. */
  ghost predicate RollsBack(mark: Stamp, at: Stamp, ids: set<Stamp>) {
    forall rest: World, s: Sid | Outside(rest, s) ::
      Step(Seen(mark, Some(at), ids, rest, s), Seen(mark, Some(at), {}, rest, s), Action.Rollback(s))
  }

  lemma RollbackIsStep(mark: Stamp, at: Stamp, ids: set<Stamp>)
    ensures RollsBack(mark, at, ids)
  {
  }

  lemma AttachedIsStep(w: World, s: Sid)
    requires s !in w.mints
    ensures Step(w, Attached(w, s), Attach(s))
  {
  }

  /** Where a mint of `v` starts when the stored mark is as it is. */
  function Floor(marks: map<Volume, Stamp>, v: Volume): Stamp {
    if v in marks then Raised(Stamp(0, -1), marks[v]) else Stamp(0, -1)
  }

  /** Each pending mark raises its row; no row falls. */
  function Flushed(marks: map<Volume, Stamp>, pending: map<Volume, Stamp>): map<Volume, Stamp> {
    map v | v in marks :: if v in pending then Raised(marks[v], pending[v]) else marks[v]
  }

  class Session {
    const file: VolumeFile
    var mints: map<Volume, MonotonicMint>
    var pending: map<Volume, Stamp>
    /** The ids minted in the open transaction. */
    ghost var born: map<Volume, set<Stamp>>

    constructor (file: VolumeFile)
      ensures this.file == file && Valid() && mints == map[] && pending == map[]
    {
      this.file, mints, pending, born := file, map[], map[], map[];
    }

    /** No two volumes share a mint. */
    ghost predicate Apart()
      reads `mints
    {
      forall v, w | v in mints && w in mints && v != w :: mints[v] != mints[w]
    }

    /** A volume's pending mark is where its mint stands, and there is one exactly when something was minted. */
    ghost predicate InStep(v: Volume)
      requires v in mints
      reads `mints, `pending, `born, mints[v]
    {
      && -1 <= mints[v].nth && v in born
      && if born[v] == {} then v !in pending else v in pending && pending[v] == mints[v].State()
    }

    ghost predicate Valid()
      reads this, mints.Values
    {
      Apart() && born.Keys == mints.Keys && pending.Keys <= mints.Keys && forall v | v in mints :: InStep(v)
    }

    /** A volume as all sessions see it, this one being session `s` and the others as in `rest`. */
    ghost function View(v: Volume, rest: World, s: Sid): World
      requires v in file.marks
      reads this, mints.Values, file
    {
      Seen(file.marks[v], MintOf(v), BornOf(v), rest, s)
    }

    /** Where the volume's mint stands, once there is one. */
    ghost function MintOf(v: Volume): Option<Stamp>
      reads this, mints.Values
    {
      if v in mints then Some(mints[v].State()) else None
    }

    ghost function BornOf(v: Volume): set<Stamp>
      reads this
    {
      if v in born then born[v] else {}
    }

    method Fenced(v: Volume) returns (mint: MonotonicMint)
      requires v in file.marks ==> -1 <= file.marks[v].nth
      ensures fresh(mint) && mint.State() == Floor(file.marks, v) && -1 <= mint.nth
    {
      mint := new MonotonicMint();
      if v in file.marks {
        mint.Fence(file.marks[v]);
      }
    }

    /** The volume's mint, fenced by the stored mark when first used. */
    method MintFor(v: Volume) returns (mint: MonotonicMint)
      requires Valid() && forall u | u in file.marks :: -1 <= file.marks[u].nth
      modifies `mints, `born
      ensures Valid() && v in mints && mints == old(mints)[v := mint] && -1 <= mint.nth
      ensures born == if v in old(mints) then old(born) else old(born)[v := {}]
      ensures v in file.marks ==>
                forall rest: World, s: Sid | Outside(rest, s) :: View(v, rest, s) == Attached(old(View(v, rest, s)), s)
      ensures if v in old(mints) then mint == old(mints)[v] else fresh(mint) && mint.State() == Floor(file.marks, v)
    {
      hide Seen, Attached, Outside, Step;
      StandsAtFloor(file.marks, v, MintOf(v));
      if v in file.marks { AttachedView(file.marks[v], MintOf(v), BornOf(v)); }
      if v !in mints {
        mint := Fenced(v);
        mints, born := mints[v := mint], born[v := {}];
      } else {
        mint := mints[v];
      }
    }

    /**
      The stamp of a new row, noted as the mark its transaction must leave: one
      mint, of a session attached by then.
     */
    method CreateMonotonic(v: Volume, now: nat) returns (id: Stamp)
      requires Valid() && forall u | u in file.marks :: -1 <= file.marks[u].nth
      modifies this, mints.Values
      ensures Valid() && v in mints && mints[v].State() == id && Proper(id)
      ensures id == Next(if v in old(mints) then old(mints[v].State()) else Floor(file.marks, v), now)
      ensures pending == old(pending)[v := id]
      ensures v in file.marks ==>
                forall rest: World, s: Sid | Outside(rest, s) ::
                  Step(Attached(old(View(v, rest, s)), s), View(v, rest, s), Action.Mint(s, now))
      ensures forall u | u in old(mints) && u != v ::
                u in mints && mints[u] == old(mints[u]) && mints[u].State() == old(mints[u].State())
    {
      hide Step, Seen, Attached, Outside, Next, Raised, Session.Apart, Session.InStep, Standing;
      StandsAtFloor(file.marks, v, MintOf(v));
      ghost var own, ids := MintOf(v), BornOf(v);
      var mint := MintFor(v);
      id := Advance(v, now);
      if v in file.marks { MintIsStep(file.marks[v], own, ids, id, now); }
    }

    method Advance(v: Volume, now: nat) returns (id: Stamp)
      requires Valid() && v in mints
      modifies `pending, `born, mints[v]
      ensures Valid() && mints[v].State() == id && id == Next(old(mints[v].State()), now) && Proper(id)
      ensures pending == old(pending)[v := id] && born == old(born)[v := old(born)[v] + {id}]
      ensures forall u | u in mints && u != v :: mints[u].State() == old(mints[u].State())
    {
      hide Next, Session.Apart, Proper;
      SoleMint(v);
      id := mints[v].Mint(now);
      forall u | u in mints && u != v ensures InStep(u) { assert old(InStep(u)); }
      Note(v, id);
    }

    method Note(v: Volume, id: Stamp)
      requires Apart() && born.Keys == mints.Keys && pending.Keys <= mints.Keys
      requires v in mints && mints[v].State() == id && -1 <= mints[v].nth
      requires forall u | u in mints && u != v :: InStep(u)
      modifies `pending, `born
      ensures Valid() && pending == old(pending)[v := id] && born == old(born)[v := old(born)[v] + {id}]
    {
      pending := pending[v := id];
      born := born[v := born[v] + {id}];
      assert id in born[v];
      forall u | u in mints && u != v ensures InStep(u) { assert old(InStep(u)); }
    }

    lemma SoleMint(v: Volume)
      requires Apart() && v in mints
      ensures forall u | u in mints && u != v :: mints[u] != mints[v]
    {
    }

    /** The commit of the open transaction: its ids are committed, and every pending mark raises its row. */
    method FlushWatermarks()
      requires Valid()
      modifies `pending, `born, file
      ensures Valid() && pending == map[] && file.marks == Flushed(old(file.marks), old(pending))
      ensures forall v, rest: World, s: Sid | v in mints && v in old(file.marks) && Outside(rest, s) ::
                Step(old(View(v, rest, s)), View(v, rest.(committed := rest.committed + old(born)[v]), s),
                     Action.Commit(s))
    {
      hide Step, Seen, Outside;
      forall v | v in mints && v in file.marks
        ensures InStep(v) && Commits(file.marks[v], mints[v].State(), born[v])
      {
        CommitIsStep(file.marks[v], mints[v].State(), born[v]);
      }
      RaiseMarks();
      pending := map[];
      born := map v | v in mints :: {};
      forall v | v in mints ensures InStep(v) { assert old(InStep(v)); }
    }

    method RaiseMarks()
      requires Valid()
      modifies file
      ensures Valid() && file.marks == Flushed(old(file.marks), pending)
    {
      hide Session.Apart, Session.InStep;
      var todo := pending.Keys;
      ghost var before := file.marks;
      while todo != {}
        invariant Valid() && todo <= pending.Keys && file.marks.Keys == before.Keys
        invariant forall v | v in before ::
                    file.marks[v] == if v in pending && v !in todo then Raised(before[v], pending[v]) else before[v]
        decreases todo
      {
        var v :| v in todo;
        if v in file.marks && Less(file.marks[v], pending[v]) {
          file.marks := file.marks[v := pending[v]];
        }
        todo := todo - {v};
      }
    }

    /** The advance is discarded with the rows it covered; the mint in memory stays where it is. */
    method Rollback()
      requires Valid()
      modifies `pending, `born
      ensures Valid() && pending == map[]
      ensures forall v, rest: World, s: Sid | v in mints && v in file.marks && Outside(rest, s) ::
                Step(old(View(v, rest, s)), View(v, rest, s), Action.Rollback(s))
    {
      hide Step, Seen, Outside;
      forall v | v in mints && v in file.marks ensures RollsBack(file.marks[v], mints[v].State(), born[v]) {
        RollbackIsStep(file.marks[v], mints[v].State(), born[v]);
      }
      pending := map[];
      born := map v | v in mints :: {};
    }
  }

  // ---- What holds of all of them ---------------------------------------------------------------

  /** The mark covers every committed id, and each mint every id of its open transaction. */
  ghost predicate Covered(w: World) {
    && w.mints.Keys == w.open.Keys
    && (forall x | x in w.committed :: AtMost(x, w.mark))
    && (forall s | s in w.open :: forall x | x in w.open[s] :: AtMost(x, w.mints[s]))
  }

  lemma StepCovered(w: World, w': World, a: Action)
    requires Covered(w) && Step(w, w', a)
    ensures Covered(w') && AtMost(w.mark, w'.mark) && w.committed <= w'.committed
    ensures forall s | s in w.mints :: s in w'.mints && AtMost(w.mints[s], w'.mints[s])
    ensures a.Mint? ==> Less(w.mints[a.s], w'.mints[a.s])
  {
  }

  ghost predicate Run(ws: seq<World>, acts: seq<Action>) {
    |ws| == |acts| + 1 && forall i | 0 <= i < |acts| :: Step(ws[i], ws[i + 1], acts[i])
  }

  /**
    In any interleaving of attaches, mints, commits and rollbacks the mark covers
    what is committed, and nothing goes back.
   */
  lemma {:induction false} RunCovered(ws: seq<World>, acts: seq<Action>, i: nat, k: nat)
    requires Run(ws, acts) && Covered(ws[0]) && i <= k < |ws|
    ensures Covered(ws[k]) && AtMost(ws[i].mark, ws[k].mark) && ws[i].committed <= ws[k].committed
    ensures forall s | s in ws[i].mints :: s in ws[k].mints && AtMost(ws[i].mints[s], ws[k].mints[s])
    decreases k
  {
    hide Covered, Step;
    if k > 0 {
      RunCovered(ws, acts, if i < k then i else k - 1, k - 1);
      StepCovered(ws[k - 1], ws[k], acts[k - 1]);
    }
  }

  /** The mark is what it was, or where some session's mint stood when it committed. */
  lemma {:induction false} MarkIsCommitted(ws: seq<World>, acts: seq<Action>, k: nat)
    requires Run(ws, acts) && k < |ws|
    ensures ws[k].mark == ws[0].mark
            || exists i ::
                 0 <= i < k && acts[i].Commit? && acts[i].s in ws[i].mints && ws[k].mark == ws[i].mints[acts[i].s]
  {
    if k > 0 {
      MarkIsCommitted(ws, acts, k - 1);
      assert Step(ws[k - 1], ws[k], acts[k - 1]);
      assert ws[k].mark == ws[k - 1].mark || (acts[k - 1].Commit? && ws[k].mark == ws[k - 1].mints[acts[k - 1].s]);
    }
  }

  /** A session's ids strictly rise, rolled back or not, wherever the clock stands. */
  lemma MintsRise(ws: seq<World>, acts: seq<Action>, i: nat, j: nat)
    requires Run(ws, acts) && Covered(ws[0]) && i < j < |acts|
    requires acts[i].Mint? && acts[j].Mint? && acts[i].s == acts[j].s
    ensures var s := acts[i].s;
            s in ws[i + 1].mints && s in ws[j + 1].mints && Less(ws[i + 1].mints[s], ws[j + 1].mints[s])
  {
    RunCovered(ws, acts, i + 1, j);
    RunCovered(ws, acts, j, j);
    assert Step(ws[i], ws[i + 1], acts[i]);
    StepCovered(ws[j], ws[j + 1], acts[j]);
  }

  /** A session attached later mints above everything that was committed when it attached. */
  lemma LaterSessionsMintAbove(ws: seq<World>, acts: seq<Action>, i: nat, j: nat)
    requires Run(ws, acts) && Covered(ws[0]) && i < j < |acts|
    requires acts[i].Attach? && acts[j].Mint? && acts[i].s == acts[j].s
    ensures acts[i].s in ws[j + 1].mints && forall x | x in ws[i].committed :: Less(x, ws[j + 1].mints[acts[i].s])
  {
    var s := acts[i].s;
    RunCovered(ws, acts, i, i);
    RunCovered(ws, acts, i + 1, j);
    RunCovered(ws, acts, j, j);
    assert Step(ws[i], ws[i + 1], acts[i]);
    assert AtMost(ws[i].mark, ws[i + 1].mints[s]);
    StepCovered(ws[j], ws[j + 1], acts[j]);
  }
}
