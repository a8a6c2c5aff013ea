/**
  The manifest check: every committed version's rows are numbered from 0
  without a gap, resolve in the pool, and add up to the recorded size; the deep
  form also recomputes each chunk's address.
 */
module Verifier {
  import opened Flat
  import opened Chunking
  import opened Sessions
  import opened Tables
  import opened Store

  datatype Problem =
    | Gap(node: Node)
    | MissingChunk(node: Node, hash: Address)
    | SizeMismatch(node: Node)
    | AddressMismatch(hash: Address)

  /** The chunk indexes of a version in ascending order, from `lo` up to `hi`. */
  function Ascending(m: Manifest, lo: nat, hi: nat): (r: seq<nat>)
    decreases hi - lo
  {
    if hi <= lo then [] else (if lo in m then [lo] else []) + Ascending(m, lo + 1, hi)
  }

  function Range(lo: nat, hi: nat): seq<nat>
    requires lo <= hi
  {
    seq(hi - lo, i requires 0 <= i => lo + i)
  }

  /** How many bytes the resolving rows of `[lo, hi)` add up to. */
  function Total(pool: Pool, m: Manifest, lo: nat, hi: nat): nat
    decreases hi - lo
  {
    if hi <= lo then 0
    else (if lo in m && m[lo] in pool then |pool[m[lo]].plain| else 0) + Total(pool, m, lo + 1, hi)
  }

  lemma {:induction false} TotalIsLength(pool: Pool, m: Manifest, lo: nat, hi: nat)
    ensures Total(pool, m, lo, hi) == |Concat(Fetch(pool, m, lo, hi))|
    decreases hi - lo
  {
    if lo < hi {
      TotalIsLength(pool, m, lo + 1, hi);
      if lo in m && m[lo] in pool {
        ConcatCons(pool[m[lo]].plain, Fetch(pool, m, lo + 1, hi));
      } else {
        assert Fetch(pool, m, lo, hi) == Fetch(pool, m, lo + 1, hi);
      }
    }
  }

  ghost predicate Contiguous(m: Manifest) {
    forall i: nat :: i in m <==> i < Top(m)
  }

  lemma {:induction false} AscendingWhenContiguous(m: Manifest, lo: nat, hi: nat)
    requires lo <= hi && forall i: nat | lo <= i < hi :: i in m
    ensures Ascending(m, lo, hi) == Range(lo, hi)
    decreases hi - lo
  {
    if lo < hi { AscendingWhenContiguous(m, lo + 1, hi); }
  }

  lemma {:induction false} AscendingHas(m: Manifest, lo: nat, hi: nat, i: nat)
    ensures i in Ascending(m, lo, hi) <==> lo <= i < hi && i in m
    decreases hi - lo
  {
    if lo < hi { AscendingHas(m, lo + 1, hi, i); }
  }

  /** Comparing the sorted indexes with `0, 1, ...` finds exactly the versions with a gap. */
  lemma GapTest(m: Manifest)
    ensures var idxs := Ascending(m, 0, Top(m)); idxs == Range(0, |idxs|) <==> Contiguous(m)
  {
    var top := Top(m);
    var idxs := Ascending(m, 0, top);
    if m != map[] { AscendingHas(m, 0, top, top - 1); }
    if Contiguous(m) {
      AscendingWhenContiguous(m, 0, top);
    }
    if idxs == Range(0, |idxs|) && m != map[] {
      assert top - 1 in m && top - 1 in idxs;
      forall i: nat | i < top ensures i in m {
        var at :| 0 <= at < |idxs| && idxs[at] == top - 1;
        assert idxs[i] == i;
        AscendingHas(m, 0, top, i);
      }
    }
  }

  /** What the shallow check asks of one entry. A version without rows is never looked at. */
  ghost predicate Clean(t: Tables, n: Node)
    requires n in t.content
  {
    var m := t.Committed(n);
    m == map[]
    || (Contiguous(m) && (forall i | i in m :: m[i] in t.pool) && |BytesOf(t, n)| == t.content[n].size)
  }

  /** Every resolving row is filed under the address of what it stores. */
  ghost predicate Authentic(t: Tables, n: Node)
    requires n in t.content
  {
    forall i | i in t.Committed(n) && t.Committed(n)[i] in t.pool ::
      AddressOf(t.pool[t.Committed(n)[i]]) == t.Committed(n)[i]
  }

  /** What is wrong with one row, if anything. */
  predicate RowWrong(pool: Pool, n: Node, hash: Address, deep: bool, p: Problem) {
    if hash !in pool then p == MissingChunk(n, hash)
    else deep && AddressOf(pool[hash]) != hash && p == AddressMismatch(hash)
  }

  /** `p` is wrong with entry `n`. */
  ghost predicate Wrong(t: Tables, n: Node, deep: bool, p: Problem)
    requires n in t.content
  {
    var m := t.Committed(n);
    && m != map[]
    && (|| (p == Gap(n) && !Contiguous(m))
        || (p == SizeMismatch(n) && |BytesOf(t, n)| != t.content[n].size)
        || exists i :: i in m && RowWrong(t.pool, n, m[i], deep, p))
  }

  /** What each problem says of the rows of the committed version. */
  lemma ProblemsMean(t: Tables, n: Node, deep: bool, p: Problem)
    requires n in t.content
    ensures var m := t.Committed(n);
            Wrong(t, n, deep, p)
            <==> match p
                 case Gap(x) => x == n && exists i: nat, j: nat :: i < j && j in m && i !in m
                 case SizeMismatch(x) => x == n && m != map[] && |BytesOf(t, n)| != t.content[n].size
                 case MissingChunk(x, h) => x == n && exists i :: i in m && m[i] == h && h !in t.pool
                 case AddressMismatch(h) =>
                   deep && exists i :: i in m && m[i] == h && h in t.pool && AddressOf(t.pool[h]) != h
  {
    hide BytesOf, Whole;
    var m := t.Committed(n);
    GapMeans(m);
    if p.MissingChunk? && exists i :: i in m && m[i] == p.hash && p.hash !in t.pool {
      var i :| i in m && m[i] == p.hash;
      assert RowWrong(t.pool, n, m[i], deep, MissingChunk(n, m[i]));
    }
    if p.AddressMismatch? && exists i :: i in m && m[i] == p.hash {
      var i :| i in m && m[i] == p.hash;
      assert RowWrong(t.pool, n, m[i], deep, p) <==> (deep && p.hash in t.pool && AddressOf(t.pool[p.hash]) != p.hash);
    }
    if i :| i in m && RowWrong(t.pool, n, m[i], deep, p) { assert p.MissingChunk? || p.AddressMismatch?; }
  }

  lemma GapMeans(m: Manifest)
    ensures !Contiguous(m) <==> exists i: nat, j: nat :: i < j && j in m && i !in m
  {
    if m == map[] {
      assert Contiguous(m);
    } else {
      assert Top(m) - 1 in m;
      if !Contiguous(m) {
        var i: nat :| !(i in m <==> i < Top(m));
        assert i < Top(m) - 1;
      }
    }
  }

  /** Nothing is wrong with an entry exactly when it passes. */
  lemma NothingWrong(t: Tables, n: Node, deep: bool)
    requires n in t.content
    ensures (forall p :: !Wrong(t, n, deep, p)) <==> Clean(t, n) && (deep ==> Authentic(t, n))
  {
    hide Contiguous, BytesOf, Whole;
    var m := t.Committed(n);
    if forall p :: !Wrong(t, n, deep, p) {
      assert !Wrong(t, n, deep, Gap(n)) && !Wrong(t, n, deep, SizeMismatch(n));
      forall i | i in m ensures m[i] in t.pool && (deep ==> AddressOf(t.pool[m[i]]) == m[i]) {
        assert !Wrong(t, n, deep, MissingChunk(n, m[i])) && !Wrong(t, n, deep, AddressMismatch(m[i]));
        assert !RowWrong(t.pool, n, m[i], deep, MissingChunk(n, m[i]));
        assert !RowWrong(t.pool, n, m[i], deep, AddressMismatch(m[i]));
      }
    }
  }

  /** Exactly what is wrong with one entry. */
  method VerifyEntry(db: Db, n: Node, deep: bool) returns (problems: set<Problem>)
    requires n in db.tables.content
    ensures forall p :: p in problems <==> Wrong(db.tables, n, deep, p)
  {
    problems := {};
    var m := db.tables.Committed(n);
    if m == map[] {
      return;
    }
    var pool := db.tables.pool;
    var idxs := Ascending(m, 0, Top(m));
    GapTest(m);
    if idxs != Range(0, |idxs|) {
      problems := {Gap(n)};
    }
    hide Contiguous, Ascending, Range;
    var total, at := 0, 0;
    while at < Top(m)
      invariant at <= Top(m)
      invariant total + Total(pool, m, at, Top(m)) == Total(pool, m, 0, Top(m))
      invariant forall p :: p in problems <==>
                  (p == Gap(n) && !Contiguous(m)) || exists i :: i in m && i < at && RowWrong(pool, n, m[i], deep, p)
    {
      if at in m {
        if m[at] !in pool {
          problems := problems + {MissingChunk(n, m[at])};
        } else {
          total := total + |pool[m[at]].plain|;
          if deep && AddressOf(pool[m[at]]) != m[at] {
            problems := problems + {AddressMismatch(m[at])};
          }
        }
      }
      at := at + 1;
    }
    TotalIsLength(pool, m, 0, Top(m));
    if total != db.tables.content[n].size {
      problems := problems + {SizeMismatch(n)};
    }
  }

  /** In every sound state the check reports nothing, shallow or deep. */
  lemma SoundIsClean(c: pos, t: Tables, n: Node)
    requires Sound(c, t) && n in t.content
    ensures Clean(t, n) && Authentic(t, n)
  {
    EntryHeld(c, t, n);
    HeldIsContiguous(t.pool, t.Committed(n), c, BytesOf(t, n));
  }

  lemma HeldIsContiguous(pool: Pool, m: Manifest, c: pos, f: bytes)
    requires Holds(pool, m, c, f)
    ensures Contiguous(m)
  {
    forall i: nat ensures i in m <==> i < Top(m) {
      if i < Top(m) {
        var last := Top(m) - 1;
        ChunkShape(f, c, i);
        ChunkShape(f, c, last);
        StartOrder(c, i, last);
        assert last in m;
      }
    }
  }

  lemma NoProblems(t: Tables, deep: bool, problems: set<Problem>)
    requires forall p :: p in problems <==> exists n :: n in t.content && Wrong(t, n, deep, p)
    ensures problems == {} <==> forall n | n in t.content :: Clean(t, n) && (deep ==> Authentic(t, n))
  {
    hide Wrong, Clean, Authentic;
    forall n | n in t.content
      ensures (forall p :: !Wrong(t, n, deep, p)) <==> Clean(t, n) && (deep ==> Authentic(t, n))
    {
      NothingWrong(t, n, deep);
    }
    if problems == {} {
      forall n, p | n in t.content ensures !Wrong(t, n, deep, p) { assert p !in problems; }
    }
  }

  /** `verify`: it reports exactly what is wrong with the committed versions, which in a sound state is nothing. */
  method Verify(db: Db, deep: bool) returns (problems: set<Problem>)
    ensures forall p :: p in problems <==> exists n :: n in db.tables.content && Wrong(db.tables, n, deep, p)
    ensures problems == {} <==>
              forall n | n in db.tables.content :: Clean(db.tables, n) && (deep ==> Authentic(db.tables, n))
    ensures db.Valid() ==> problems == {}
  {
    hide Wrong, Clean, Authentic;
    problems := {};
    var todo := db.tables.content.Keys;
    while todo != {}
      invariant todo <= db.tables.content.Keys
      invariant forall p :: p in problems <==>
                  exists n :: n in db.tables.content && n !in todo && Wrong(db.tables, n, deep, p)
    {
      var n :| n in todo;
      var found := VerifyEntry(db, n, deep);
      problems := problems + found;
      todo := todo - {n};
    }
    NoProblems(db.tables, deep, problems);
    if db.Valid() {
      forall n | n in db.tables.content ensures Clean(db.tables, n) && Authentic(db.tables, n) {
        SoundIsClean(db.chunkSize, db.tables, n);
      }
    }
  }
}
