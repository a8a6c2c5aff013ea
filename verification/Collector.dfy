/**
  Reclaiming content: manifest rows beyond each entry's retention policy are
  dropped, then every stored chunk that no remaining row references.
 */
module Collector {
  import opened Wrappers
  import opened Flat
  import opened Sessions
  import opened Tables
  import opened Store

  /** The version numbers below the committed one that still have rows. */
  function History(t: Tables, n: Node): set<nat>
    requires n in t.content
  {
    set v | v in t.versions && v.node == n && t.versions[v] != map[] && v.number < t.content[n].version :: v.number
  }

  /** The members of `s` that are `x` or newer; their count is the rank of `x`, newest first. */
  function Newer(s: set<nat>, x: nat): set<nat> {
    set y | y in s && x <= y
  }

  /** How many superseded versions a policy keeps: the committed one counts as the first of `keep`. */
  function Kept(keep: int): nat {
    Max(keep - 1, 0)
  }

  /** The `retained_version` view. */
  predicate Retained(t: Tables, v: Ver) {
    && v.node in t.content
    && t.Rows(v) != map[]
    && var c := t.content[v.node];
       v.number == c.version
       || (v.number in History(t, v.node)
           && (c.keep.None? || |Newer(History(t, v.node), v.number)| <= Kept(c.keep.value)))
  }

  predicate InScope(scope: Option<set<Node>>, n: Node) {
    scope.None? || n in scope.value
  }

  /** A version survives when it is retained, when its node is locked, or when it is out of scope. */
  predicate Survives(t: Tables, s: Sessions, scope: Option<set<Node>>, v: Ver) {
    Retained(t, v) || Held(s, v.node) || !InScope(scope, v.node)
  }

  /** The addresses that some row references. */
  function Referenced(versions: map<Ver, Manifest>): set<Address> {
    set v, i | v in versions && i in versions[v] :: versions[v][i]
  }

  function PrunedVersions(t: Tables, s: Sessions, scope: Option<set<Node>>): map<Ver, Manifest> {
    map v | v in t.versions && Survives(t, s, scope, v) :: t.versions[v]
  }

  function Swept(versions: map<Ver, Manifest>, pool: Pool): Pool {
    map h | h in pool && h in Referenced(versions) :: pool[h]
  }

  function Pruned(t: Tables, s: Sessions, scope: Option<set<Node>>): Tables {
    var versions := PrunedVersions(t, s, scope);
    Tables(t.content, versions, Swept(versions, t.pool))
  }

  /** `prune_content`: the rows first, then the chunks. */
  method PruneContent(db: Db, scope: Option<set<Node>>)
    requires db.Valid()
    modifies db`tables
    ensures db.tables == Pruned(old(db.tables), db.sessions, scope)
    ensures db.Valid() && forall n :: db.Current(n) == old(db.Current(n))
  {
    PruneKeepsBytes(db.chunkSize, db.tables, db.sessions, scope);
    db.tables := db.tables.(versions := PrunedVersions(db.tables, db.sessions, scope));
    db.tables := db.tables.(pool := Swept(db.tables.versions, db.tables.pool));
  }

  // ---- Safety -------------------------------------------------------------------

  lemma PrunedRows(t: Tables, s: Sessions, scope: Option<set<Node>>, v: Ver)
    requires Resolves(t)
    ensures var t' := Pruned(t, s, scope);
            && (Survives(t, s, scope, v) ==> t'.Rows(v) == t.Rows(v))
            && (t'.Rows(v) != map[] ==> t'.Rows(v) == t.Rows(v))
            && (forall i | i in t'.Rows(v) ::
                  t'.Rows(v)[i] in t'.pool && t'.pool[t'.Rows(v)[i]] == t.pool[t'.Rows(v)[i]])
  {
    var t' := Pruned(t, s, scope);
    forall i | i in t'.Rows(v)
      ensures t'.Rows(v)[i] in t'.pool && t'.pool[t'.Rows(v)[i]] == t.pool[t'.Rows(v)[i]]
    {
      assert t'.versions[v][i] in Referenced(t'.versions);
      assert t.versions[v][i] in t.pool;
    }
  }

  /** Collecting changes no committed bytes and leaves no dangling row. */
  lemma PruneKeepsBytes(c: pos, t: Tables, s: Sessions, scope: Option<set<Node>>)
    requires Sound(c, t)
    ensures Sound(c, Pruned(t, s, scope))
    ensures forall n :: BytesOf(Pruned(t, s, scope), n) == BytesOf(t, n)
  {
    var t' := Pruned(t, s, scope);
    forall n
      ensures BytesOf(t', n) == BytesOf(t, n)
      ensures n in t.content ==> EntrySound(c, t', n)
    {
      if n in t.content { PruneKeepsEntry(c, t, s, scope, n); }
    }
    forall v, i | v in t'.versions && i in t'.versions[v] ensures t'.versions[v][i] in t'.pool {
      PrunedRows(t, s, scope, v);
    }
  }

  lemma PruneKeepsEntry(c: pos, t: Tables, s: Sessions, scope: Option<set<Node>>, n: Node)
    requires Sound(c, t) && n in t.content
    ensures BytesOf(Pruned(t, s, scope), n) == BytesOf(t, n) && EntrySound(c, Pruned(t, s, scope), n)
  {
    var v := Ver(n, t.content[n].version);
    var t' := Pruned(t, s, scope);
    PrunedRows(t, s, scope, v);
    assert t'.Rows(v) == t.Rows(v);
    KeptEntry(c, t, t', n);
  }

  /** The rows of a node under a valid lock, and their chunks, are left exactly as they are. */
  lemma PruneKeepsLocked(c: pos, t: Tables, s: Sessions, scope: Option<set<Node>>, v: Ver)
    requires Sound(c, t) && Held(s, v.node)
    ensures var t' := Pruned(t, s, scope);
            && t'.Rows(v) == t.Rows(v)
            && forall i | i in t.Rows(v) :: t.Rows(v)[i] in t'.pool && t'.pool[t.Rows(v)[i]] == t.pool[t.Rows(v)[i]]
  {
    PrunedRows(t, s, scope, v);
  }

  // ---- Exactness ------------------------------------------------------------------

  /** After a collection, scoped or not, the pool holds exactly what the remaining rows reference. */
  lemma PrunePoolExact(c: pos, t: Tables, s: Sessions, scope: Option<set<Node>>)
    requires Sound(c, t)
    ensures Pruned(t, s, scope).pool.Keys == Referenced(Pruned(t, s, scope).versions)
  {
    var t' := Pruned(t, s, scope);
    forall h | h in Referenced(t'.versions) ensures h in t'.pool {
      var v, i :| v in t'.versions && i in t'.versions[v] && t'.versions[v][i] == h;
      PrunedRows(t, s, scope, v);
      assert t'.Rows(v)[i] == h;
    }
  }

  /** Unscoped and with the node unlocked, exactly the retained versions keep their rows. */
  lemma PruneExact(t: Tables, s: Sessions, v: Ver)
    requires !Held(s, v.node)
    ensures Pruned(t, s, None).Rows(v) == if Retained(t, v) then t.Rows(v) else map[]
  {
  }

  /** The `k` newest members of a set. */
  function Newest(s: set<nat>, k: nat): set<nat> {
    set x | x in s && |Newer(s, x)| <= k
  }

  /** Whatever is newer than a member that is kept is kept too. */
  lemma NewestIsUpward(s: set<nat>, k: nat)
    ensures forall x, y | x in Newest(s, k) && y in s && x <= y :: y in Newest(s, k)
  {
    forall x, y | x in Newest(s, k) && y in s && x <= y ensures y in Newest(s, k) {
      SubsetSize(Newer(s, y), Newer(s, x));
    }
  }

  lemma NewestWithoutTop(s: set<nat>, k: nat)
    requires s != {} && k > 0
    ensures Newest(s, k) == Newest(s - {Largest(s)}, k - 1) + {Largest(s)}
  {
    var top := Largest(s);
    var rest := s - {top};
    assert Newer(s, top) == {top};
    forall x | x in rest ensures |Newer(s, x)| == |Newer(rest, x)| + 1 {
      assert Newer(s, x) == Newer(rest, x) + {top};
    }
  }

  lemma NewestOfEmpty(k: nat)
    ensures Newest({}, k) == {}
  {
  }

  lemma NewestOfNone(s: set<nat>)
    ensures Newest(s, 0) == {}
  {
    forall x | x in s ensures |Newer(s, x)| >= 1 { assert x in Newer(s, x); }
  }

  /** Selecting by rank keeps `k` members, or all when there are fewer. */
  lemma {:induction false} NewestCount(s: set<nat>, k: nat)
    ensures |Newest(s, k)| == Min(k, |s|)
    decreases k
  {
    hide Newest, Newer;
    if s == {} {
      NewestOfEmpty(k);
    } else if k == 0 {
      NewestOfNone(s);
    } else {
      var top := Largest(s);
      NewestCount(s - {top}, k - 1);
      NewestWithoutTop(s, k);
      assert s == s - {top} + {top};
      NewestAreMembers(s - {top}, k - 1);
      AddOne(s - {top}, Newest(s - {top}, k - 1), top);
    }
  }

  lemma NewestAreMembers(s: set<nat>, k: nat)
    ensures Newest(s, k) <= s
  {
  }

  lemma AddOne(rest: set<nat>, picked: set<nat>, top: nat)
    requires picked <= rest && top !in rest
    ensures |picked + {top}| == |picked| + 1 && |rest + {top}| == |rest| + 1
  {
  }

  lemma {:induction false} SubsetSize(a: set<nat>, b: set<nat>)
    requires a <= b
    ensures |a| <= |b|
  {
    assert b == a + (b - a);
  }

  /**
    A policy of `keep` leaves the committed version and the newest superseded
    ones, `keep` in all when there are that many: no older version outlives a newer.
   */
  lemma PolicyKeepsNewest(t: Tables, s: Sessions, n: Node)
    requires n in t.content && t.content[n].keep.Some? && !Held(s, n)
    ensures var keep := t.content[n].keep.value;
            var k := if keep < 1 then 0 else keep - 1;
            var t' := Pruned(t, s, None);
            && History(t', n) == Newest(History(t, n), k)
            && |History(t', n)| == Min(k, |History(t, n)|)
            && forall x, y | x in History(t', n) && y in History(t, n) && x <= y :: y in History(t', n)
  {
    var k := Kept(t.content[n].keep.value);
    var t' := Pruned(t, s, None);
    NewestCount(History(t, n), k);
    NewestIsUpward(History(t, n), k);
    forall x ensures x in History(t', n) <==> x in Newest(History(t, n), k) {
      var v := Ver(n, x);
      PruneExact(t, s, v);
      HistoryMember(t, n, x);
      HistoryMember(t', n, x);
    }
  }

  /**
    Counted out: of an entry nobody holds locked a policy of `keep` leaves `keep - 1` superseded
    versions besides the committed one, none when `keep` is less than two, and
    never more than there were; without a policy the whole history stays.
   */
  lemma PolicyCounts(t: Tables, s: Sessions, n: Node)
    requires n in t.content && !Held(s, n)
    ensures var before, after := History(t, n), History(Pruned(t, s, None), n);
            match t.content[n].keep
            case None => after == before
            case Some(keep) =>
              |after| == if keep < 1 then 0 else if |before| < keep - 1 then |before| else keep - 1
  {
    match t.content[n].keep
    case None =>
      forall x ensures x in History(Pruned(t, s, None), n) <==> x in History(t, n) {
        HistoryMember(t, n, x);
        HistoryMember(Pruned(t, s, None), n, x);
        PruneExact(t, s, Ver(n, x));
      }
    case Some(keep) =>
      hide Pruned, History;
      PolicyKeepsNewest(t, s, n);
  }

  /** Exactly what is retained, locked or out of scope keeps its rows. */
  lemma ScopedExact(t: Tables, s: Sessions, scope: Option<set<Node>>, v: Ver)
    ensures Pruned(t, s, scope).Rows(v)
            == if Retained(t, v) || (exists l :: l in s.locks && s.locks[l].node == v.node && ValidLock(s, l))
                  || (scope.Some? && v.node !in scope.value)
               then t.Rows(v) else map[]
  {
  }

  lemma HistoryMember(t: Tables, n: Node, x: nat)
    requires n in t.content
    ensures x in History(t, n) <==> t.Rows(Ver(n, x)) != map[] && x < t.content[n].version
  {
    if t.Rows(Ver(n, x)) != map[] && x < t.content[n].version {
      assert Ver(n, x) in t.versions;
    }
  }

  /** A version above the committed pointer survives only a lock or a scope that spares it: it is an abandoned write. */
  lemma OrphansAreCollected(t: Tables, s: Sessions, n: Node, x: nat)
    requires n in t.content && t.content[n].version < x && !Held(s, n)
    ensures Pruned(t, s, None).Rows(Ver(n, x)) == map[]
  {
    HistoryMember(t, n, x);
    PruneExact(t, s, Ver(n, x));
  }
}
