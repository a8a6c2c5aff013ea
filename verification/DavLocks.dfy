/**
  The lock registry of the DAV front end: exclusive locks on one resource or on
  a whole subtree of paths (section 9.10.3 of RFC 4918). Every registry method
  runs under one mutex and so is one step; `DavLock.Refresh` does not, and may
  touch a lock the registry has dropped meanwhile.
 */
module DavLocks {
  import opened Wrappers
  import opened DavPaths
  import opened Sessions
  import Store
  import Locking
  import Protocol

  /** What a lock is on: a path, alone or with everything beneath it. */
  datatype Scope = Scope(path: string, deep: bool)

  predicate Covers(sc: Scope, path: string) {
    sc.path == path || (sc.deep && StartsWith(path, Opening(sc.path)))
  }

  predicate IsDescendant(candidate: string, ancestor: string) {
    candidate != ancestor && StartsWith(candidate, Opening(ancestor))
  }

  predicate AtOrBelow(path: string, top: string) {
    path == top || IsDescendant(path, top)
  }

  /** The test `acquire` makes against a lock already held. */
  predicate Conflicts(held: Scope, wanted: Scope) {
    Covers(held, wanted.path) || (wanted.deep && IsDescendant(held.path, wanted.path))
  }

  /** Some path is governed by both. */
  ghost predicate Overlap(a: Scope, b: Scope) {
    exists p :: Covers(a, p) && Covers(b, p)
  }

  /** The lock governs something at or beneath `top`. */
  ghost predicate Touches(sc: Scope, top: string) {
    exists q :: AtOrBelow(q, top) && Covers(sc, q)
  }

  // ---- The string tests miss nothing ----------------------------------------------------

  /** Two openings of one path are nested. */
  lemma OpeningsNest(x: string, y: string, p: string)
    requires StartsWith(p, Opening(x)) && StartsWith(p, Opening(y)) && |Opening(x)| <= |Opening(y)|
    ensures x == y || StartsWith(y, Opening(x)) || StartsWith(x, Opening(y))
  {
    assert Opening(x) == p[..|Opening(x)|] && Opening(y) == p[..|Opening(y)|];
    if |Opening(x)| == |Opening(y)| {
      assert Opening(x) == Opening(y);
      SameOpening(x, y);
    } else {
      assert Opening(y)[..|Opening(x)|] == Opening(x);
      assert y == Opening(y)[..|y|];
      assert y[..|Opening(x)|] == Opening(x);
    }
  }

  lemma SameOpening(x: string, y: string)
    requires Opening(x) == Opening(y)
    ensures x == y || StartsWith(y, Opening(x)) || StartsWith(x, Opening(y))
  {
    assert !EndsWithSlash(x) ==> x == Opening(x)[..|x|];
    assert !EndsWithSlash(y) ==> y == Opening(y)[..|y|];
  }

  /** Two subtrees that share a path share the top of one of them. */
  lemma SubtreesMeet(x: string, y: string, p: string)
    requires Covers(Scope(x, true), p) && Covers(Scope(y, true), p)
    ensures Covers(Scope(x, true), y) || Covers(Scope(y, true), x)
  {
    if x != p && y != p {
      if |Opening(x)| <= |Opening(y)| { OpeningsNest(x, y, p); } else { OpeningsNest(y, x, p); }
    }
  }

  /** The two-way test of `acquire` refuses exactly the locks that would govern a path another one governs. */
  lemma ConflictIsOverlap(held: Scope, wanted: Scope)
    ensures Conflicts(held, wanted) <==> Overlap(held, wanted)
  {
    if Conflicts(held, wanted) {
      if Covers(held, wanted.path) {
        assert Covers(wanted, wanted.path);
      } else {
        assert Covers(held, held.path) && Covers(wanted, held.path);
      }
    }
    if Overlap(held, wanted) {
      var p :| Covers(held, p) && Covers(wanted, p);
      if held.deep && wanted.deep { SubtreesMeet(held.path, wanted.path, p); }
    }
  }

  /**
    A lock governs something at or beneath a path exactly when it governs the
    path itself or lies at or beneath it: looking up once and down once is enough.
   */
  lemma SubtreeTouched(sc: Scope, top: string)
    ensures Touches(sc, top) <==> Covers(sc, top) || AtOrBelow(sc.path, top)
  {
    ConflictIsOverlap(sc, Scope(top, true));
    assert Covers(sc, sc.path);
    assert AtOrBelow(top, top);
    if q :| AtOrBelow(q, top) && Covers(sc, q) { assert Covers(Scope(top, true), q); }
  }

  /** On normal paths the tests are segment prefixes. */
  lemma CoversMeansPrefix(a: seq<string>, b: seq<string>, deep: bool)
    requires Names(a) && Names(b)
    ensures Covers(Scope(Rendered(a), deep), Rendered(b)) <==> if deep then a <= b else a == b
    ensures IsDescendant(Rendered(b), Rendered(a)) <==> a < b
    ensures AtOrBelow(Rendered(b), Rendered(a)) <==> a <= b
  {
    OpeningIsPrefix(a, b);
    NormalIsUnique(a, b);
  }

  // ---- The registry as a table --------------------------------------------------------------

  datatype Row = Row(volume: string, scope: Scope, expires: int)

  type Table = map<string, Row>

  function Alive(r: Table, now: int): Table {
    map t | t in r && now < r[t].expires :: r[t]
  }

  /** What the registry can go through in one step under its mutex, and a refresh, which is outside it. */
  datatype Event =
    | Reaped(now: int)
    | Acquired(now: int, token: string, row: Row)
    | Dropped(now: int, token: string)
    | VolumeDropped(volume: string)
    | Refreshed(token: string, expires: int)

  ghost predicate Happens(r: Table, r': Table, e: Event) {
    match e
    case Reaped(now) => r' == Alive(r, now)
    case Acquired(now, token, row) =>
      && token !in r && !Taken(Alive(r, now), row)
      && r' == Alive(r, now)[token := row]
    case Dropped(now, token) => r' == Alive(r, now) - {token}
    case VolumeDropped(volume) => r' == map t | t in r && r[t].volume != volume :: r[t]
    case Refreshed(token, expires) => r' == if token in r then r[token := r[token].(expires := expires)] else r
  }

  /** A lock of the table governs some path the row would govern. */
  ghost predicate Taken(r: Table, row: Row) {
    exists t :: t in r && r[t].volume == row.volume && Overlap(r[t].scope, row.scope)
  }

  /** No two locks of one volume govern a common path, expired or not. */
  ghost predicate Disjoint(r: Table) {
    forall t, u | t in r && u in r && t != u && r[t].volume == r[u].volume :: !Overlap(r[t].scope, r[u].scope)
  }

  lemma HappensDisjoint(r: Table, r': Table, e: Event)
    requires Disjoint(r) && Happens(r, r', e)
    ensures Disjoint(r')
  {
    hide Overlap;
    if e.Acquired? {
      forall t | t in Alive(r, e.now) && r[t].volume == e.row.volume
        ensures !Overlap(r[t].scope, e.row.scope) && !Overlap(e.row.scope, r[t].scope)
      {
        OverlapBothWays(r[t].scope, e.row.scope);
      }
    }
  }

  /** Under any interleaving of acquiring, releasing, reaping and unguarded refreshing. */
  lemma {:induction false} AlwaysDisjoint(rs: seq<Table>, es: seq<Event>, k: nat)
    requires |rs| == |es| + 1 && k <= |es| && Disjoint(rs[0])
    requires forall i | 0 <= i < |es| :: Happens(rs[i], rs[i + 1], es[i])
    ensures Disjoint(rs[k])
  {
    hide Disjoint, Happens;
    if k > 0 {
      AlwaysDisjoint(rs, es, k - 1);
      assert Happens(rs[k - 1], rs[k - 1 + 1], es[k - 1]);
      HappensDisjoint(rs[k - 1], rs[k], es[k - 1]);
    }
  }

  lemma OverlapBothWays(a: Scope, b: Scope)
    ensures Overlap(a, b) <==> Overlap(b, a)
  {
    if p :| Covers(a, p) && Covers(b, p) { assert Covers(b, p) && Covers(a, p); }
    if p :| Covers(b, p) && Covers(a, p) { assert Covers(a, p) && Covers(b, p); }
  }

  // ---- What a request has to look for ------------------------------------------------------------

  /**
    Who is asking to change what: a path of a volume, with `deep` everything beneath
    it too, and the tokens it submits.
   */
  datatype Ask = Ask(volume: string, path: string, deep: bool, submitted: set<string>)

  ghost predicate Strange(r: Table, t: string, a: Ask) {
    t in r && r[t].volume == a.volume && t !in a.submitted
  }

  /** Some lock of the table not submitted governs something the request would change. */
  ghost predicate Blocked(r: Table, a: Ask) {
    exists t :: Strange(r, t, a) && if a.deep then Touches(r[t].scope, a.path) else Covers(r[t].scope, a.path)
  }

  /** The look upwards: a lock governing the path itself. */
  ghost predicate FoundAbove(r: Table, a: Ask) {
    exists t :: Strange(r, t, a) && Covers(r[t].scope, a.path)
  }

  /** The look downwards: a lock at or beneath the path. */
  ghost predicate FoundBelow(r: Table, a: Ask) {
    exists t :: Strange(r, t, a) && AtOrBelow(r[t].scope.path, a.path)
  }

  /** `path` is where one of the locks in the way is. */
  ghost predicate Points(r: Table, path: string, a: Ask) {
    exists t :: Strange(r, t, a) && r[t].scope.path == path
                && (Covers(r[t].scope, a.path) || (a.deep && AtOrBelow(path, a.path)))
  }

  /** At one moment the two looks find exactly what is in the way. */
  lemma BothLooks(r: Table, a: Ask)
    ensures Blocked(r, a) <==> FoundAbove(r, a) || (a.deep && FoundBelow(r, a))
  {
    hide Touches, Covers, AtOrBelow;
    forall t | t in r
      ensures Touches(r[t].scope, a.path) <==> Covers(r[t].scope, a.path) || AtOrBelow(r[t].scope.path, a.path)
    {
      SubtreeTouched(r[t].scope, a.path);
    }
    if t :| Strange(r, t, a) && Covers(r[t].scope, a.path) { assert Touches(r[t].scope, a.path); }
    if t :| Strange(r, t, a) && AtOrBelow(r[t].scope.path, a.path) { assert Touches(r[t].scope, a.path); }
    if t :| Strange(r, t, a) && (if a.deep then Touches(r[t].scope, a.path) else Covers(r[t].scope, a.path)) {
      assert Covers(r[t].scope, a.path) || (a.deep && AtOrBelow(r[t].scope.path, a.path));
    }
  }

  /** Nobody locks anything of the volume, or keeps a lock of it alive. */
  ghost predicate Quiet(r: Table, e: Event, volume: string) {
    && (e.Acquired? ==> e.row.volume != volume)
    && (e.Refreshed? && e.token in r ==> r[e.token].volume != volume)
  }

  lemma {:induction false} NothingNew(rs: seq<Table>, es: seq<Event>, volume: string, k: nat, t: string)
    requires |rs| == |es| + 1 && k <= |es|
    requires forall i | 0 <= i < |es| :: Happens(rs[i], rs[i + 1], es[i]) && Quiet(rs[i], es[i], volume)
    requires t in rs[k] && rs[k][t].volume == volume
    ensures t in rs[0] && rs[0][t] == rs[k][t]
  {
    hide Overlap;
    if k > 0 {
      assert Happens(rs[k - 1], rs[k - 1 + 1], es[k - 1]) && Quiet(rs[k - 1], es[k - 1], volume);
      NothingNew(rs, es, volume, k - 1, t);
    }
  }

  /**
    The two looks are two steps. Whatever happens between them, as long as
    nobody takes or refreshes a lock of the volume, they miss nothing that is
    in the way at the second, and refuse only for what was in the way at the first.
   */
  lemma TwoLooks(rs: seq<Table>, es: seq<Event>, a: Ask, now: int, later: int)
    requires |rs| == |es| + 1 && now <= later
    requires forall i | 0 <= i < |es| :: Happens(rs[i], rs[i + 1], es[i]) && Quiet(rs[i], es[i], a.volume)
    ensures var refused := FoundAbove(Alive(rs[0], now), a) || (a.deep && FoundBelow(Alive(rs[|es|], later), a));
            && (Blocked(Alive(rs[|es|], later), a) ==> refused)
            && (refused ==> Blocked(Alive(rs[0], now), a))
  {
    hide Covers, AtOrBelow, Blocked, Happens, Quiet;
    var first, second := Alive(rs[0], now), Alive(rs[|es|], later);
    BothLooks(first, a);
    BothLooks(second, a);
    forall t | Strange(second, t, a) ensures Strange(first, t, a) && first[t] == second[t] {
      NothingNew(rs, es, a.volume, |es|, t);
    }
  }

  /** But a lock taken above the path between the two looks is missed by both. */
  lemma MissedLock()
    ensures var row := Row("v", Scope("/a", true), 600); var a := Ask("v", "/a/b", true, {});
            exists r ::
              && Happens(map[], r, Acquired(0, "t", row)) && Blocked(Alive(r, 0), a)
              && !FoundAbove(Alive(map[], 0), a) && !FoundBelow(Alive(r, 0), a)
  {
    var row, a := Row("v", Scope("/a", true), 600), Ask("v", "/a/b", true, {});
    var r: Table := map["t" := row];
    assert Alive(map[], 0) == map[] && Alive(r, 0) == r;
    assert Happens(map[], r, Acquired(0, "t", row));
    assert Opening("/a") == "/a/" && "/a/b"[..3] == "/a/";
    assert Covers(row.scope, "/a/b") && AtOrBelow("/a/b", "/a/b");
    assert Strange(r, "t", a) && Touches(r["t"].scope, a.path);
    assert !AtOrBelow("/a", "/a/b");
  }

  // ---- Locks and the registry -----------------------------------------------------------------

  const DEFAULT_TIMEOUT: int := 600
  const MAX_TIMEOUT: int := 3600

  function Clamped(timeout: Option<int>): int {
    if timeout.None? then DEFAULT_TIMEOUT
    else if timeout.value < 1 then 1
    else if timeout.value > MAX_TIMEOUT then MAX_TIMEOUT
    else timeout.value
  }

  function Distance(a: int, b: int): nat {
    if a <= b then b - a else a - b
  }

  /** Ten minutes where nothing is asked for, else what of a second to an hour comes nearest to what is asked for. */
  lemma ClampedIsNearest(timeout: Option<int>)
    ensures timeout.None? ==> Clamped(timeout) == 600
    ensures timeout.Some? ==>
              && 1 <= Clamped(timeout) <= 3600
              && forall y | 1 <= y <= 3600 :: Distance(Clamped(timeout), timeout.value) <= Distance(y, timeout.value)
  {
  }

  /** A lock that is neither refreshed nor released is live for exactly the time it was taken for. */
  lemma LiveUntil(r: Table, r': Table, now: int, token: string, row: Row, later: int)
    requires Happens(r, r', Acquired(now, token, row))
    ensures token in Alive(r', later) <==> later < row.expires
    ensures forall t | t in r && t != token :: t in Alive(r', now) <==> now < r[t].expires
  {
  }

  class DavLock {
    const token: string
    const volume: string
    const scope: Scope
    var timeout: int
    var expires: int
    var engineLock: Option<LockId>

    constructor (token: string, volume: string, scope: Scope, timeout: int, expires: int)
      ensures this.token == token && this.volume == volume && this.scope == scope
      ensures this.timeout == timeout && this.expires == expires && engineLock == None
    {
      this.token, this.volume, this.scope := token, volume, scope;
      this.timeout, this.expires, engineLock := timeout, expires, None;
    }

    predicate Expired(now: int)
      reads `expires
    {
      now >= expires
    }

    /** Not clamped, and not under the registry's mutex. */
    method Refresh(timeout: Option<int>, now: int)
      modifies `timeout, `expires
      ensures this.timeout == (if timeout.Some? then timeout.value else old(this.timeout))
      ensures expires == now + this.timeout
    {
      if timeout.Some? {
        this.timeout := timeout.value;
      }
      expires := now + this.timeout;
    }
  }

  class LockRegistry {
    var byToken: map<string, DavLock>

    constructor ()
      ensures Valid() && byToken == map[]
    {
      byToken := map[];
    }

    /** The registry's table: what its locks are on and until when. */
    ghost function View(): Table
      reads this, byToken.Values
    {
      map t | t in byToken :: Row(byToken[t].volume, byToken[t].scope, byToken[t].expires)
    }

    lemma SameTokens(t: string)
      ensures t in byToken <==> t in View()
    {
    }

    ghost predicate Linked()
      reads this
    {
      forall t | t in byToken :: byToken[t].token == t
    }

    ghost predicate Valid()
      reads this, byToken.Values
    {
      Linked() && Disjoint(View())
    }

    /** The locks still live at `now`. */
    ghost function Live(now: int): map<string, DavLock>
      reads this, byToken.Values
    {
      map t | t in byToken && !byToken[t].Expired(now) :: byToken[t]
    }

    method Reap(now: int)
      requires Valid()
      modifies `byToken
      ensures Valid() && byToken == old(Live(now)) && View() == Alive(old(View()), now)
      ensures Happens(old(View()), View(), Reaped(now))
    {
      hide Overlap;
      byToken := map t | t in byToken && !byToken[t].Expired(now) :: byToken[t];
      assert View() == Alive(old(View()), now);
      HappensDisjoint(old(View()), View(), Reaped(now));
    }

    /** The one lock governing `path`, its own or one inherited from above. */
    method Find(volume: string, path: string, now: int) returns (r: Option<DavLock>)
      requires Valid()
      modifies `byToken
      ensures Valid() && byToken == old(Live(now)) && Happens(old(View()), View(), Reaped(now))
      ensures r.Some? ==> r.value.token in byToken && byToken[r.value.token] == r.value
      ensures forall t | t in byToken && byToken[t].volume == volume && Covers(byToken[t].scope, path) ::
                r == Some(byToken[t])
      ensures r.Some? ==> r.value.volume == volume && Covers(r.value.scope, path)
    {
      hide Disjoint, Happens, Covers;
      Reap(now);
      var todo := byToken.Keys;
      while todo != {}
        invariant todo <= byToken.Keys
        invariant forall t | t in byToken && t !in todo && byToken[t].volume == volume ::
                    !Covers(byToken[t].scope, path)
        decreases todo
      {
        var t :| t in todo;
        var lock := byToken[t];
        if lock.volume == volume && Covers(lock.scope, path) {
          OnlyOneGoverns(t, path);
          return Some(lock);
        }
        todo := todo - {t};
      }
      r := None;
    }

    /** Hence `find` never has a choice. */
    lemma OnlyOneGoverns(t: string, path: string)
      requires Valid() && t in byToken && Covers(byToken[t].scope, path)
      ensures forall u | u in byToken && byToken[u].volume == byToken[t].volume && Covers(byToken[u].scope, path) ::
                u == t
    {
      forall u | u in byToken && byToken[u].volume == byToken[t].volume && Covers(byToken[u].scope, path)
        ensures u == t
      {
        assert Covers(View()[t].scope, path) && Covers(View()[u].scope, path);
        assert Overlap(View()[t].scope, View()[u].scope);
      }
    }

    /** Every lock at or beneath `path`. */
    method CoveredBySubtree(volume: string, path: string, now: int) returns (locks: set<DavLock>)
      requires Valid()
      modifies `byToken
      ensures Valid() && byToken == old(Live(now)) && Happens(old(View()), View(), Reaped(now))
      ensures locks ==
              set t | t in byToken && byToken[t].volume == volume && AtOrBelow(byToken[t].scope.path, path)
                :: byToken[t]
    {
      hide Disjoint, Happens;
      Reap(now);
      locks :=
        set t | t in byToken && byToken[t].volume == volume && AtOrBelow(byToken[t].scope.path, path) :: byToken[t];
    }

    method Get(token: string, now: int) returns (r: Option<DavLock>)
      requires Valid()
      modifies `byToken
      ensures Valid() && byToken == old(Live(now)) && Happens(old(View()), View(), Reaped(now))
      ensures r == if token in byToken then Some(byToken[token]) else None
    {
      hide Disjoint, Happens;
      Reap(now);
      r := if token in byToken then Some(byToken[token]) else None;
    }

    /** Take a lock unless a live one of the volume governs a path this one would govern. */
    method Acquire(volume: string, path: string, deep: bool, timeout: Option<int>, now: int, token: string)
      returns (r: Result<DavLock, string>)
      requires Valid() && token !in byToken
      modifies `byToken
      ensures Valid()
      ensures var row := Row(volume, Scope(path, deep), now + Clamped(timeout));
              && (r.Failure? <==> Taken(Alive(old(View()), now), row))
              && Happens(old(View()), View(), if r.Success? then Acquired(now, token, row) else Reaped(now))
      ensures r.Failure? ==> byToken == old(Live(now)) && Against(r.error, volume, Scope(path, deep))
      ensures r.Success? ==>
                && fresh(r.value) && byToken == old(Live(now))[token := r.value]
                && r.value.token == token && r.value.timeout == Clamped(timeout) && r.value.engineLock == None
    {
      hide Disjoint, Overlap, Taken, Happens;
      var wanted := Scope(path, deep);
      var seconds := Clamped(timeout);
      ghost var row := Row(volume, wanted, now + seconds);
      Reap(now);
      var rival := Rival(volume, path, deep, now + seconds);
      if rival.Some? {
        return Failure(rival.value);
      }
      var lock := new DavLock(token, volume, wanted, seconds, now + seconds);
      Register(lock, old(View()), now);
      r := Success(lock);
    }

    method Register(lock: DavLock, ghost before: Table, ghost now: int)
      requires Valid() && Disjoint(before) && lock.token !in before && View() == Alive(before, now)
      requires !Taken(View(), Row(lock.volume, lock.scope, lock.expires))
      modifies `byToken
      ensures Valid() && byToken == old(byToken)[lock.token := lock]
      ensures Happens(before, View(), Acquired(now, lock.token, Row(lock.volume, lock.scope, lock.expires)))
    {
      hide Disjoint, Overlap, Taken;
      ghost var row := Row(lock.volume, lock.scope, lock.expires);
      byToken := byToken[lock.token := lock];
      assert View() == Alive(before, now)[lock.token := row];
      HappensDisjoint(before, View(), Acquired(now, lock.token, row));
    }

    /** `path` is where a registered lock of the volume is that governs something the new one would. */
    ghost predicate Against(path: string, volume: string, wanted: Scope)
      reads this, byToken.Values
    {
      exists t :: t in byToken && byToken[t].volume == volume && byToken[t].scope.path == path
                  && Overlap(byToken[t].scope, wanted)
    }

    /** The path of a registered lock that stands in the way of a new one. */
    method Rival(volume: string, path: string, deep: bool, ghost expires: int) returns (r: Option<string>)
      ensures r.Some? <==> Taken(View(), Row(volume, Scope(path, deep), expires))
      ensures r.Some? ==> Against(r.value, volume, Scope(path, deep))
    {
      hide Overlap, Covers;
      var wanted := Scope(path, deep);
      var todo := byToken.Keys;
      while todo != {}
        invariant todo <= byToken.Keys
        invariant forall t | t in byToken && t !in todo && byToken[t].volume == volume ::
                    !Overlap(byToken[t].scope, wanted)
        decreases todo
      {
        var t :| t in todo;
        var lock := byToken[t];
        ConflictIsOverlap(lock.scope, wanted);
        if lock.volume == volume && (Covers(lock.scope, path) || (deep && IsDescendant(lock.scope.path, path))) {
          assert t in View() && View()[t].volume == volume && Overlap(View()[t].scope, wanted);
          return Some(lock.scope.path);
        }
        todo := todo - {t};
      }
      r := None;
    }

    method Release(token: string, now: int) returns (r: Option<DavLock>)
      requires Valid()
      modifies `byToken
      ensures Valid() && byToken == old(Live(now)) - {token} && Happens(old(View()), View(), Dropped(now, token))
      ensures r == if token in old(Live(now)) then Some(old(Live(now))[token]) else None
    {
      hide Disjoint, Overlap;
      Reap(now);
      r := if token in byToken then Some(byToken[token]) else None;
      byToken := byToken - {token};
      assert View() == Alive(old(View()), now) - {token};
      HappensDisjoint(old(View()), View(), Dropped(now, token));
    }

    method ReleaseVolume(volume: string) returns (gone: set<DavLock>)
      requires Valid()
      modifies `byToken
      ensures Valid() && byToken == map t | t in old(byToken) && old(byToken)[t].volume != volume :: old(byToken)[t]
      ensures Happens(old(View()), View(), VolumeDropped(volume))
      ensures gone == set t | t in old(byToken) && old(byToken)[t].volume == volume :: old(byToken)[t]
    {
      hide Disjoint, Overlap;
      gone := set t | t in byToken && byToken[t].volume == volume :: byToken[t];
      byToken := map t | t in byToken && byToken[t].volume != volume :: byToken[t];
      assert View() == map t | t in old(View()) && old(View())[t].volume != volume :: old(View())[t];
      HappensDisjoint(old(View()), View(), VolumeDropped(volume));
    }

    /** A refresh of any lock object, registered or long dropped. */
    method RefreshAny(lock: DavLock, timeout: Option<int>, now: int)
      requires Valid() && (lock.token in byToken ==> byToken[lock.token] == lock)
      modifies lock`timeout, lock`expires
      ensures Valid() && Happens(old(View()), View(), Refreshed(lock.token, lock.expires))
      ensures lock.timeout == (if timeout.Some? then timeout.value else old(lock.timeout))
      ensures lock.expires == now + lock.timeout
    {
      hide Disjoint, Overlap;
      lock.Refresh(timeout, now);
      assert forall t | t in byToken && t != lock.token :: byToken[t] != lock;
      assert lock.token in byToken ==>
               View() == old(View())[lock.token := old(View())[lock.token].(expires := lock.expires)];
      assert lock.token !in byToken ==> View() == old(View());
      HappensDisjoint(old(View()), View(), Refreshed(lock.token, lock.expires));
    }

    /**
      `_require_unlocked`: the path of a lock in the way, if there is one. Time
      may pass between its two looks: what is still in the way at the second is
      never missed, and nothing is refused that was not in the way at the first.
     */
    method RequireUnlocked(a: Ask, now: int, later: int) returns (r: Option<string>)
      requires Valid() && now <= later
      modifies `byToken
      ensures Valid() && View() in {Alive(old(View()), now), Alive(old(View()), later)}
      ensures r.Some?
              <==> FoundAbove(Alive(old(View()), now), a) || (a.deep && FoundBelow(Alive(old(View()), later), a))
      ensures r.Some? ==> Points(Alive(old(View()), now), r.value, a)
      ensures Blocked(Alive(old(View()), later), a) ==> r.Some?
      ensures r.Some? ==> Blocked(Alive(old(View()), now), a)
    {
      hide Disjoint, Covers, AtOrBelow, Blocked, Touches;
      ghost var before := View();
      assert before in [before];
      TwoLooks([before], [], a, now, later);
      var held := Find(a.volume, a.path, now);
      AliveTwice(before, now, later);
      if held.Some? && held.value.token !in a.submitted {
        assert Strange(Alive(before, now), held.value.token, a);
        return Some(held.value.scope.path);
      }
      assert !FoundAbove(Alive(before, now), a);
      if a.deep {
        var others := CoveredBySubtree(a.volume, a.path, later);
        if other :| other in others && other.token !in a.submitted {
          assert Strange(Alive(before, later), other.token, a);
          return Some(other.scope.path);
        }
        assert !FoundBelow(Alive(before, later), a);
      }
      r := None;
    }
  }

  lemma AliveTwice(r: Table, now: int, later: int)
    requires now <= later
    ensures Alive(Alive(r, now), later) == Alive(r, later)
  {
  }

  // ---- The request handlers ------------------------------------------------------------------

  /** 423, 409, 412, and whatever the engine raises that no handler expects. */
  datatype Fault = Locked | NoParent | NoSuchLock | NothingToRefresh | Engine(error: Store.Error)

  /** What the path of a LOCK shows: a missing resource is created empty first, if the engine will. */
  datatype Target = Collection | File | Missing(why: Store.Error, create: Result<(), Store.Error>)

  /** Whether the lock is granted by the registry. */
  ghost predicate Granted(r: Table, volume: string, path: string, deep: bool, now: int) {
    !Taken(Alive(r, now), Row(volume, Scope(path, deep), 0))
  }

  /**
    LOCK with a body. `engine` is what taking the engine's lock on anything but
    a collection came to. Of a request that fails the registry keeps the lock
    exactly when it had granted it and the engine failed otherwise than by a
    lock held elsewhere. A resource created for it stays in any case.
   */
  method DoLock(locks: LockRegistry, volume: string, path: string, deep: bool, timeout: Option<int>, now: int,
                later: int,
                token: string, target: Target, engine: Result<LockId, Store.Error>)
    returns (r: Result<DavLock, Fault>, created: bool)
    requires locks.Valid() && token !in locks.byToken && now <= later
    modifies locks`byToken
    ensures locks.Valid()
    ensures created == (target.Missing? && path != "/" && target.create.Success?)
    ensures var reached := !target.Missing? || created;
            var granted := reached && Granted(old(locks.View()), volume, path, deep, now);
            && r.Success? == (granted && (target.Collection? || engine.Success?))
            && (token in locks.View() <==> granted && (target.Collection? || engine != Failure(Store.LockHeld)))
            && (token in locks.View() ==>
                  Happens(old(locks.View()), locks.View(),
                          Acquired(now, token, Row(volume, Scope(path, deep), now + Clamped(timeout)))))
            && (reached && !granted ==> r == Failure(Locked) && locks.View() == Alive(old(locks.View()), now))
            && (granted && r.Failure? ==>
                  r == if engine == Failure(Store.LockHeld) then Failure(Locked) else Failure(Engine(engine.error)))
            && (granted && token !in locks.View() ==> locks.View() == Alive(old(locks.View()), later))
            && (!reached ==> locks.View() == old(locks.View())
                             && r == if path == "/" then Failure(Engine(target.why))
                                     else if target.create.error == Store.NotFound then Failure(NoParent)
                                     else Failure(Engine(target.create.error)))
    ensures r.Success? ==>
              && fresh(r.value) && token in locks.byToken && r.value == locks.byToken[token]
              && r.value.timeout == Clamped(timeout)
              && r.value.engineLock == if target.Collection? then None else Some(engine.value)
  {
    hide Overlap, Conflicts, Covers, Disjoint;
    created := false;
    if target.Missing? {
      if path == "/" {
        return Failure(Engine(target.why)), false;
      }
      if target.create.Failure? {
        return Failure(if target.create.error == Store.NotFound then NoParent else Engine(target.create.error)), false;
      }
      created := true;
    }
    ghost var before := locks.View();
    GrantedMeans(before, volume, path, deep, now, now + Clamped(timeout));
    var lock := locks.Acquire(volume, path, deep, timeout, now, token);
    if lock.Failure? {
      return Failure(Locked), created;
    }
    if !target.Collection? {
      if engine.Failure? {
        if engine.error != Store.LockHeld {
          return Failure(Engine(engine.error)), created;
        }
        ghost var granted := locks.View();
        var _ := locks.Release(token, later);
        GivenBack(before, granted, locks.View(), token, Row(volume, Scope(path, deep), now + Clamped(timeout)), now,
                  later);
        return Failure(Locked), created;
      }
      ghost var granted := locks.View();
      lock.value.engineLock := Some(engine.value);
      assert locks.View() == granted;
    }
    r := Success(lock.value);
  }

  /** A lock taken and released leaves the table as the passing of time would. */
  lemma GivenBack(before: Table, mid: Table, after: Table, token: string, row: Row, now: int, later: int)
    requires now <= later && Happens(before, mid, Acquired(now, token, row))
    requires Happens(mid, after, Dropped(later, token))
    ensures after == Alive(before, later) && token !in after
  {
    hide Taken;
    assert token !in Alive(before, now);
  }

  lemma GrantedMeans(r: Table, volume: string, path: string, deep: bool, now: int, expires: int)
    ensures Granted(r, volume, path, deep, now) <==> !Taken(Alive(r, now), Row(volume, Scope(path, deep), expires))
  {
    hide Overlap;
  }

  /**
    The file goes away between being found and being locked: the request fails, and
    its path stays locked for ten minutes.
   */
  method StrandedLock() returns (first: Result<DavLock, Fault>, second: Result<DavLock, Fault>)
    ensures first == Failure(Engine(Store.NotFound)) && second == Failure(Locked)
  {
    hide Conflicts, Disjoint;
    var locks := new LockRegistry();
    var created, again;
    assert Granted(locks.View(), "v", "/a", false, 0);
    first, created := DoLock(locks, "v", "/a", false, None, 0, 1, "t", File, Failure(Store.NotFound));
    assert Covers(Scope("/a", false), "/a");
    assert locks.View() == map["t" := Row("v", Scope("/a", false), 600)];
    assert "t" in Alive(locks.View(), 599);
    locks.SameTokens("u");
    second, again := DoLock(locks, "v", "/a", false, None, 599, 600, "u", File, Success(1));
  }

  /** Of the submitted tokens this is the first of a lock of the volume. */
  ghost predicate IsFirst(live: map<string, DavLock>, volume: string, submitted: seq<string>, token: string) {
    exists i :: 0 <= i < |submitted| && submitted[i] == token
                && forall k | 0 <= k < i && submitted[k] in live :: live[submitted[k]].volume != volume
  }

  /** LOCK without a body: extend the first submitted token that names a live lock of the volume. */
  method DoRefresh(locks: LockRegistry, volume: string, submitted: seq<string>, timeout: Option<int>, now: int)
    returns (r: Result<DavLock, Fault>)
    requires locks.Valid()
    modifies locks`byToken, locks.byToken.Values
    ensures locks.Valid() && locks.byToken == if submitted == [] then old(locks.byToken) else old(locks.Live(now))
    ensures r.Success? ==> r.value.token in submitted && r.value.token in locks.byToken && r.value.volume == volume
                           && Happens(Alive(old(locks.View()), now), locks.View(),
                                      Refreshed(r.value.token, r.value.expires))
                           && r.value.expires == now + r.value.timeout
    ensures r.Success? ==>
              && r.value in old(locks.byToken.Values)
              && r.value.timeout == (if timeout.Some? then timeout.value else old(r.value.timeout))
              && IsFirst(old(locks.Live(now)), volume, submitted, r.value.token)
    ensures r.Failure? ==> r.error == NothingToRefresh
                           && forall t | t in submitted && t in locks.byToken :: locks.byToken[t].volume != volume
  {
    hide Disjoint;
    ghost var live := locks.Live(now);
    ghost var all := locks.byToken;
    ghost var before := locks.View();
    AliveTwice(before, now, now);
    for i := 0 to |submitted|
      invariant locks.Valid() && locks.Live(now) == live
      invariant locks.byToken == if i == 0 then all else live
      invariant locks.View() == if i == 0 then before else Alive(before, now)
      invariant forall t | t in live :: live[t].timeout == old(live[t].timeout)
      invariant forall k | 0 <= k < i && submitted[k] in live :: live[submitted[k]].volume != volume
    {
      var existing := locks.Get(submitted[i], now);
      if existing.Some? && existing.value.volume == volume {
        locks.RefreshAny(existing.value, timeout, now);
        return Success(existing.value);
      }
    }
    r := Failure(NothingToRefresh);
  }

  /**
    UNLOCK. The registry's lock goes, and then the engine's that was taken with
    it. That one may have run out or been taken over meanwhile, which is no
    matter; a mount that is no longer valid is reported, the registry's lock
    being gone all the same.
   */
  method DoUnlock(locks: LockRegistry, engine: Locking.LockService, m: MountId, volume: string, token: string, now: int,
                  later: int)
    returns (r: Result<DavLock, Fault>)
    requires locks.Valid() && engine.Valid() && now <= later
    modifies locks`byToken, engine.db`sessions
    ensures locks.Valid() && engine.Valid()
    ensures var live := old(locks.Live(now));
            if token in live && live[token].volume == volume then
              && token !in locks.byToken && locks.View() == Alive(old(locks.View()), later) - {token}
              && GivesUp(old(engine.db.sessions), engine.db.sessions, m, live[token].engineLock)
              && r == if live[token].engineLock.Some? && !ValidMount(old(engine.db.sessions), m)
                      then Failure(Engine(Store.MountInvalid))
                      else Success(live[token])
            else
              && r == Failure(NoSuchLock) && locks.View() == Alive(old(locks.View()), now)
              && engine.db.sessions == old(engine.db.sessions)
  {
    hide Disjoint, GivesUp, Protocol.LocksOk, LockRegistry.Valid, LockRegistry.View;
    var existing := Withdraw(locks, volume, token, now, later);
    if existing.None? {
      return Failure(NoSuchLock);
    }
    var given := GiveUp(engine, m, existing.value.engineLock);
    r := if given.Failure? then Failure(given.error) else Success(existing.value);
  }

  method Withdraw(locks: LockRegistry, volume: string, token: string, now: int, later: int) returns (r: Option<DavLock>)
    requires locks.Valid() && now <= later
    modifies locks`byToken
    ensures locks.Valid()
    ensures var live := old(locks.Live(now));
            if token in live && live[token].volume == volume then
              && r == Some(live[token]) && token !in locks.byToken
              && locks.View() == Alive(old(locks.View()), later) - {token}
            else r == None && locks.View() == Alive(old(locks.View()), now)
  {
    hide Disjoint;
    AliveTwice(locks.View(), now, later);
    r := locks.Get(token, now);
    if r.None? || r.value.volume != volume {
      return None;
    }
    var _ := locks.Release(token, later);
  }

  method GiveUp(engine: Locking.LockService, m: MountId, l: Option<LockId>) returns (r: Result<(), Fault>)
    requires engine.Valid()
    modifies engine.db`sessions
    ensures engine.Valid() && GivesUp(old(engine.db.sessions), engine.db.sessions, m, l)
    ensures r == if l.Some? && !ValidMount(old(engine.db.sessions), m) then Failure(Engine(Store.MountInvalid))
                 else Success(())
  {
    hide Protocol.LocksOk;
    r := Success(());
    if l.Some? {
      var given := engine.Unlock(m, l.value);
      if given.Failure? && given.error !in {Store.LockInvalid, Store.LockHeld} {
        r := Failure(Engine(given.error));
      }
    }
  }

  /** The engine's lock `l` is gone afterwards if it was a valid one of the mount's own, and no other is. */
  ghost predicate GivesUp(s: Sessions, s': Sessions, m: MountId, l: Option<LockId>) {
    var own := l.Some? && ValidMount(s, m) && ValidLock(s, l.value) && s.locks[l.value].mount == m;
    s' == if own then Released(s, l.value) else s
  }
}
