/**
  The engine's standalone locks, and the ends of mounts. Each method is one
  transaction, and one step of the protocol over mounts, locks and writers.
 */
module Locking {
  import opened Wrappers
  import opened Sessions
  import opened Store
  import opened Protocol

  class LockService {
    const db: Db
    /** Every lock id issued so far; ids are never issued twice. */
    ghost var used: set<LockId>

    constructor (db: Db)
      requires LocksOk(db.sessions, db.sessions.locks.Keys)
      ensures this.db == db && used == db.sessions.locks.Keys && Valid()
    {
      this.db := db;
      used := db.sessions.locks.Keys;
    }

    ghost predicate Valid()
      reads this, db
    {
      LocksOk(db.sessions, used)
    }

    /** The world the protocol speaks of, without its writers. */
    ghost function View(): World
      reads this, db
    {
      World(db.kinds, db.tables, db.sessions, used, map[])
    }

    function Expiry(ttl: Option<nat>): Option<nat>
      reads db
    {
      if ttl.Some? then Some(db.sessions.now + ttl.value) else None
    }

    /** While the mount is valid the lock is, for the time to live from now on, or for good when there is none. */
    ghost predicate LastsFor(m: MountId, l: LockId, ttl: Option<nat>)
      reads db
    {
      forall t: nat | t >= db.sessions.now && ValidMount(db.sessions.(now := t), m) ::
        ValidLock(db.sessions.(now := t), l) <==> ttl.None? || t < db.sessions.now + ttl.value
    }

    /** Refused while any valid lock is on the node, the caller's own included. `id` is the new lock's id. */
    method TakeLock(m: MountId, n: Node, ttl: Option<nat>, id: LockId) returns (r: Result<LockId, Error>)
      requires Valid() && id !in used
      modifies `used, db`sessions
      ensures Valid()
      ensures r == if !old(ValidMount(db.sessions, m)) then Failure(MountInvalid)
                   else if n !in db.kinds then Failure(NotFound)
                   else if old(Held(db.sessions, n)) then Failure(LockHeld)
                   else Success(id)
      ensures r.Failure? ==> View() == old(View())
      ensures r.Success? ==>
                && SessionStep(old(View()), View(), Protocol.TakeLock(m, n, id, old(Expiry(ttl))))
                && (ttl != Some(0) ==> ValidLock(db.sessions, id)) && !HeldByOther(db.sessions, n, m)
      ensures r.Success? ==> LastsFor(m, id, ttl)
    {
      if !ValidMount(db.sessions, m) {
        return Failure(MountInvalid);
      }
      if n !in db.kinds {
        return Failure(NotFound);
      }
      if Held(db.sessions, n) {
        return Failure(LockHeld);
      }
      ghost var w := View();
      var row := Lock(m, n, Expiry(ttl));
      db.sessions := Locked(db.sessions, id, row);
      used := used + {id};
      SessionNarrows(w, View(), Protocol.TakeLock(m, n, id, row.expires));
      r := Success(id);
    }

    /** Whether `m` may act on the lock: LockInvalid when it is gone or has run out, LockHeld when another mount's. */
    function Owned(m: MountId, l: LockId): Option<Error>
      reads db
    {
      if !ValidMount(db.sessions, m) then Some(MountInvalid)
      else if !ValidLock(db.sessions, l) then Some(LockInvalid)
      else if db.sessions.locks[l].mount != m then Some(LockHeld)
      else None
    }

    /** Not idempotent: releasing a lock that is gone is an error. */
    method Unlock(m: MountId, l: LockId) returns (r: Result<(), Error>)
      requires Valid()
      modifies db`sessions
      ensures Valid()
      ensures old(Owned(m, l)).Some? ==> r == Failure(old(Owned(m, l)).value) && View() == old(View())
      ensures old(Owned(m, l)).None? ==>
                && r.Success? && SessionStep(old(View()), View(), Protocol.Unlock(m, l))
                && !Held(db.sessions, old(db.sessions.locks[l]).node) == old(OnlyLockOn(l))
    {
      var refusal := Owned(m, l);
      if refusal.Some? {
        return Failure(refusal.value);
      }
      ghost var w := View();
      db.sessions := Released(db.sessions, l);
      SessionNarrows(w, View(), Protocol.Unlock(m, l));
      StillHeld(w.s, l);
      r := Success(());
    }

    ghost predicate OnlyLockOn(l: LockId)
      requires l in db.sessions.locks
      reads db
    {
      forall k | k in db.sessions.locks && k != l ::
        db.sessions.locks[k].node == db.sessions.locks[l].node ==> !ValidLock(db.sessions, k)
    }

    lemma StillHeld(s: Sessions, l: LockId)
      requires l in s.locks
      ensures Held(Released(s, l), s.locks[l].node)
              <==> exists k :: k in s.locks && k != l && s.locks[k].node == s.locks[l].node && ValidLock(s, k)
    {
      var s' := Released(s, l);
      forall k | k in s'.locks ensures ValidLock(s', k) <==> ValidLock(s, k) {}
    }

    /** Move the expiry of a lock that is still valid, keeping its id. */
    method RenewLock(m: MountId, l: LockId, ttl: Option<nat>) returns (r: Result<(), Error>)
      requires Valid()
      modifies db`sessions
      ensures Valid()
      ensures old(Owned(m, l)).Some? ==> r == Failure(old(Owned(m, l)).value) && View() == old(View())
      ensures old(Owned(m, l)).None? ==>
                && r.Success? && SessionStep(old(View()), View(), Protocol.RenewLock(m, l, old(Expiry(ttl))))
                && LastsFor(m, l, ttl)
    {
      var refusal := Owned(m, l);
      if refusal.Some? {
        return Failure(refusal.value);
      }
      ghost var w := View();
      var row := db.sessions.locks[l].(expires := Expiry(ttl));
      db.sessions := Locked(db.sessions, l, row);
      SessionNarrows(w, View(), Protocol.RenewLock(m, l, row.expires));
      r := Success(());
    }

    // ---- Mounts ----------------------------------------------------------------------

    /** Marking a mount that is not there does nothing. Its locks are left to be pruned. */
    method Unmount(m: MountId)
      requires Valid()
      modifies db`sessions
      ensures Valid() && !ValidMount(db.sessions, m)
      ensures m in old(db.sessions.mounts) ==> SessionStep(old(View()), View(), Protocol.Unmount(m))
      ensures m !in old(db.sessions.mounts) ==> View() == old(View())
    {
      if m in db.sessions.mounts {
        ghost var w := View();
        db.sessions := MountRow(db.sessions, m, db.sessions.mounts[m].(unmounted := true));
        SessionNarrows(w, View(), Protocol.Unmount(m));
      }
    }

    /** Only a mount that is still valid is renewed; it lasts for the new time to live from now on. */
    method RenewMount(m: MountId, ttl: Option<nat>) returns (r: Result<(), Error>)
      requires Valid()
      modifies db`sessions
      ensures Valid()
      ensures r == if old(ValidMount(db.sessions, m)) then Success(()) else Failure(MountInvalid)
      ensures r.Failure? ==> View() == old(View())
      ensures r.Success? ==>
                && SessionStep(old(View()), View(), Protocol.RenewMount(m, old(Expiry(ttl))))
                && forall t: nat :: ValidMount(db.sessions.(now := t), m)
                                    <==> ttl.None? || t < db.sessions.now + ttl.value
    {
      if !ValidMount(db.sessions, m) {
        return Failure(MountInvalid);
      }
      ghost var w := View();
      var row := db.sessions.mounts[m].(expires := Expiry(ttl));
      db.sessions := MountRow(db.sessions, m, row);
      SessionNarrows(w, View(), Protocol.RenewMount(m, row.expires));
      r := Success(());
    }
  }
}
