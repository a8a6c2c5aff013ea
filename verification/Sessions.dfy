/**
  Mounts, locks and the clock, as the validity views of the schema read them.
  A lock is valid only while its mount is valid and its own time-to-live holds.
 */
module Sessions {
  import opened Wrappers

  type Node = nat
  type MountId = nat
  type LockId = nat

  datatype Mount = Mount(unmounted: bool, expires: Option<nat>, writable: bool)

  datatype Lock = Lock(mount: MountId, node: Node, expires: Option<nat>)

  datatype Sessions = Sessions(mounts: map<MountId, Mount>, locks: map<LockId, Lock>, now: nat)

  predicate Unexpired(expires: Option<nat>, now: nat) {
    expires.None? || now < expires.value
  }

  predicate ValidMount(s: Sessions, m: MountId) {
    m in s.mounts && !s.mounts[m].unmounted && Unexpired(s.mounts[m].expires, s.now)
  }

  predicate ValidLock(s: Sessions, l: LockId) {
    l in s.locks && ValidMount(s, s.locks[l].mount) && Unexpired(s.locks[l].expires, s.now)
  }

  /** `check_any_lock`: some mount, possibly the caller's, holds a valid lock on the node. */
  predicate Held(s: Sessions, n: Node) {
    exists l | l in s.locks :: s.locks[l].node == n && ValidLock(s, l)
  }

  /** `check_lock_held`: a mount other than `m` holds a valid lock on the node. */
  predicate HeldByOther(s: Sessions, n: Node, m: MountId) {
    exists l | l in s.locks :: s.locks[l].node == n && s.locks[l].mount != m && ValidLock(s, l)
  }

  /** A mount lasts until it is unmounted or its time comes, and no longer. */
  lemma MountLasts(s: Sessions, m: MountId, now: nat)
    requires m in s.mounts
    ensures ValidMount(s.(now := now), m)
            <==> !s.mounts[m].unmounted && (s.mounts[m].expires == None || now < s.mounts[m].expires.value)
  {
  }

  /** A lock lasts until its own time comes or its mount ends, whichever is first. */
  lemma LockLasts(s: Sessions, l: LockId, now: nat)
    requires l in s.locks
    ensures ValidLock(s.(now := now), l)
            <==> && (s.locks[l].expires == None || now < s.locks[l].expires.value)
                 && ValidMount(s.(now := now), s.locks[l].mount)
  {
  }

  function Locked(s: Sessions, l: LockId, lock: Lock): Sessions {
    s.(locks := s.locks[l := lock])
  }

  function Released(s: Sessions, l: LockId): Sessions {
    s.(locks := s.locks - {l})
  }
}
