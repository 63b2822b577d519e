/** The site-wide lock of cpp/mysql_proxy.cpp:240-273: a row per locked subdomain in a table with
    a unique key (db/schema.sql:13-17). A lock call inserts the row; if that fails it deletes
    every row older than a minute, of whatever subdomain. */
module SiteLock {

  const LEASE := 60

  datatype Op =
    | Lock(subdomain: string, insertFails: bool, purges: bool)
    | Unlock(subdomain: string, deletes: bool)

  /** A call and the database's clock, in seconds, when it ran. The flags are failures other than
      the unique key's: an INSERT or a DELETE that throws. */
  datatype Event = Event(op: Op, now: int)

  /** created_at per locked subdomain. */
  type Locks = map<string, int>

  predicate Succeeds(locks: Locks, e: Event) {
    e.op.Lock? && e.op.subdomain !in locks && !e.op.insertFails
  }

  function Purged(locks: Locks, now: int): Locks {
    map s | s in locks && locks[s] >= now - LEASE :: locks[s]
  }

  function Next(locks: Locks, e: Event): Locks {
    match e.op
    case Lock(subdomain, _, purges) =>
      if Succeeds(locks, e) then locks[subdomain := e.now]
      else if purges then Purged(locks, e.now) else locks
    case Unlock(subdomain, deletes) => if deletes then locks - {subdomain} else locks
  }

  function LocksAt(run: seq<Event>, i: nat): Locks
    requires i <= |run|
  {
    if i == 0 then map[] else Next(LocksAt(run, i - 1), run[i - 1])
  }

  predicate Monotone(run: seq<Event>) {
    forall i, j :: 0 <= i < j < |run| ==> run[i].now <= run[j].now
  }

  predicate Acquires(run: seq<Event>, i: nat, subdomain: string) {
    i < |run| && run[i].op.Lock? && run[i].op.subdomain == subdomain && Succeeds(LocksAt(run, i), run[i])
  }

  /** No unlock of the subdomain takes effect; one whose DELETE fails changes nothing. */
  predicate NoUnlockBetween(run: seq<Event>, i: nat, j: nat, subdomain: string)
    requires j <= |run|
  {
    forall k :: i < k < j ==> run[k].op != Unlock(subdomain, true)
  }

  /** Until a minute has passed, the row of a successful lock is still there. */
  lemma {:induction false} RowStays(run: seq<Event>, i: nat, j: nat, subdomain: string)
    requires Monotone(run) && i < j <= |run|
    requires Acquires(run, i, subdomain) && NoUnlockBetween(run, i, j, subdomain)
    requires run[j - 1].now <= run[i].now + LEASE
    ensures subdomain in LocksAt(run, j) && LocksAt(run, j)[subdomain] == run[i].now
    decreases j
  {
    if j > i + 1 {
      RowStays(run, i, j - 1, subdomain);
    }
  }

  /** Two successful locks of one subdomain with no unlock of it in between are more than sixty
      seconds apart, whatever other calls purge. */
  lemma LeaseHolds(run: seq<Event>, i: nat, j: nat, subdomain: string)
    requires Monotone(run) && i < j < |run|
    requires Acquires(run, i, subdomain) && Acquires(run, j, subdomain)
    requires NoUnlockBetween(run, i, j, subdomain)
    ensures run[j].now > run[i].now + 60
  {
    if run[j].now <= run[i].now + LEASE {
      RowStays(run, i, j, subdomain);
    }
  }

  /** A row that is gone stays away until someone acquires the lock. */
  lemma {:induction false} RowStaysAway(run: seq<Event>, j: nat, k: nat, subdomain: string)
    requires j <= k <= |run| && subdomain !in LocksAt(run, j)
    requires forall m :: j <= m < k ==> !Acquires(run, m, subdomain)
    ensures subdomain !in LocksAt(run, k)
    decreases k
  {
    if j < k {
      RowStaysAway(run, j, k - 1, subdomain);
      assert !Acquires(run, k - 1, subdomain);
    }
  }

  /** The lease does end: a lock call that comes later than a minute after the row was made is
      refused but, if its purge works, clears the way. The next lock call of that subdomain whose
      INSERT does not fail gets the lock, whatever else happens in between. */
  lemma StaleLockIsStolen(run: seq<Event>, j: nat, k: nat, subdomain: string)
    requires j < k < |run| && subdomain in LocksAt(run, j)
    requires LocksAt(run, j)[subdomain] + 60 < run[j].now
    requires run[j].op.Lock? && run[j].op.subdomain == subdomain && run[j].op.purges
    requires run[k].op.Lock? && run[k].op.subdomain == subdomain && !run[k].op.insertFails
    requires forall m :: j < m < k ==> run[m].op.Lock? && run[m].op.subdomain == subdomain ==> run[m].op.insertFails
    ensures !Acquires(run, j, subdomain) && Acquires(run, k, subdomain)
    ensures LocksAt(run, k + 1)[subdomain] == run[k].now
  {
    assert LocksAt(run, j + 1) == Purged(LocksAt(run, j), run[j].now);
    forall m | j + 1 <= m < k ensures !Acquires(run, m, subdomain) {
    }
    RowStaysAway(run, j + 1, k, subdomain);
  }

  /** The first working lock call of a subdomain gets the lock. */
  lemma FirstLockAcquires(run: seq<Event>, k: nat, subdomain: string)
    requires k < |run| && run[k].op.Lock? && run[k].op.subdomain == subdomain && !run[k].op.insertFails
    requires forall m :: 0 <= m < k ==> run[m].op.Lock? && run[m].op.subdomain == subdomain ==> run[m].op.insertFails
    ensures Acquires(run, k, subdomain) && LocksAt(run, k + 1)[subdomain] == run[k].now
  {
    forall m | 0 <= m < k ensures !Acquires(run, m, subdomain) {
    }
    RowStaysAway(run, 0, k, subdomain);
  }

  /** So does the first one after an unlock that took effect, however recent the lock was. */
  lemma UnlockFrees(run: seq<Event>, j: nat, k: nat, subdomain: string)
    requires j < k < |run| && run[j].op == Unlock(subdomain, true)
    requires run[k].op.Lock? && run[k].op.subdomain == subdomain && !run[k].op.insertFails
    requires forall m :: j < m < k ==> run[m].op.Lock? && run[m].op.subdomain == subdomain ==> run[m].op.insertFails
    ensures Acquires(run, k, subdomain) && LocksAt(run, k + 1)[subdomain] == run[k].now
  {
    forall m | j + 1 <= m < k ensures !Acquires(run, m, subdomain) {
    }
    RowStaysAway(run, j + 1, k, subdomain);
  }

  class LockTable {
    var locks: Locks

    constructor ()
      ensures locks == map[]
    {
      locks := map[];
    }

    method Lock(subdomain: string, now: int, insertFails: bool, purges: bool) returns (gotLock: int)
      modifies this
      ensures locks == Next(old(locks), Event(Op.Lock(subdomain, insertFails, purges), now))
      ensures gotLock == if Succeeds(old(locks), Event(Op.Lock(subdomain, insertFails, purges), now)) then 1 else 0
    {
      gotLock := 0;
      if subdomain !in locks && !insertFails {
        locks := locks[subdomain := now];
        gotLock := 1;
      } else if purges {
        locks := map s | s in locks && !(locks[s] < now - LEASE) :: locks[s];
      }
    }

    method Unlock(subdomain: string, ghost now: int, deletes: bool) returns (ok: int)
      modifies this
      ensures locks == Next(old(locks), Event(Op.Unlock(subdomain, deletes), now))
      ensures ok == if deletes then 1 else 0
    {
      if !deletes {
        return 0;
      }
      locks := locks - {subdomain};
      return 1;
    }
  }
}
