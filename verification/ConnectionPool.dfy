/** The connection pools of cpp/mysql_proxy.cpp:57-81 and cpp/memcache_proxy.cpp:30-54: a map of
    connections guarded by a mutex, a counter of free ones and a condition variable.

    Every stretch of code between taking the mutex and releasing it (by returning or by waiting)
    is one step; any thread may take the next step, and a waiting thread may wake for no reason. */
module ConnectionPool {
  import opened Wrappers

  type Thread = nat
  type Connection = nat

  datatype Status = Free | InUse

  /** One entry of connPool; entries are listed in the map's iteration order. */
  datatype Entry = Entry(con: Connection, status: Status)

  /** Where a thread is: elsewhere, blocked in cond.wait, woken but not yet back in its critical
      section, or the holder of a connection. */
  datatype Place = Outside | Waiting | Woken | Holding(con: Connection)

  /** thrown records that the "Should never get here" exception was raised. */
  datatype State = State(pool: seq<Entry>, available: int, threads: map<Thread, Place>, thrown: bool) {
    function At(t: Thread): Place {
      if t in threads then threads[t] else Outside
    }

    function Move(t: Thread, p: Place): State {
      this.(threads := threads[t := p])
    }
  }

  // ---------- Steps ----------

  function FreeCount(pool: seq<Entry>): nat {
    if pool == [] then 0 else (if pool[0].status.Free? then 1 else 0) + FreeCount(pool[1..])
  }

  predicate FirstFree(pool: seq<Entry>, i: int) {
    0 <= i < |pool| && pool[i].status.Free? && forall j :: 0 <= j < i ==> pool[j].status.InUse?
  }

  /** The critical section of getConnection, on first entry or after a wakeup. */
  ghost predicate Get(s: State, t: Thread, s': State) {
    && (s.At(t).Outside? || s.At(t).Woken?)
    && (if s.available == 0 then s' == s.Move(t, Waiting)
        else if exists i :: FirstFree(s.pool, i) then
          exists i :: FirstFree(s.pool, i) && s' == Taken(s, t, i)
        else s' == s.(thrown := true))
  }

  function Taken(s: State, t: Thread, i: int): State
    requires 0 <= i < |s.pool|
  {
    var con := s.pool[i].con;
    s.(pool := s.pool[i := Entry(con, InUse)], available := s.available - 1).Move(t, Holding(con))
  }

  /** The entries after freeConnection's loop. */
  function Freed(pool: seq<Entry>, con: Connection): seq<Entry> {
    if pool == [] then []
    else [if pool[0].con == con then Entry(con, Free) else pool[0]] + Freed(pool[1..], con)
  }

  /** How often that loop counts up. */
  function Matches(pool: seq<Entry>, con: Connection): nat {
    if pool == [] then 0 else (if pool[0].con == con then 1 else 0) + Matches(pool[1..], con)
  }

  /** freeConnection: notify_one wakes one waiting thread if there is any. */
  ghost predicate Put(s: State, t: Thread, woken: Option<Thread>, s': State) {
    && s.At(t).Holding?
    && var con := s.At(t).con;
    var r := s.(pool := Freed(s.pool, con), available := s.available + Matches(s.pool, con)).Move(t, Outside);
    match woken
    case None => (forall u :: !s.At(u).Waiting?) && s' == r
    case Some(u) => s.At(u).Waiting? && s' == r.Move(u, Woken)
  }

  ghost predicate SpuriousWakeup(s: State, t: Thread, s': State) {
    s.At(t).Waiting? && s' == s.Move(t, Woken)
  }

  ghost predicate Step(s: State, s': State) {
    || (exists t :: Get(s, t, s'))
    || (exists t, woken :: Put(s, t, woken, s'))
    || (exists t :: SpuriousWakeup(s, t, s'))
  }

  ghost predicate Initial(s: State) {
    && Distinct(s.pool)
    && (forall i :: 0 <= i < |s.pool| ==> s.pool[i].status.Free?)
    && s.available == |s.pool|
    && s.threads == map[]
    && !s.thrown
  }

  ghost predicate Distinct(pool: seq<Entry>) {
    forall i, j :: 0 <= i < j < |pool| ==> pool[i].con != pool[j].con
  }

  ghost predicate Run(trace: seq<State>) {
    && |trace| > 0
    && Initial(trace[0])
    && forall i :: 0 <= i < |trace| - 1 ==> Step(trace[i], trace[i + 1])
  }

  // ---------- The invariant ----------

  ghost function WokenThreads(s: State): set<Thread> {
    set t | t in s.threads && s.threads[t].Woken?
  }

  /** Connections in use and their borrowers are in one-to-one correspondence. */
  ghost predicate Borrowed(s: State) {
    && (forall t :: s.At(t).Holding? ==> Entry(s.At(t).con, InUse) in s.pool)
    && (forall t, u :: s.At(t).Holding? && s.At(u).Holding? && t != u ==> s.At(t).con != s.At(u).con)
    && (forall i :: 0 <= i < |s.pool| && s.pool[i].status.InUse? ==> exists t :: s.At(t) == Holding(s.pool[i].con))
  }

  ghost predicate Invariant(s: State) {
    && !s.thrown
    && Distinct(s.pool)
    && s.available == FreeCount(s.pool)
    && Borrowed(s)
    && (forall t :: s.At(t).Waiting? ==> FreeCount(s.pool) <= |WokenThreads(s)|)
  }

  lemma {:induction false} AllFree(pool: seq<Entry>)
    ensures (forall i :: 0 <= i < |pool| ==> pool[i].status.Free?) <==> FreeCount(pool) == |pool|
    ensures (forall i :: 0 <= i < |pool| ==> pool[i].status.InUse?) <==> FreeCount(pool) == 0
    ensures FreeCount(pool) <= |pool|
  {
    if pool != [] {
      AllFree(pool[1..]);
      assert forall i :: 1 <= i < |pool| ==> pool[i] == pool[1..][i - 1];
    }
  }

  lemma {:induction false} FreeCountUpdate(pool: seq<Entry>, i: nat, status: Status)
    requires i < |pool| && pool[i].status != status
    ensures FreeCount(pool[i := Entry(pool[i].con, status)]) == FreeCount(pool) + if status.Free? then 1 else -1
  {
    var e := Entry(pool[i].con, status);
    if i == 0 {
      assert pool[0 := e][1..] == pool[1..];
    } else {
      FreeCountUpdate(pool[1..], i - 1, status);
      assert pool[i := e][1..] == pool[1..][i - 1 := e];
    }
  }

  lemma {:induction false} SomeFirstFree(pool: seq<Entry>)
    requires FreeCount(pool) > 0
    ensures exists i :: FirstFree(pool, i)
  {
    if pool[0].status.Free? {
      assert FirstFree(pool, 0);
    } else {
      SomeFirstFree(pool[1..]);
      var i :| FirstFree(pool[1..], i);
      assert forall j :: 0 <= j < i + 1 ==> pool[j].status.InUse? by {
        forall j | 0 < j < i + 1 ensures pool[j].status.InUse? {
          assert pool[j] == pool[1..][j - 1];
        }
      }
      assert FirstFree(pool, i + 1);
    }
  }

  lemma {:induction false} FreedAbsent(pool: seq<Entry>, con: Connection)
    requires forall i :: 0 <= i < |pool| ==> pool[i].con != con
    ensures Freed(pool, con) == pool && Matches(pool, con) == 0
  {
    if pool != [] {
      FreedAbsent(pool[1..], con);
      assert pool == [pool[0]] + pool[1..];
    }
  }

  /** With distinct connections freeing changes one entry and counts once. */
  lemma {:induction false} FreedAt(pool: seq<Entry>, i: nat)
    requires i < |pool| && Distinct(pool)
    ensures Freed(pool, pool[i].con) == pool[i := Entry(pool[i].con, Free)] && Matches(pool, pool[i].con) == 1
  {
    if i == 0 {
      FreedAbsent(pool[1..], pool[0].con);
      assert pool[0 := Entry(pool[0].con, Free)] == [Entry(pool[0].con, Free)] + pool[1..];
    } else {
      FreedAt(pool[1..], i - 1);
      assert pool[i := Entry(pool[i].con, Free)] == [pool[0]] + pool[1..][i - 1 := Entry(pool[i].con, Free)];
    }
  }

  lemma WokenMoves(s: State, t: Thread, p: Place)
    ensures WokenThreads(s.Move(t, p)) == if p.Woken? then WokenThreads(s) + {t} else WokenThreads(s) - {t}
    ensures forall u :: s.Move(t, p).At(u) == if u == t then p else s.At(u)
  {
  }

  /** Taking a connection uses up at most one wakeup. */
  lemma TakenWakes(s: State, t: Thread, i: nat)
    requires FirstFree(s.pool, i) && !s.At(t).Waiting?
    requires forall u :: s.At(u).Waiting? ==> FreeCount(s.pool) <= |WokenThreads(s)|
    ensures forall u :: Taken(s, t, i).At(u).Waiting? ==>
              FreeCount(Taken(s, t, i).pool) <= |WokenThreads(Taken(s, t, i))|
  {
    var s' := Taken(s, t, i);
    var r := s.(pool := s'.pool, available := s'.available);
    FreeCountUpdate(s.pool, i, InUse);
    assert WokenThreads(r) == WokenThreads(s);
    assert forall u :: r.At(u) == s.At(u);
    WokenMoves(r, t, Holding(s.pool[i].con));
    assert WokenThreads(s') == WokenThreads(s) - {t};
  }

  lemma GetPreserves(s: State, t: Thread, s': State)
    requires Invariant(s) && Get(s, t, s')
    ensures Invariant(s')
  {
    if s.available == 0 {
      WokenMoves(s, t, Waiting);
    } else {
      SomeFirstFree(s.pool);
      var i :| FirstFree(s.pool, i) && s' == Taken(s, t, i);
      FreeCountUpdate(s.pool, i, InUse);
      TakenWakes(s, t, i);
      TakenIsBorrowed(s, t, i);
    }
  }

  lemma TakenIsBorrowed(s: State, t: Thread, i: nat)
    requires Distinct(s.pool) && Borrowed(s) && !s.At(t).Holding?
    requires FirstFree(s.pool, i)
    ensures Borrowed(Taken(s, t, i))
  {
    var s', con := Taken(s, t, i), s.pool[i].con;
    assert s'.pool[i] == Entry(con, InUse);
    forall u | s.At(u).Holding? ensures Entry(s.At(u).con, InUse) in s'.pool && s.At(u).con != con {
      var j :| 0 <= j < |s.pool| && s.pool[j] == Entry(s.At(u).con, InUse);
      assert s'.pool[j] == s.pool[j];
    }
    forall u ensures s'.At(u) == if u == t then Holding(con) else s.At(u) {
    }
    forall j | 0 <= j < |s'.pool| && s'.pool[j].status.InUse? ensures exists u :: s'.At(u) == Holding(s'.pool[j].con) {
      if j != i {
        var u :| s.At(u) == Holding(s.pool[j].con);
        assert s'.At(u) == s.At(u);
      } else {
        assert s'.At(t) == Holding(con);
      }
    }
  }

  lemma PutIsBorrowed(s: State, t: Thread, i: nat, s': State)
    requires Distinct(s.pool) && Borrowed(s) && i < |s.pool| && s.At(t) == Holding(s.pool[i].con)
    requires s'.pool == s.pool[i := Entry(s.pool[i].con, Free)]
    requires forall u, c :: s'.At(u) == Holding(c) <==> u != t && s.At(u) == Holding(c)
    ensures Borrowed(s')
  {
    forall u | s'.At(u).Holding? ensures Entry(s'.At(u).con, InUse) in s'.pool {
      assert s'.At(u) == Holding(s'.At(u).con);
      var j :| 0 <= j < |s.pool| && s.pool[j] == Entry(s.At(u).con, InUse);
      assert s'.pool[j] == s.pool[j];
    }
    forall j | 0 <= j < |s'.pool| && s'.pool[j].status.InUse? ensures exists u :: s'.At(u) == Holding(s'.pool[j].con) {
      var u :| s.At(u) == Holding(s.pool[j].con);
      assert s'.At(u) == Holding(s.pool[j].con);
    }
  }

  /** One more free connection is matched by one more woken thread, if any thread waits. */
  lemma PutWakes(s: State, t: Thread, woken: Option<Thread>, s': State)
    requires Invariant(s) && Put(s, t, woken, s')
    requires FreeCount(s'.pool) == FreeCount(s.pool) + 1
    ensures forall u :: s'.At(u).Waiting? ==> FreeCount(s'.pool) <= |WokenThreads(s')|
    ensures forall u, c :: s'.At(u) == Holding(c) <==> u != t && s.At(u) == Holding(c)
  {
    var r := s.(pool := s'.pool, available := s'.available);
    assert WokenThreads(r) == WokenThreads(s) && t !in WokenThreads(s);
    assert forall u :: r.At(u) == s.At(u);
    WokenMoves(r, t, Outside);
    if woken.Some? {
      WokenMoves(r.Move(t, Outside), woken.value, Woken);
      assert WokenThreads(s') == WokenThreads(s) + {woken.value};
    }
  }

  lemma PutPreserves(s: State, t: Thread, woken: Option<Thread>, s': State)
    requires Invariant(s) && Put(s, t, woken, s')
    ensures Invariant(s')
  {
    var con := s.At(t).con;
    var i :| 0 <= i < |s.pool| && s.pool[i] == Entry(con, InUse);
    FreedAt(s.pool, i);
    FreeCountUpdate(s.pool, i, Free);
    PutWakes(s, t, woken, s');
    PutIsBorrowed(s, t, i, s');
  }

  lemma StepPreserves(s: State, s': State)
    requires Invariant(s) && Step(s, s')
    ensures Invariant(s')
  {
    if t :| Get(s, t, s') {
      GetPreserves(s, t, s');
    } else if t, woken :| Put(s, t, woken, s') {
      PutPreserves(s, t, woken, s');
    } else {
      var t :| SpuriousWakeup(s, t, s');
      WokenMoves(s, t, Woken);
      assert t !in WokenThreads(s);
    }
  }

  /** In every state of every run: the counter counts the free entries, each connection in use
      has exactly one borrower, the exception has not been thrown, and while a thread waits
      there are no more free connections than threads already woken. */
  lemma {:induction false} InvariantHolds(trace: seq<State>, i: nat)
    requires Run(trace) && i < |trace|
    ensures Invariant(trace[i])
  {
    if i == 0 {
      AllFree(trace[0].pool);
    } else {
      InvariantHolds(trace, i - 1);
      StepPreserves(trace[i - 1], trace[i]);
    }
  }

  /** No wakeup is lost: when a thread waits in a pool that has connections, some thread is
      already woken or some borrower is still to return one. */
  lemma WaitersAreServed(trace: seq<State>, i: nat, t: Thread)
    requires Run(trace) && i < |trace| && trace[i].pool != []
    requires trace[i].At(t).Waiting?
    ensures exists u :: trace[i].At(u).Woken? || trace[i].At(u).Holding?
  {
    var s := trace[i];
    InvariantHolds(trace, i);
    if WokenThreads(s) == {} {
      AllFree(s.pool);
      assert s.pool[0].status.InUse?;
      var u :| s.At(u) == Holding(s.pool[0].con);
    } else {
      var u :| u in WokenThreads(s);
      assert s.At(u).Woken?;
    }
  }

  // ---------- The code ----------

  /** A connection that is made next is not in the pool yet. */
  lemma NotYetIn(created: seq<Option<Connection>>, i: nat, pool: seq<Entry>)
    requires i < |created| && created[i].Some?
    requires forall j, k :: 0 <= j < k < |created| && created[j].Some? ==> created[j] != created[k]
    requires forall c: Connection :: Entry(c, Free) in pool <==> Some(c) in created[..i]
    ensures Entry(created[i].value, Free) !in pool
  {
    forall k | 0 <= k < i ensures created[..i][k] != created[i] {
      assert created[..i][k] == created[k];
    }
  }

  /** A proxy's pool. The two critical sections are methods; the waiting and the threads are the
      ghost state that the steps above describe. */
  class Pool {
    var connPool: seq<Entry>
    var availableConnections: int
    ghost var threads: map<Thread, Place>

    ghost function Abs(): State
      reads this
    {
      State(connPool, availableConnections, threads, false)
    }

    ghost predicate Valid()
      reads this
    {
      Invariant(Abs())
    }

    /** What createConnection gave: NULL where connecting failed, otherwise a new connection. */
    constructor (created: seq<Option<Connection>>)
      requires forall i, j :: 0 <= i < j < |created| && created[i].Some? ==> created[i] != created[j]
      ensures Initial(Abs()) && Valid()
      ensures forall c: Connection :: Entry(c, Free) in connPool <==> Some(c) in created
    {
      connPool, availableConnections, threads := [], 0, map[];
      new;
      for i := 0 to |created|
        invariant forall c: Connection :: Entry(c, Free) in connPool <==> Some(c) in created[..i]
        invariant forall k :: 0 <= k < |connPool| ==> connPool[k].status.Free?
        invariant Distinct(connPool) && availableConnections == |connPool| && threads == map[]
      {
        assert created[..i + 1] == created[..i] + [created[i]];
        if created[i].Some? {
          var entry := Entry(created[i].value, Free);
          NotYetIn(created, i, connPool);
          assert forall k :: 0 <= k < |connPool| ==> connPool[k] == Entry(connPool[k].con, Free);
          connPool := connPool + [entry];
          availableConnections := availableConnections + 1;
        }
      }
      assert created[..|created|] == created;
      AllFree(connPool);
    }

    /** getConnection from taking the mutex to giving it up: None means it has gone to wait. The
        exception behind the loop is unreachable. */
    method GetConnection(ghost t: Thread) returns (con: Option<Connection>)
      requires Valid() && (Abs().At(t).Outside? || Abs().At(t).Woken?)
      modifies this
      ensures Valid() && Get(old(Abs()), t, Abs())
      ensures con.Some? <==> old(availableConnections) != 0
      ensures Abs().At(t) == if con.Some? then Holding(con.value) else Waiting
    {
      ghost var before := Abs();
      if availableConnections == 0 {
        threads := threads[t := Waiting];
        GetPreserves(before, t, Abs());
        return None;
      }
      SomeFirstFree(connPool);
      var i := 0;
      while i < |connPool|
        invariant 0 <= i <= |connPool| && Abs() == before
        invariant forall j :: 0 <= j < i ==> connPool[j].status.InUse?
      {
        if connPool[i].status.Free? {
          con := Some(connPool[i].con);
          assert FirstFree(before.pool, i);
          connPool := connPool[i := Entry(connPool[i].con, InUse)];
          availableConnections := availableConnections - 1;
          threads := threads[t := Holding(con.value)];
          assert Abs() == Taken(before, t, i);
          GetPreserves(before, t, Abs());
          return con;
        }
        i := i + 1;
      }
      AllFree(connPool);
      assert false;
    }

    /** The loop of freeConnection. */
    method MarkFree(con: Connection)
      modifies this`connPool, this`availableConnections
      ensures connPool == Freed(old(connPool), con)
      ensures availableConnections == old(availableConnections) + Matches(old(connPool), con)
    {
      ghost var done: seq<Entry>, ahead := [], connPool;
      var i := 0;
      while i < |connPool|
        invariant 0 <= i <= |connPool| && connPool == done + ahead && |done| == i
        invariant done + Freed(ahead, con) == Freed(old(connPool), con)
        invariant availableConnections + Matches(ahead, con) == old(availableConnections) + Matches(old(connPool), con)
      {
        FreedStep(done, ahead, con);
        Replaced(done, ahead, Entry(con, Free));
        if connPool[i].con == con {
          connPool := connPool[i := Entry(con, Free)];
          availableConnections := availableConnections + 1;
        }
        done, ahead := done + [connPool[i]], ahead[1..];
        i := i + 1;
      }
    }

    /** freeConnection; the thread that notify_one picks, if any, is the ghost argument. */
    method FreeConnection(con: Connection, ghost t: Thread, ghost woken: Option<Thread>)
      requires Valid() && Abs().At(t) == Holding(con)
      requires if woken.Some? then Abs().At(woken.value).Waiting? else forall u :: !Abs().At(u).Waiting?
      modifies this
      ensures Valid() && Put(old(Abs()), t, woken, Abs())
    {
      ghost var before := Abs();
      MarkFree(con);
      threads := threads[t := Outside];
      if woken.Some? {
        threads := threads[woken.value := Woken];
      }
      PutPreserves(before, t, woken, Abs());
    }
  }

  /** One round of freeing, with `done` behind it and `ahead` still to come. */
  lemma FreedStep(done: seq<Entry>, ahead: seq<Entry>, con: Connection)
    requires ahead != []
    ensures var entry := if ahead[0].con == con then Entry(con, Free) else ahead[0];
            done + Freed(ahead, con) == (done + [entry]) + Freed(ahead[1..], con)
  {
  }

  lemma Replaced(done: seq<Entry>, ahead: seq<Entry>, e: Entry)
    requires ahead != []
    ensures (done + ahead)[|done|] == ahead[0]
    ensures (done + ahead)[|done| := e] == (done + [e]) + ahead[1..]
    ensures done + ahead == (done + [ahead[0]]) + ahead[1..]
  {
  }
}
