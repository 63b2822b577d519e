/** Site::fetch_query (cpp/site.cpp:164-171): query results memoised in an LRU cache of 384
    entries. Building a Query depends on the key alone, since a site's document does not change
    after loading; it may throw. */
module SiteQueries {
  import opened Wrappers
  import opened LruCache
  import opened RecencyList

  const CACHE_SIZE: nat := 384

  /** A context pointer (0 for null) and a query string. */
  datatype LruKey = LruKey(p: nat, s: string)

  function One<Q>(q: Q): nat {
    1
  }

  // ---------- One call, and histories of calls, on the cached pairs ----------

  /** The answer of one call and the pairs cached after it. */
  function Serve<Q, E>(build: LruKey -> Result<Q, E>, c: seq<(LruKey, Q)>, key: LruKey)
    : (Result<Q, E>, seq<(LruKey, Q)>)
  {
    match Find(c, key)
    case Some(q) => (Ok(q), c)
    case None =>
      match build(key)
      case Ok(q) => (Ok(q), Inserted(One<Q>, CACHE_SIZE, c, key, q))
      case Err(e) => (Err(e), c)
  }

  /** The pairs cached after a history of calls. */
  function CacheAfter<Q, E>(build: LruKey -> Result<Q, E>, keys: seq<LruKey>): seq<(LruKey, Q)> {
    if keys == [] then []
    else Serve(build, CacheAfter(build, keys[..|keys| - 1]), keys[|keys| - 1]).1
  }

  /** The keys of a history that were not cached when asked for, and could be built. */
  function Misses<Q, E>(build: LruKey -> Result<Q, E>, keys: seq<LruKey>): seq<LruKey> {
    if keys == [] then []
    else
      var before, key := keys[..|keys| - 1], keys[|keys| - 1];
      Misses(build, before)
      + if Find(CacheAfter(build, before), key).None? && build(key).Ok? then [key] else []
  }

  /** The last n of a list, latest first. */
  function Latest<T>(n: nat, s: seq<T>): seq<T> {
    seq(if |s| < n then |s| else n, i requires 0 <= i < |s| => s[|s| - 1 - i])
  }

  function Keys<K, V>(c: seq<(K, V)>): seq<K> {
    seq(|c|, i requires 0 <= i < |c| => c[i].0)
  }

  lemma {:induction false} UnitTotal<Q>(c: seq<(LruKey, Q)>)
    ensures Total(One<Q>, c) == |c|
  {
    if c != [] {
      UnitTotal(c[1..]);
    }
  }

  /** With unit sizes eviction keeps the first max pairs. */
  lemma {:induction false} UnitFit<Q>(max: nat, c: seq<(LruKey, Q)>)
    ensures Fit(One<Q>, max, c) == if |c| <= max then c else c[..max]
  {
    UnitTotal(c);
    if |c| > max {
      UnitFit(max, c[..|c| - 1]);
    }
  }

  lemma {:induction false} FindNone<Q>(c: seq<(LruKey, Q)>, key: LruKey)
    requires Find(c, key).None?
    ensures forall i :: 0 <= i < |c| ==> c[i].0 != key
    ensures Without(c, key) == c
  {
    if c != [] {
      FindNone(c[1..], key);
    }
  }

  lemma {:induction false} FindSome<Q>(c: seq<(LruKey, Q)>, key: LruKey)
    requires Find(c, key).Some?
    ensures exists i :: 0 <= i < |c| && c[i] == (key, Find(c, key).value)
  {
    if c[0].0 == key {
      assert c[0] == (key, Find(c, key).value);
    } else {
      FindSome(c[1..], key);
      var i :| 0 <= i < |c[1..]| && c[1..][i] == (key, Find(c[1..], key).value);
      assert c[i + 1] == (key, Find(c, key).value);
    }
  }

  ghost predicate AllBuilt<Q(!new), E(!new)>(build: LruKey -> Result<Q, E>, c: seq<(LruKey, Q)>) {
    forall i :: 0 <= i < |c| ==> build(c[i].0) == Ok(c[i].1)
  }

  lemma ServeStep<Q(!new), E(!new)>(build: LruKey -> Result<Q, E>, c: seq<(LruKey, Q)>, key: LruKey)
    requires AllBuilt(build, c)
    ensures Serve(build, c, key).0 == build(key)
    ensures AllBuilt(build, Serve(build, c, key).1)
    ensures Find(c, key).None? && build(key).Ok? ==>
              Serve(build, c, key).1 ==
                (var all := [(key, build(key).value)] + c; if |all| <= CACHE_SIZE then all else all[..CACHE_SIZE])
  {
    match Find(c, key)
    case Some(q) =>
      FindSome(c, key);
    case None =>
      FindNone(c, key);
      if build(key).Ok? {
        UnitFit(CACHE_SIZE, [(key, build(key).value)] + c);
      }
  }

  /** A new pair in front of the latest misses, cut to size, is the latest misses again. */
  lemma LatestGrows<Q>(c: seq<(LruKey, Q)>, misses: seq<LruKey>, pair: (LruKey, Q), n: nat)
    requires Keys(c) == Latest(n, misses)
    ensures Keys(if |c| < n then [pair] + c else ([pair] + c)[..n]) == Latest(n, misses + [pair.0])
  {
    var grown := if |c| < n then [pair] + c else ([pair] + c)[..n];
    var more := misses + [pair.0];
    assert |c| == |Latest(n, misses)|;
    forall i | 0 <= i < |grown| ensures grown[i].0 == Latest(n, more)[i] {
      if i > 0 {
        assert grown[i].0 == Keys(c)[i - 1] == Latest(n, misses)[i - 1];
      }
    }
  }

  /** For every history: a call answers what building afresh would, and the cache holds exactly
      the last 384 misses in the order they were inserted, however often they were hit. */
  lemma {:induction false} FetchIsTransparent<Q(!new), E(!new)>(build: LruKey -> Result<Q, E>, keys: seq<LruKey>,
                                                                 key: LruKey)
    ensures AllBuilt(build, CacheAfter(build, keys))
    ensures Serve(build, CacheAfter(build, keys), key).0 == build(key)
    ensures Keys(CacheAfter(build, keys)) == Latest(CACHE_SIZE, Misses(build, keys))
  {
    if keys != [] {
      var before, last := keys[..|keys| - 1], keys[|keys| - 1];
      FetchIsTransparent(build, before, last);
      ServeStep(build, CacheAfter(build, before), last);
      if Find(CacheAfter(build, before), last).None? && build(last).Ok? {
        LatestGrows(CacheAfter(build, before), Misses(build, before), (last, build(last).value), CACHE_SIZE);
      }
    }
    ServeStep(build, CacheAfter(build, keys), key);
  }

  // ---------- Calls of many threads ----------

  type Thread = nat

  /** Where a thread is in fetch_query: outside, about to build or to insert after a miss, or about
      to return. The cache's own mutex makes each of its operations one step. */
  datatype Place<Q, E> =
    | Outside
    | Building(key: LruKey)
    | Inserting(key: LruKey, query: Q)
    | Answering(key: LruKey, answer: Result<Q, E>)

  datatype Threads<Q, E> = Threads(cached: seq<(LruKey, Q)>, places: map<Thread, Place<Q, E>>) {
    function At(t: Thread): Place<Q, E> {
      if t in places then places[t] else Outside
    }
  }

  /** The next step of a thread, which asks for this key if it is outside. */
  function Proceed<Q, E>(build: LruKey -> Result<Q, E>, s: Threads<Q, E>, t: Thread, key: LruKey): Threads<Q, E> {
    match s.At(t)
    case Outside =>
      var p := if Find(s.cached, key).Some? then Answering(key, Ok(Find(s.cached, key).value)) else Building(key);
      s.(places := s.places[t := p])
    case Building(k) =>
      var p := if build(k).Ok? then Inserting(k, build(k).value) else Answering(k, build(k));
      s.(places := s.places[t := p])
    case Inserting(k, q) =>
      Threads(Inserted(One<Q>, CACHE_SIZE, s.cached, k, q), s.places[t := Answering(k, Ok(q))])
    case Answering(_, _) => s.(places := s.places[t := Outside])
  }

  /** The state after these threads' steps, in this order. */
  function Interleaved<Q, E>(build: LruKey -> Result<Q, E>, steps: seq<(Thread, LruKey)>): Threads<Q, E> {
    if steps == [] then Threads([], map[])
    else
      var last := steps[|steps| - 1];
      Proceed(build, Interleaved(build, steps[..|steps| - 1]), last.0, last.1)
  }

  ghost predicate PlaceIsBuilt<Q(!new), E(!new)>(build: LruKey -> Result<Q, E>, p: Place<Q, E>) {
    match p
    case Inserting(key, q) => build(key) == Ok(q)
    case Answering(key, answer) => answer == build(key)
    case _ => true
  }

  ghost predicate CacheIsGood<Q(!new), E(!new)>(build: LruKey -> Result<Q, E>, c: seq<(LruKey, Q)>) {
    AllBuilt(build, c) && DistinctKeys(c) && |c| <= CACHE_SIZE
  }

  lemma InsertKeepsGood<Q(!new), E(!new)>(build: LruKey -> Result<Q, E>, c: seq<(LruKey, Q)>, key: LruKey, q: Q)
    requires CacheIsGood(build, c) && build(key) == Ok(q)
    ensures CacheIsGood(build, Inserted(One<Q>, CACHE_SIZE, c, key, q))
  {
    var rest := Without(c, key);
    if Find(c, key).None? {
      FindNone(c, key);
    } else {
      FindSome(c, key);
      var i :| 0 <= i < |c| && c[i] == (key, Find(c, key).value);
      WithoutAt(c, i);
      assert forall j :: 0 <= j < |rest| ==> rest[j] == c[if j < i then j else j + 1];
    }
    var all := [(key, q)] + rest;
    assert AllBuilt(build, all) && DistinctKeys(all);
    UnitFit(CACHE_SIZE, all);
  }

  /** In every interleaving a call answers what building afresh would, also when several threads
      miss the same key at once; the cache holds at most 384 built queries, one per key. */
  lemma {:induction false} InterleavedFetchIsTransparent<Q(!new), E(!new)>(build: LruKey -> Result<Q, E>,
                                                                            steps: seq<(Thread, LruKey)>)
    ensures CacheIsGood(build, Interleaved(build, steps).cached)
    ensures forall t :: PlaceIsBuilt(build, Interleaved(build, steps).At(t))
  {
    if steps != [] {
      var before, last := steps[..|steps| - 1], steps[|steps| - 1];
      InterleavedFetchIsTransparent(build, before);
      ProceedKeepsBuilt(build, Interleaved(build, before), last.0, last.1);
    }
  }

  lemma ProceedKeepsBuilt<Q(!new), E(!new)>(build: LruKey -> Result<Q, E>, s: Threads<Q, E>, t: Thread, key: LruKey)
    requires CacheIsGood(build, s.cached) && forall u :: PlaceIsBuilt(build, s.At(u))
    ensures CacheIsGood(build, Proceed(build, s, t, key).cached)
    ensures forall u :: PlaceIsBuilt(build, Proceed(build, s, t, key).At(u))
  {
    var s' := Proceed(build, s, t, key);
    var p := s.At(t);
    assert PlaceIsBuilt(build, p);
    if p.Inserting? {
      InsertKeepsGood(build, s.cached, p.key, p.query);
    } else if p.Outside? && Find(s.cached, key).Some? {
      FindSome(s.cached, key);
    }
    forall u ensures PlaceIsBuilt(build, s'.At(u)) {
      assert PlaceIsBuilt(build, s.At(u));
    }
  }

  // ---------- The code ----------

  class Site<Q(!new), E(!new)> {
    const build: LruKey -> Result<Q, E>
    const queryCache: Cache<LruKey, Q>

    ghost predicate Valid()
      reads this, queryCache.Repr(), queryCache
    {
      && queryCache.Valid()
      && queryCache.maxSize == CACHE_SIZE
      && queryCache.sizeOf == One<Q>
    }

    constructor (build: LruKey -> Result<Q, E>)
      ensures Valid() && this.build == build && queryCache.Contents() == [] && queryCache.maxSize == 384
      ensures fresh(queryCache.Repr())
    {
      this.build := build;
      queryCache := new Cache(CACHE_SIZE, One<Q>);
    }

    method FetchQuery(key: LruKey) returns (r: Result<Q, E>)
      requires Valid()
      modifies queryCache.Repr()
      ensures Valid() && fresh(queryCache.Repr() - old(queryCache.Repr()))
      ensures (r, queryCache.Contents()) == Serve(build, old(queryCache.Contents()), key)
    {
      var cached := queryCache.Fetch(key, false);
      if cached.Some? {
        return Ok(cached.value);
      }
      r := build(key);
      if r.Err? {
        return;
      }
      queryCache.Insert(key, r.value);
    }
  }
}
