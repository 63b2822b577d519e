/** The site-loading protocol of cpp/vae_db_handler.cpp:21-67 and 192-239: getSite, resetSite and
    reloadSite run in any number of threads over one map of sites. The map is guarded by
    sitesMutex; loading a site is serialised by a mutex of its own, made on demand.

    Each step is one action of one thread: taking a mutex, or what it does between two such
    points. Fetching and parsing the feed, and validating a secret key, may succeed or throw. */
module SiteLoading {
  import opened Wrappers

  type Thread = nat
  type Mutex = nat
  type Counter = map<string, nat>

  function Of(c: Counter, k: string): nat {
    if k in c then c[k] else 0
  }

  function Bump(c: Counter, k: string): Counter {
    c[k := Of(c, k) + 1]
  }

  function StagingKey(subdomain: string): string {
    subdomain + ".staging"
  }

  /** What a thread loads a key for: a getSite, or a reloadSite that has more keys to load. */
  datatype Job = Get(key: string) | Reload(key: string, rest: seq<string>)

  /** The point a thread has reached. "Wait" points are about to take sitesMutex (SiteWait: the
      key's own mutex), "Held" points hold it. */
  datatype Place =
    | Idle
    | SnapshotWait(subdomain: string)
    | SnapshotHeld(subdomain: string)
    | Reading(subdomain: string, keys: seq<string>)
    | ResetWait(subdomain: string, keys: seq<string>, force: bool)
    | ResetHeld(subdomain: string, keys: seq<string>, force: bool)
    | LookupWait(job: Job)
    | LookupHeld(job: Job)
    | SiteWait(job: Job, m: Mutex)
    | CheckWait(job: Job, m: Mutex)
    | CheckHeld(job: Job, m: Mutex)
    | Loading(job: Job, m: Mutex)
    | StoreWait(job: Job, m: Mutex)
    | StoreHeld(job: Job, m: Mutex)
    | Leaving(job: Job, next: Place, m: Mutex)
  {
    predicate HoldsSites() {
      SnapshotHeld? || ResetHeld? || LookupHeld? || CheckHeld? || StoreHeld?
    }

    predicate WaitsForSites() {
      SnapshotWait? || ResetWait? || LookupWait? || CheckWait? || StoreWait?
    }

    /** Where a thread is once it has taken the sitesMutex it waits for. */
    function Entered(): Place
      requires WaitsForSites()
    {
      match this
      case SnapshotWait(sub) => SnapshotHeld(sub)
      case ResetWait(sub, keys, force) => ResetHeld(sub, keys, force)
      case LookupWait(job) => LookupHeld(job)
      case CheckWait(job, m) => CheckHeld(job, m)
      case StoreWait(job, m) => StoreHeld(job, m)
    }

    predicate HoldsSiteMutex() {
      CheckWait? || CheckHeld? || Loading? || StoreWait? || StoreHeld? || Leaving?
    }

    predicate HasMutex() {
      SiteWait? || HoldsSiteMutex()
    }

    predicate IsLoading() {
      Loading? || StoreWait? || StoreHeld?
    }
  }

  /** The sites that are live, the mutexes and their owners, the threads, and three tallies per
      key: loads completed by getSite, stores by reloadSite onto an erased key, erasures. */
  datatype State = State(sites: set<string>, siteMutexes: map<string, Mutex>, sitesOwner: Option<Thread>,
                         owners: map<Mutex, Thread>, threads: map<Thread, Place>,
                         loads: Counter, revivals: Counter, erasures: Counter)
  {
    function At(t: Thread): Place {
      if t in threads then threads[t] else Idle
    }

    function Go(t: Thread, p: Place): State {
      this.(threads := threads[t := p])
    }

    function TakeSites(t: Thread, p: Place): State {
      this.(sitesOwner := Some(t)).Go(t, p)
    }

    function LeaveSites(t: Thread, p: Place): State {
      this.(sitesOwner := None).Go(t, p)
    }

    function Erase(key: string): State {
      if key in sites then this.(sites := sites - {key}, erasures := Bump(erasures, key)) else this
    }

    /** sites[key] = site, tallied by who did it. */
    function Store(job: Job): State {
      var s := this.(sites := sites + {job.key});
      if job.Get? then s.(loads := Bump(loads, job.key))
      else if job.key in sites then s
      else s.(revivals := Bump(revivals, job.key))
    }
  }

  // ---------- Steps ----------

  function LoadNext(keys: seq<string>): Place {
    if keys == [] then Idle else LookupWait(Reload(keys[0], keys[1..]))
  }

  function LiveKeys(sites: set<string>, subdomain: string): seq<string> {
    (if subdomain in sites then [subdomain] else [])
    + (if StagingKey(subdomain) in sites then [StagingKey(subdomain)] else [])
  }

  predicate EntryPoint(p: Place) {
    || (p.LookupWait? && p.job.Get?)
    || (p.ResetWait? && p.keys == [] && !p.force)
    || p.SnapshotWait?
  }

  /** Moves that need no lock and change nothing else: a call begins, fetching the feed or
      loading the site is done, or has thrown. */
  predicate QuietMove(p: Place, p': Place) {
    match p
    case Idle => EntryPoint(p')
    case Reading(sub, keys) => p' == ResetWait(sub, keys, true) || p' == Idle
    case Loading(job, m) => p' == StoreWait(job, m) || p' == Leaving(job, Idle, m)
    case _ => false
  }

  ghost predicate QuietStep(s: State, t: Thread, s': State) {
    exists p :: QuietMove(s.At(t), p) && s' == s.Go(t, p)
  }

  /** Taking sitesMutex. */
  ghost predicate EnterStep(s: State, t: Thread, s': State) {
    s.At(t).WaitsForSites() && s.sitesOwner.None? && s' == s.TakeSites(t, s.At(t).Entered())
  }

  /** Looking for live sites: reloadSite for the keys to load again, getSite for its own key. */
  ghost predicate LookStep(s: State, t: Thread, s': State) {
    match s.At(t)
    case SnapshotHeld(sub) => s' == s.LeaveSites(t, Reading(sub, LiveKeys(s.sites, sub)))
    case CheckHeld(job, m) =>
      s' == s.LeaveSites(t, if job.key in s.sites then Leaving(job, Idle, m) else Loading(job, m))
    case _ => false
  }

  /** _resetSite: both keys are erased, or validation throws on the first live key, or it throws
      on the staging key after the production key is gone. */
  predicate EraseOutcome(s: State, p: Place, r: State, p': Place)
    requires p.ResetHeld?
  {
    var sub := p.subdomain;
    || (r == s.Erase(sub).Erase(StagingKey(sub)) && p' == LoadNext(p.keys))
    || (!p.force && sub in s.sites && r == s && p' == Idle)
    || (!p.force && StagingKey(sub) in s.sites && r == s.Erase(sub) && p' == Idle)
  }

  ghost predicate EraseStep(s: State, t: Thread, s': State) {
    s.At(t).ResetHeld? && exists r, p :: EraseOutcome(s, s.At(t), r, p) && s' == r.LeaveSites(t, p)
  }

  /** Finding or making the key's mutex. */
  ghost predicate LookupStep(s: State, t: Thread, s': State) {
    && s.At(t).LookupHeld?
    && var job := s.At(t).job;
    if job.key in s.siteMutexes then s' == s.LeaveSites(t, SiteWait(job, s.siteMutexes[job.key]))
    else exists m: Mutex :: m !in s.siteMutexes.Values
                     && s' == s.(siteMutexes := s.siteMutexes[job.key := m]).LeaveSites(t, SiteWait(job, m))
  }

  /** Taking the key's mutex, and giving it back. */
  ghost predicate MutexStep(s: State, t: Thread, s': State) {
    match s.At(t)
    case SiteWait(job, m) =>
      m !in s.owners
      && s' == s.(owners := s.owners[m := t]).Go(t, if job.Get? then CheckWait(job, m) else Loading(job, m))
    case Leaving(_, next, m) => s' == s.(owners := s.owners - {m}).Go(t, next)
    case _ => false
  }

  /** Storing a loaded site. */
  ghost predicate StoreStep(s: State, t: Thread, s': State) {
    match s.At(t)
    case StoreHeld(job, m) =>
      s' == s.Store(job).LeaveSites(t, Leaving(job, if job.Get? then Idle else LoadNext(job.rest), m))
    case _ => false
  }

  ghost predicate Step(s: State, t: Thread, s': State) {
    || QuietStep(s, t, s')
    || EnterStep(s, t, s')
    || LookStep(s, t, s')
    || EraseStep(s, t, s')
    || LookupStep(s, t, s')
    || MutexStep(s, t, s')
    || StoreStep(s, t, s')
  }

  ghost predicate Initial(s: State) {
    s == State({}, map[], None, map[], map[], map[], map[], map[])
  }

  /** trace[i + 1] results from a step of thread who[i]. */
  ghost predicate Run(trace: seq<State>, who: seq<Thread>) {
    && |trace| == |who| + 1
    && Initial(trace[0])
    && forall i :: 0 <= i < |who| ==> Step(trace[i], who[i], trace[i + 1])
  }

  // ---------- The invariant ----------

  /** A mutex is held exactly by the thread that is between taking and releasing it. */
  ghost predicate LocksAgree(s: State) {
    && (forall t: Thread :: s.sitesOwner == Some(t) <==> s.At(t).HoldsSites())
    && (forall t: Thread :: s.At(t).HoldsSiteMutex() ==> s.At(t).m in s.owners && s.owners[s.At(t).m] == t)
    && (forall m: Mutex :: m in s.owners ==> s.At(s.owners[m]).HoldsSiteMutex() && s.At(s.owners[m]).m == m)
  }

  ghost predicate OneMutexPerKey(mutexes: map<string, Mutex>) {
    forall k, k' :: k in mutexes && k' in mutexes && k != k' ==> mutexes[k] != mutexes[k']
  }

  /** A thread works with its key's mutex; only getSite checks for a live site. */
  predicate PlaceAgrees(mutexes: map<string, Mutex>, p: Place) {
    && (p.HasMutex() ==> p.job.key in mutexes && mutexes[p.job.key] == p.m)
    && (p.Leaving? ==> p.next.Idle? || p.next.LookupWait?)
    && (p.CheckWait? || p.CheckHeld? ==> p.job.Get?)
  }

  ghost predicate MutexesAgree(s: State) {
    OneMutexPerKey(s.siteMutexes) && forall t: Thread :: PlaceAgrees(s.siteMutexes, s.At(t))
  }

  predicate LoadsFor(p: Place, key: string) {
    p.IsLoading() && p.job == Get(key)
  }

  /** A key that some getSite is loading is not live. */
  ghost predicate LoadsAreOfDeadKeys(s: State) {
    forall t: Thread, key: string :: LoadsFor(s.At(t), key) ==> key !in s.sites
  }

  predicate Balanced(s: State, key: string) {
    Of(s.loads, key) + Of(s.revivals, key) == Of(s.erasures, key) + if key in s.sites then 1 else 0
  }

  ghost predicate TalliesAgree(s: State) {
    forall key :: Balanced(s, key)
  }

  ghost predicate Invariant(s: State) {
    LocksAgree(s) && MutexesAgree(s) && LoadsAreOfDeadKeys(s) && TalliesAgree(s)
  }

  // ---------- What one step changes ----------

  ghost predicate OnlyMoves(s: State, t: Thread, s': State) {
    forall u: Thread :: u != t ==> s'.At(u) == s.At(u)
  }

  /** Taking and giving up sitesMutex, seen by the thread that goes from p to p'. */
  predicate SitesLockEffect(t: Thread, p: Place, owner: Option<Thread>, p': Place, owner': Option<Thread>) {
    if p.HoldsSites() == p'.HoldsSites() then owner' == owner
    else if p'.HoldsSites() then owner.None? && owner' == Some(t)
    else owner'.None?
  }

  predicate SiteLockEffect(t: Thread, p: Place, owners: map<Mutex, Thread>, p': Place, owners': map<Mutex, Thread>) {
    if p.HoldsSiteMutex() then
      if p'.HoldsSiteMutex() then owners' == owners && p'.m == p.m else owners' == owners - {p.m}
    else
      if p'.HoldsSiteMutex() then p'.m !in owners && owners' == owners[p'.m := t] else owners' == owners
  }

  predicate MutexEffect(p: Place, mutexes: map<string, Mutex>, p': Place, mutexes': map<string, Mutex>) {
    && PlaceAgrees(mutexes', p')
    && (mutexes' == mutexes
        || (p.LookupHeld? && p'.SiteWait? && p.job.key !in mutexes && p'.m !in mutexes.Values
            && mutexes' == mutexes[p.job.key := p'.m]))
  }

  predicate SameSites(a: State, b: State) {
    a.sites == b.sites && a.loads == b.loads && a.revivals == b.revivals && a.erasures == b.erasures
  }

  /** The sites and the tallies after at most two erasures or one store. */
  predicate SitesEffect(p: Place, s: State, s': State) {
    if p.StoreHeld? then SameSites(s', s.Store(p.job))
    else
      || SameSites(s', s)
      || (p.ResetHeld? && SameSites(s', s.Erase(p.subdomain)))
      || (p.ResetHeld? && SameSites(s', s.Erase(p.subdomain).Erase(StagingKey(p.subdomain))))
  }

  /** Loading a key for getSite goes on from, or starts at, a moment when it was dead. */
  predicate LoadEffect(p: Place, sites: set<string>, p': Place, sites': set<string>) {
    p'.IsLoading() && p'.job.Get? ==>
      && (p.IsLoading() || p.CheckHeld?)
      && p'.job == p.job && sites' == sites
      && (p.IsLoading() || p'.job.key !in sites)
  }

  ghost predicate Effects(s: State, t: Thread, s': State) {
    && OnlyMoves(s, t, s')
    && SitesLockEffect(t, s.At(t), s.sitesOwner, s'.At(t), s'.sitesOwner)
    && SiteLockEffect(t, s.At(t), s.owners, s'.At(t), s'.owners)
    && MutexEffect(s.At(t), s.siteMutexes, s'.At(t), s'.siteMutexes)
    && SitesEffect(s.At(t), s, s')
    && LoadEffect(s.At(t), s.sites, s'.At(t), s'.sites)
  }

  /** A change r of everything but the threads, and then t's move to p. */
  lemma Moved(s: State, t: Thread, p: Place, r: State)
    requires r.threads == s.threads
    requires SitesLockEffect(t, s.At(t), s.sitesOwner, p, r.sitesOwner)
    requires SiteLockEffect(t, s.At(t), s.owners, p, r.owners)
    requires MutexEffect(s.At(t), s.siteMutexes, p, r.siteMutexes)
    requires SitesEffect(s.At(t), s, r)
    requires LoadEffect(s.At(t), s.sites, p, r.sites)
    ensures Effects(s, t, r.Go(t, p))
  {
    var s' := r.Go(t, p);
    assert SameSites(s', r) && s'.At(t) == p;
  }

  lemma QuietEffects(s: State, t: Thread, p: Place)
    requires QuietMove(s.At(t), p) && PlaceAgrees(s.siteMutexes, s.At(t))
    ensures Effects(s, t, s.Go(t, p))
  {
    Moved(s, t, p, s);
  }

  lemma EnterEffects(s: State, t: Thread)
    requires s.At(t).WaitsForSites() && s.sitesOwner.None? && PlaceAgrees(s.siteMutexes, s.At(t))
    ensures Effects(s, t, s.TakeSites(t, s.At(t).Entered()))
  {
    Moved(s, t, s.At(t).Entered(), s.(sitesOwner := Some(t)));
  }

  /** After looking, a thread no longer holds sitesMutex, still holds what it held of its key's
      mutex, and loads only what it found dead. */
  lemma LookEffects(s: State, t: Thread, s': State)
    requires LookStep(s, t, s') && PlaceAgrees(s.siteMutexes, s.At(t))
    ensures Effects(s, t, s')
  {
    var p, p' := s.At(t), s'.At(t);
    assert !p'.HoldsSites() && (p'.IsLoading() ==> p'.job.key !in s.sites);
    assert p'.HoldsSiteMutex() == p.HoldsSiteMutex() && (p.CheckHeld? ==> p'.m == p.m && p'.job == p.job);
    Moved(s, t, p', s.(sitesOwner := None));
  }

  predicate OnlySitesDiffer(s: State, r: State) {
    r.threads == s.threads && r.sitesOwner == s.sitesOwner && r.owners == s.owners && r.siteMutexes == s.siteMutexes
  }

  lemma EraseOnSites(s: State, key: string)
    ensures OnlySitesDiffer(s, s.Erase(key))
  {
  }

  lemma OutcomeOnSites(s: State, p: Place, r: State, p': Place)
    requires p.ResetHeld? && EraseOutcome(s, p, r, p')
    ensures OnlySitesDiffer(s, r) && SitesEffect(p, s, r) && (p'.Idle? || p'.LookupWait?)
  {
    var once := s.Erase(p.subdomain);
    var twice := once.Erase(StagingKey(p.subdomain));
    EraseOnSites(s, p.subdomain);
    EraseOnSites(once, StagingKey(p.subdomain));
    if r == twice {
      assert SameSites(r, twice);
    } else if r == once {
      assert SameSites(r, once);
    } else {
      assert SameSites(r, s);
    }
  }

  lemma EraseEffects(s: State, t: Thread, r: State, p: Place)
    requires s.At(t).ResetHeld? && OnlySitesDiffer(s, r) && SitesEffect(s.At(t), s, r)
    requires p.Idle? || p.LookupWait?
    ensures Effects(s, t, r.LeaveSites(t, p))
  {
    Moved(s, t, p, r.(sitesOwner := None));
  }

  lemma KnownMutexEffects(s: State, t: Thread, job: Job)
    requires s.At(t) == LookupHeld(job) && job.key in s.siteMutexes
    ensures Effects(s, t, s.LeaveSites(t, SiteWait(job, s.siteMutexes[job.key])))
  {
    Moved(s, t, SiteWait(job, s.siteMutexes[job.key]), s.(sitesOwner := None));
  }

  lemma NewMutexEffects(s: State, t: Thread, job: Job, m: Mutex)
    requires s.At(t) == LookupHeld(job) && job.key !in s.siteMutexes && m !in s.siteMutexes.Values
    ensures Effects(s, t, s.(siteMutexes := s.siteMutexes[job.key := m]).LeaveSites(t, SiteWait(job, m)))
  {
    Moved(s, t, SiteWait(job, m), s.(siteMutexes := s.siteMutexes[job.key := m], sitesOwner := None));
  }

  lemma LookupEffects(s: State, t: Thread, s': State)
    requires LookupStep(s, t, s')
    ensures Effects(s, t, s')
  {
    var job := s.At(t).job;
    if job.key in s.siteMutexes {
      KnownMutexEffects(s, t, job);
    } else {
      var m: Mutex :| m !in s.siteMutexes.Values
                      && s' == s.(siteMutexes := s.siteMutexes[job.key := m]).LeaveSites(t, SiteWait(job, m));
      NewMutexEffects(s, t, job, m);
    }
  }

  lemma MutexEffects(s: State, t: Thread, s': State)
    requires MutexStep(s, t, s') && PlaceAgrees(s.siteMutexes, s.At(t))
    ensures Effects(s, t, s')
  {
    Moved(s, t, s'.At(t), s.(owners := s'.owners));
  }

  lemma StoreEffects(s: State, t: Thread, s': State)
    requires StoreStep(s, t, s') && PlaceAgrees(s.siteMutexes, s.At(t))
    ensures Effects(s, t, s')
  {
    Moved(s, t, s'.At(t), s.Store(s.At(t).job).(sitesOwner := None));
  }

  lemma StepEffects(s: State, t: Thread, s': State)
    requires Step(s, t, s') && PlaceAgrees(s.siteMutexes, s.At(t))
    ensures Effects(s, t, s')
  {
    if QuietStep(s, t, s') {
      var p :| QuietMove(s.At(t), p) && s' == s.Go(t, p);
      QuietEffects(s, t, p);
    } else if EnterStep(s, t, s') {
      EnterEffects(s, t);
    } else if LookStep(s, t, s') {
      LookEffects(s, t, s');
    } else if EraseStep(s, t, s') {
      var r, p :| EraseOutcome(s, s.At(t), r, p) && s' == r.LeaveSites(t, p);
      OutcomeOnSites(s, s.At(t), r, p);
      EraseEffects(s, t, r, p);
    } else if LookupStep(s, t, s') {
      LookupEffects(s, t, s');
    } else if MutexStep(s, t, s') {
      MutexEffects(s, t, s');
    } else {
      StoreEffects(s, t, s');
    }
  }

  // ---------- Preservation ----------

  lemma LocksPreserved(s: State, t: Thread, s': State)
    requires LocksAgree(s) && OnlyMoves(s, t, s')
    requires SitesLockEffect(t, s.At(t), s.sitesOwner, s'.At(t), s'.sitesOwner)
    requires SiteLockEffect(t, s.At(t), s.owners, s'.At(t), s'.owners)
    ensures LocksAgree(s')
  {
    forall u: Thread ensures s'.sitesOwner == Some(u) <==> s'.At(u).HoldsSites() {
      assert s.sitesOwner == Some(u) <==> s.At(u).HoldsSites();
      assert s.sitesOwner == Some(t) <==> s.At(t).HoldsSites();
    }
    forall u: Thread | s'.At(u).HoldsSiteMutex() ensures s'.At(u).m in s'.owners && s'.owners[s'.At(u).m] == u {
      assert s.At(u).HoldsSiteMutex() ==> s.At(u).m in s.owners && s.owners[s.At(u).m] == u;
      assert s.At(t).HoldsSiteMutex() ==> s.At(t).m in s.owners && s.owners[s.At(t).m] == t;
    }
    forall m: Mutex | m in s'.owners ensures s'.At(s'.owners[m]).HoldsSiteMutex() && s'.At(s'.owners[m]).m == m {
      if m in s.owners {
        assert s.At(s.owners[m]).HoldsSiteMutex() && s.At(s.owners[m]).m == m;
      }
    }
  }

  lemma MutexesPreserved(s: State, t: Thread, s': State)
    requires MutexesAgree(s) && OnlyMoves(s, t, s')
    requires MutexEffect(s.At(t), s.siteMutexes, s'.At(t), s'.siteMutexes)
    ensures MutexesAgree(s')
  {
    forall u: Thread ensures PlaceAgrees(s'.siteMutexes, s'.At(u)) {
      assert PlaceAgrees(s.siteMutexes, s.At(u));
    }
  }

  /** Two threads inside the critical sections of one key are the same thread. */
  lemma OneThreadPerKey(s: State, t: Thread, u: Thread)
    requires LocksAgree(s) && MutexesAgree(s)
    requires s.At(t).HoldsSiteMutex() && s.At(u).HoldsSiteMutex() && s.At(t).job.key == s.At(u).job.key
    ensures t == u
  {
    assert PlaceAgrees(s.siteMutexes, s.At(t)) && PlaceAgrees(s.siteMutexes, s.At(u));
  }

  lemma DeadKeysPreserved(s: State, t: Thread, s': State)
    requires LocksAgree(s) && MutexesAgree(s) && LoadsAreOfDeadKeys(s)
    requires OnlyMoves(s, t, s') && SitesEffect(s.At(t), s, s') && LoadEffect(s.At(t), s.sites, s'.At(t), s'.sites)
    ensures LoadsAreOfDeadKeys(s')
  {
    forall u: Thread, key: string | LoadsFor(s'.At(u), key) ensures key !in s'.sites {
      if u == t {
        assert s.At(t).IsLoading() ==> LoadsFor(s.At(t), key);
      } else {
        assert LoadsFor(s.At(u), key);
        if s.At(t).StoreHeld? && s.At(t).job.key == key {
          OneThreadPerKey(s, t, u);
        }
      }
    }
  }

  lemma EraseBalanced(s: State, sub: string, key: string)
    requires Balanced(s, key)
    ensures Balanced(s.Erase(sub), key)
  {
  }

  lemma TalliesPreserved(s: State, t: Thread, s': State)
    requires TalliesAgree(s) && SitesEffect(s.At(t), s, s')
    requires s.At(t).StoreHeld? && s.At(t).job.Get? ==> s.At(t).job.key !in s.sites
    ensures TalliesAgree(s')
  {
    forall key ensures Balanced(s', key) {
      assert Balanced(s, key);
      if s.At(t).ResetHeld? {
        var sub := s.At(t).subdomain;
        EraseBalanced(s, sub, key);
        EraseBalanced(s.Erase(sub), StagingKey(sub), key);
      } else if s.At(t).StoreHeld? {
        StoreBalanced(s, s.At(t).job, key);
      }
    }
  }

  lemma StoreBalanced(s: State, job: Job, key: string)
    requires Balanced(s, key) && (job.Get? ==> job.key !in s.sites)
    ensures Balanced(s.Store(job), key)
  {
  }

  lemma StepPreserves(s: State, t: Thread, s': State)
    requires Invariant(s) && Step(s, t, s')
    ensures Invariant(s')
  {
    assert PlaceAgrees(s.siteMutexes, s.At(t));
    StepEffects(s, t, s');
    LocksPreserved(s, t, s');
    MutexesPreserved(s, t, s');
    DeadKeysPreserved(s, t, s');
    assert s.At(t).StoreHeld? && s.At(t).job.Get? ==> LoadsFor(s.At(t), s.At(t).job.key);
    TalliesPreserved(s, t, s');
  }

  lemma {:induction false} InvariantHolds(trace: seq<State>, who: seq<Thread>, i: nat)
    requires Run(trace, who) && i < |trace|
    ensures Invariant(trace[i])
  {
    if i > 0 {
      InvariantHolds(trace, who, i - 1);
      StepPreserves(trace[i - 1], who[i - 1], trace[i]);
    }
  }

  // ---------- What every interleaving keeps ----------

  lemma MutualExclusion(trace: seq<State>, who: seq<Thread>, i: nat, t: Thread, u: Thread)
    requires Run(trace, who) && i < |trace|
    requires trace[i].At(t).HoldsSiteMutex() && trace[i].At(u).HoldsSiteMutex()
    requires trace[i].At(t).job.key == trace[i].At(u).job.key
    ensures t == u
  {
    InvariantHolds(trace, who, i);
    OneThreadPerKey(trace[i], t, u);
  }

  /** When a getSite stores its site, the key is not live. */
  lemma LoadNeverOverwrites(trace: seq<State>, who: seq<Thread>, i: nat)
    requires Run(trace, who) && i < |who|
    requires trace[i].At(who[i]).StoreHeld? && trace[i].At(who[i]).job.Get?
    ensures trace[i].At(who[i]).job.key !in trace[i].sites
    ensures trace[i].At(who[i]).job.key in trace[i + 1].sites
  {
    InvariantHolds(trace, who, i);
    assert LoadsFor(trace[i].At(who[i]), trace[i].At(who[i]).job.key);
  }

  /** A key is loaded at most once more than it is erased; with the stores of reloadSite onto
      erased keys the balance is exact. */
  lemma LoadsBoundedByErasures(trace: seq<State>, who: seq<Thread>, i: nat, key: string)
    requires Run(trace, who) && i < |trace|
    ensures Of(trace[i].loads, key) <= Of(trace[i].erasures, key) + 1
    ensures Of(trace[i].loads, key) + Of(trace[i].revivals, key) ==
              Of(trace[i].erasures, key) + if key in trace[i].sites then 1 else 0
  {
    InvariantHolds(trace, who, i);
    assert Balanced(trace[i], key);
  }

  // ---------- What the three calls do ----------

  /** What reloadSite will load again: those of the two keys that are live, the production key first. */
  lemma SnapshotIsOfLiveKeys(s: State, t: Thread, s': State)
    requires s.At(t).SnapshotHeld? && Step(s, t, s')
    ensures var sub, p := s.At(t).subdomain, s'.At(t);
            && p.Reading? && p.subdomain == sub && s'.sites == s.sites
            && p.keys ==
                 if sub in s.sites && sub + ".staging" in s.sites then [sub, sub + ".staging"]
                 else if sub in s.sites then [sub]
                 else if sub + ".staging" in s.sites then [sub + ".staging"]
                 else []
  {
  }

  /** The sites and the next place after a reset. */
  predicate ResetEnds(s: State, p: Place, sites: set<string>, p': Place)
    requires p.ResetHeld?
  {
    var sub := p.subdomain;
    || (sites == s.sites - {sub, sub + ".staging"}
        && p' == if p.keys == [] then Idle else LookupWait(Reload(p.keys[0], p.keys[1..])))
    || (!p.force && p' == Idle && sub in s.sites && sites == s.sites)
    || (!p.force && p' == Idle && sub + ".staging" in s.sites && sites == s.sites - {sub})
  }

  lemma EraseSites(s: State, a: string, b: string)
    ensures s.Erase(a).sites == s.sites - {a} && s.Erase(a).Erase(b).sites == s.sites - {a, b}
  {
    assert s.sites - {a} - {b} == s.sites - {a, b};
  }

  lemma OutcomeKills(s: State, p: Place, r: State, p': Place)
    requires p.ResetHeld? && EraseOutcome(s, p, r, p')
    ensures ResetEnds(s, p, r.sites, p')
  {
    EraseSites(s, p.subdomain, p.subdomain + ".staging");
  }

  lemma OnlyErases(s: State, t: Thread, s': State)
    requires s.At(t).ResetHeld? && Step(s, t, s')
    ensures EraseStep(s, t, s')
  {
  }

  /** A reset kills both keys and no other, unless validation throws: then it has killed nothing, or
      the production key alone. For reloadSite it does not validate. */
  lemma ResetKillsBoth(s: State, t: Thread, s': State)
    requires s.At(t).ResetHeld? && Step(s, t, s')
    ensures ResetEnds(s, s.At(t), s'.sites, s'.At(t))
  {
    OnlyErases(s, t, s');
    var r, p :| EraseOutcome(s, s.At(t), r, p) && s' == r.LeaveSites(t, p);
    OutcomeKills(s, s.At(t), r, p);
  }

  /** A store brings its key to life and touches no other; reloadSite goes on with its next key. */
  lemma StoreRevives(s: State, t: Thread, s': State)
    requires s.At(t).StoreHeld? && Step(s, t, s')
    ensures var p, p' := s.At(t), s'.At(t);
            && s'.sites == s.sites + {p.job.key} && p'.Leaving? && p'.m == p.m
            && p'.next ==
                 if p.job.Reload? && p.job.rest != [] then LookupWait(Reload(p.job.rest[0], p.job.rest[1..])) else Idle
  {
  }

  /** Steps of one thread and no other. */
  ghost predicate Alone(path: seq<State>, t: Thread) {
    |path| > 0 && forall i :: 0 <= i < |path| - 1 ==> Step(path[i], t, path[i + 1])
  }

  lemma StepsOn(path: seq<State>, t: Thread, s: State) returns (longer: seq<State>)
    requires Alone(path, t) && Step(path[|path| - 1], t, s)
    ensures Alone(longer, t) && longer[0] == path[0] && longer[|longer| - 1] == s
  {
    longer := path + [s];
    assert forall i :: 0 <= i < |path| ==> longer[i] == path[i];
  }

  ghost predicate NoMutexHeld(s: State) {
    s.sitesOwner.None? && s.owners == map[]
  }

  lemma FindsKeyMutex(s: State, t: Thread, key: string) returns (path: seq<State>, m: Mutex)
    requires s.At(t) == LookupWait(Get(key)) && NoMutexHeld(s)
    ensures Alone(path, t) && path[0] == s
    ensures var r := path[|path| - 1];
            r.At(t) == SiteWait(Get(key), m) && r.sites == s.sites && NoMutexHeld(r)
  {
    var s1 := s.TakeSites(t, LookupHeld(Get(key)));
    path := StepsOn([s], t, s1);
    if key in s1.siteMutexes {
      m := s1.siteMutexes[key];
      path := StepsOn(path, t, s1.LeaveSites(t, SiteWait(Get(key), m)));
    } else {
      m := UnusedMutex(s1.siteMutexes.Values);
      path := StepsOn(path, t, s1.(siteMutexes := s1.siteMutexes[key := m]).LeaveSites(t, SiteWait(Get(key), m)));
    }
  }

  lemma ChecksSite(path: seq<State>, t: Thread, key: string, m: Mutex) returns (longer: seq<State>)
    requires Alone(path, t)
    requires var s := path[|path| - 1]; s.At(t) == SiteWait(Get(key), m) && NoMutexHeld(s)
    ensures Alone(longer, t) && longer[0] == path[0]
    ensures var s, r := path[|path| - 1], longer[|longer| - 1];
            && r.At(t) == (if key in s.sites then Leaving(Get(key), Idle, m) else Loading(Get(key), m))
            && r.sites == s.sites && r.sitesOwner.None? && r.owners == map[m := t]
  {
    var job, s := Get(key), path[|path| - 1];
    var s1 := s.(owners := s.owners[m := t]).Go(t, CheckWait(job, m));
    longer := StepsOn(path, t, s1);
    var s2 := s1.TakeSites(t, CheckHeld(job, m));
    longer := StepsOn(longer, t, s2);
    longer := StepsOn(longer, t, s2.LeaveSites(t, if key in s.sites then Leaving(job, Idle, m) else Loading(job, m)));
  }

  lemma LoadsAndStores(path: seq<State>, t: Thread, key: string, m: Mutex) returns (longer: seq<State>)
    requires Alone(path, t)
    requires var s := path[|path| - 1]; s.At(t) == Loading(Get(key), m) && s.sitesOwner.None?
    ensures Alone(longer, t) && longer[0] == path[0]
    ensures var s, r := path[|path| - 1], longer[|longer| - 1];
            r.At(t) == Leaving(Get(key), Idle, m) && r.sites == s.sites + {key}
            && r.sitesOwner.None? && r.owners == s.owners
  {
    var job, s := Get(key), path[|path| - 1];
    var s1 := s.Go(t, StoreWait(job, m));
    longer := StepsOn(path, t, s1);
    var s2 := s1.TakeSites(t, StoreHeld(job, m));
    longer := StepsOn(longer, t, s2);
    longer := StepsOn(longer, t, s2.Store(job).LeaveSites(t, Leaving(job, Idle, m)));
  }

  /** A getSite that nothing disturbs can end with its site live, no other changed and no mutex held. */
  lemma GetSiteLoads(s: State, t: Thread, key: string) returns (path: seq<State>)
    requires s.At(t) == LookupWait(Get(key)) && NoMutexHeld(s)
    ensures Alone(path, t) && path[0] == s
    ensures var r := path[|path| - 1]; r.At(t).Idle? && r.sites == s.sites + {key} && NoMutexHeld(r)
  {
    var m;
    path, m := FindsKeyMutex(s, t, key);
    path := ChecksSite(path, t, key, m);
    if key !in s.sites {
      path := LoadsAndStores(path, t, key, m);
    }
    var r := path[|path| - 1];
    path := StepsOn(path, t, r.(owners := r.owners - {m}).Go(t, Idle));
  }

  // ---------- No deadlock ----------

  ghost predicate CanStep(s: State, t: Thread) {
    exists s' :: Step(s, t, s')
  }

  /** A thread is stopped only by a mutex that another thread holds. */
  lemma BlockedOnlyByMutex(s: State, t: Thread)
    requires MutexesAgree(s) && !s.At(t).Idle?
    requires s.sitesOwner.None? || s.At(t).HoldsSites()
    requires s.At(t).SiteWait? ==> s.At(t).m !in s.owners
    ensures CanStep(s, t)
  {
    match s.At(t)
    case SnapshotWait(sub) => assert Step(s, t, s.TakeSites(t, SnapshotHeld(sub)));
    case SnapshotHeld(sub) => assert Step(s, t, s.LeaveSites(t, Reading(sub, LiveKeys(s.sites, sub))));
    case Reading(sub, keys) => assert Step(s, t, s.Go(t, Idle));
    case ResetWait(sub, keys, force) => assert Step(s, t, s.TakeSites(t, ResetHeld(sub, keys, force)));
    case ResetHeld(sub, keys, _) =>
      assert Step(s, t, s.Erase(sub).Erase(StagingKey(sub)).LeaveSites(t, LoadNext(keys)));
    case LookupWait(job) => assert Step(s, t, s.TakeSites(t, LookupHeld(job)));
    case LookupHeld(job) =>
      if job.key in s.siteMutexes {
        assert Step(s, t, s.LeaveSites(t, SiteWait(job, s.siteMutexes[job.key])));
      } else {
        var m := UnusedMutex(s.siteMutexes.Values);
        assert Step(s, t, s.(siteMutexes := s.siteMutexes[job.key := m]).LeaveSites(t, SiteWait(job, m)));
      }
    case SiteWait(job, m) =>
      assert Step(s, t, s.(owners := s.owners[m := t]).Go(t, if job.Get? then CheckWait(job, m) else Loading(job, m)));
    case CheckWait(job, m) => assert Step(s, t, s.TakeSites(t, CheckHeld(job, m)));
    case CheckHeld(job, m) =>
      assert Step(s, t, s.LeaveSites(t, if job.key in s.sites then Leaving(job, Idle, m) else Loading(job, m)));
    case Loading(job, m) => assert Step(s, t, s.Go(t, StoreWait(job, m)));
    case StoreWait(job, m) => assert Step(s, t, s.TakeSites(t, StoreHeld(job, m)));
    case StoreHeld(job, m) =>
      assert Step(s, t, s.Store(job).LeaveSites(t, Leaving(job, if job.Get? then Idle else LoadNext(job.rest), m)));
    case Leaving(_, next, m) => assert Step(s, t, s.(owners := s.owners - {m}).Go(t, next));
  }

  lemma {:induction false} UnusedMutex(used: set<Mutex>) returns (m: Mutex)
    ensures forall u: Mutex :: u in used ==> u < m
    decreases |used|
  {
    if used == {} {
      m := 0;
    } else {
      var u :| u in used;
      var n := UnusedMutex(used - {u});
      m := if n > u then n else u + 1;
      forall x: Mutex | x in used ensures x < m {
        assert x == u || x in used - {u};
      }
    }
  }

  /** Whenever some thread is under way, some thread that is under way can take a step. */
  lemma NoDeadlock(trace: seq<State>, who: seq<Thread>, i: nat, t: Thread)
    requires Run(trace, who) && i < |trace| && !trace[i].At(t).Idle?
    ensures exists u :: !trace[i].At(u).Idle? && CanStep(trace[i], u)
  {
    var s := trace[i];
    InvariantHolds(trace, who, i);
    if s.sitesOwner.Some? {
      BlockedOnlyByMutex(s, s.sitesOwner.value);
    } else if s.At(t).SiteWait? && s.At(t).m in s.owners {
      BlockedOnlyByMutex(s, s.owners[s.At(t).m]);
    } else {
      BlockedOnlyByMutex(s, t);
    }
  }
}
