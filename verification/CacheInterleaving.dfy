/** The cache calls of cpp/vae_db_handler.cpp:270-425 in any number of threads. A call takes no lock
    while it talks to MySQL and memcache, so each statement and each memcache call is a step of its
    own, and other threads' steps may come in between. Any of them may fail unnoticed. */
module CacheInterleaving {
  import opened CacheKeys
  import Tiers = TieredCache

  type Thread = nat

  /** What a thread is about to do. Answering: longTermCacheGet is about to return this value. */
  datatype Place =
    | Idle
    | GetAsk(site: Site, key: string)
    | GetRead(site: Site, key: string)
    | GetStore(site: Site, key: string, value: string)
    | Answering(site: Site, key: string, value: string)
    | SetDelete(site: Site, key: string, value: string)
    | SetInsert(site: Site, key: string, value: string)
    | SetStore(site: Site, key: string, value: string)
    | DeleteRow(site: Site, key: string)
    | DeleteMem(site: Site, key: string)
    | EmptyRows(site: Site)
    | ShortStore(site: Site, key: string, value: string)
    | ShortRemove(site: Site, key: string)

  /** The two stores, the threads, and what has been passed to longTermCacheSet so far. */
  datatype Server = Server(stores: Tiers.State, threads: map<Thread, Place>, given: set<(Site, string, string)>) {
    function At(t: Thread): Place {
      if t in threads then threads[t] else Idle
    }

    function Go(t: Thread, p: Place): Server {
      this.(threads := threads[t := p])
    }

    function With(stores: Tiers.State): Server {
      this.(stores := stores)
    }
  }

  datatype Event =
    | Begin(thread: Thread, entry: Place)
    | Call(thread: Thread, effect: bool)
    | Evict(memKey: string)
    | Sweep(site: Site, expired: set<string>)

  predicate IsEntry(p: Place) {
    p.GetAsk? || p.GetRead? || p.SetDelete? || p.DeleteRow? || p.EmptyRows? || p.ShortStore? || p.ShortRemove?
  }

  predicate Enabled(s: Server, e: Event, sites: set<Site>) {
    match e
    case Begin(t, p) => s.At(t).Idle? && IsEntry(p) && p.site in sites
    case Call(t, _) => !s.At(t).Idle?
    case Evict(_) => true
    case Sweep(_, _) => true
  }

  /** One backend call, or the return of an answer. The INSERT fails on its own while another
      thread's row is there. */
  function Proceed(s: Server, t: Thread, effect: bool): Server {
    var db := s.stores;
    match s.At(t)
    case Idle => s
    case GetAsk(site, key) =>
      var answer := if effect then db.Mem(LongKey(site, key)) else "";
      s.Go(t, if answer != "" then Answering(site, key, answer) else GetRead(site, key))
    case GetRead(site, key) => s.Go(t, GetStore(site, key, if effect then db.Row(site, key) else ""))
    case GetStore(site, key, value) =>
      s.With(db.SetMem(LongKey(site, key), value, effect)).Go(t, Answering(site, key, value))
    case Answering(_, _, _) => s.Go(t, Idle)
    case SetDelete(site, key, value) =>
      if effect then s.With(db.(rows := db.rows - {(site, key)})).Go(t, SetInsert(site, key, value))
      else s.Go(t, SetStore(site, key, value))
    case SetInsert(site, key, value) =>
      (if effect && (site, key) !in db.rows then s.With(db.(rows := db.rows[(site, key) := value])) else s)
      .Go(t, SetStore(site, key, value))
    case SetStore(site, key, value) => s.With(db.SetMem(LongKey(site, key), value, effect)).Go(t, Idle)
    case DeleteRow(site, key) =>
      (if effect then s.With(db.(rows := db.rows - {(site, key)})) else s).Go(t, DeleteMem(site, key))
    case DeleteMem(site, key) => s.With(db.RemoveMem(LongKey(site, key), effect)).Go(t, Idle)
    case EmptyRows(site) =>
      (if effect then s.With(db.(rows := map r | r in db.rows && r.0 != site :: db.rows[r])) else s).Go(t, Idle)
    case ShortStore(site, key, value) => s.With(db.SetMem(ShortKey(site, key), value, effect)).Go(t, Idle)
    case ShortRemove(site, key) => s.With(db.RemoveMem(ShortKey(site, key), effect)).Go(t, Idle)
  }

  function Next(s: Server, e: Event): Server {
    match e
    case Begin(t, p) =>
      (if p.SetDelete? then s.(given := s.given + {(p.site, p.key, p.value)}) else s).Go(t, p)
    case Call(t, effect) => Proceed(s, t, effect)
    case Evict(memKey) => s.With(s.stores.RemoveMem(memKey, true))
    case Sweep(site, expired) =>
      var db := s.stores;
      s.With(db.(rows := map r | r in db.rows && !(r.0 == site && r.1 in expired) :: db.rows[r]))
  }

  function After(events: seq<Event>): Server {
    if events == [] then Server(Tiers.State(map[], map[]), map[], {})
    else Next(After(events[..|events| - 1]), events[|events| - 1])
  }

  /** Every event was possible when it happened: an interleaving of calls on these sites. */
  predicate Interleaving(events: seq<Event>, sites: set<Site>) {
    forall i :: 0 <= i < |events| ==> Enabled(After(events[..i]), events[i], sites)
  }

  // ---------- A call that is not interrupted ----------

  /** The call that begins at this place, if its backend calls have these effects. */
  function CallOf(p: Place, e1: bool, e2: bool, e3: bool): Tiers.Op
    requires IsEntry(p)
  {
    match p
    case GetAsk(site, key) => Tiers.LongGet(site, key, true, e1, e2, e3)
    case GetRead(site, key) => Tiers.LongGet(site, key, false, false, e1, e2)
    case SetDelete(site, key, value) =>
      if e1 then Tiers.LongSet(site, key, value, if e2 then Tiers.Stored else Tiers.DeletedOnly, e3)
      else Tiers.LongSet(site, key, value, Tiers.Nothing, e2)
    case DeleteRow(site, key) => Tiers.LongDelete(site, key, e1, e2)
    case EmptyRows(site) => Tiers.LongEmpty(site, e1)
    case ShortStore(site, key, value) => Tiers.ShortSet(site, key, value, e1)
    case ShortRemove(site, key) => Tiers.ShortDelete(site, key, e1)
  }

  /** A thread's next step, unless it has its answer or is done. */
  function Further(s: Server, t: Thread, effect: bool): Server {
    if s.At(t).Idle? || s.At(t).Answering? then s else Proceed(s, t, effect)
  }

  predicate Ends(r: Server, t: Thread, s: Server, op: Tiers.Op) {
    && r.stores == Tiers.Next(s.stores, op)
    && r.At(t) == if op.LongGet? then Answering(op.site, op.key, Tiers.Answer(s.stores, op)) else Idle
  }

  lemma UninterruptedSet(s: Server, t: Thread, e1: bool, e2: bool, e3: bool)
    requires s.At(t).SetDelete?
    ensures Ends(Further(Further(Further(s, t, e1), t, e2), t, e3), t, s, CallOf(s.At(t), e1, e2, e3))
  {
    var p, db := s.At(t), s.stores;
    var s1 := Proceed(s, t, e1);
    if e1 {
      var s2 := Proceed(s1, t, e2);
      assert s2.At(t) == SetStore(p.site, p.key, p.value);
      assert e2 ==> s2.stores.rows == db.rows[(p.site, p.key) := p.value];
    }
  }

  lemma UninterruptedGet(s: Server, t: Thread, e1: bool, e2: bool, e3: bool)
    requires s.At(t).GetAsk? || s.At(t).GetRead?
    ensures Ends(Further(Further(Further(s, t, e1), t, e2), t, e3), t, s, CallOf(s.At(t), e1, e2, e3))
  {
    var s1 := Further(s, t, e1);
    assert s1.stores == s.stores && (s1.At(t).Answering? || s1.At(t).GetRead? || s1.At(t).GetStore?);
    var s2 := Further(s1, t, e2);
    assert s2.At(t).Answering? || s2.At(t).GetStore?;
  }

  /** Three steps of one thread with no other in between end its call, and do to the stores and
      answer what the undivided call does. */
  lemma UninterruptedCall(s: Server, t: Thread, e1: bool, e2: bool, e3: bool)
    requires IsEntry(s.At(t))
    ensures var op, r := CallOf(s.At(t), e1, e2, e3), Further(Further(Further(s, t, e1), t, e2), t, e3);
            && r.stores == Tiers.Next(s.stores, op)
            && r.At(t) == if op.LongGet? then Answering(op.site, op.key, Tiers.Answer(s.stores, op)) else Idle
  {
    if s.At(t).SetDelete? {
      UninterruptedSet(s, t, e1, e2, e3);
    } else if s.At(t).GetAsk? || s.At(t).GetRead? {
      UninterruptedGet(s, t, e1, e2, e3);
    } else {
      var s1 := Further(s, t, e1);
      assert s1.At(t).Idle? || s1.At(t).DeleteMem?;
    }
  }

  // ---------- The invariant ----------

  predicate GivenOrEmpty(s: Server, site: Site, key: string, value: string) {
    value == "" || (site, key, value) in s.given
  }

  /** Both stores' values for one key are given. */
  predicate KeyIsGiven(s: Server, site: Site, key: string) {
    && GivenOrEmpty(s, site, key, s.stores.Row(site, key))
    && GivenOrEmpty(s, site, key, s.stores.Mem(LongKey(site, key)))
  }

  ghost predicate StoresAreGiven(s: Server, sites: set<Site>) {
    forall site, key :: site in sites ==> KeyIsGiven(s, site, key)
  }

  /** What a thread carries towards the stores or back to its caller was given for its key. */
  predicate PlaceIsGiven(s: Server, p: Place, sites: set<Site>) {
    && (!p.Idle? ==> p.site in sites)
    && (p.GetStore? || p.Answering? || p.SetDelete? || p.SetInsert? || p.SetStore? ==>
          GivenOrEmpty(s, p.site, p.key, p.value))
  }

  ghost predicate ThreadsAreGiven(s: Server, sites: set<Site>) {
    forall t: Thread :: PlaceIsGiven(s, s.At(t), sites)
  }

  ghost predicate Invariant(s: Server, sites: set<Site>) {
    StoresAreGiven(s, sites) && ThreadsAreGiven(s, sites)
  }

  lemma LongWriteIsGiven(s: Server, sites: set<Site>, site: Site, key: string, value: string, effect: bool)
    requires Apart(sites) && site in sites && StoresAreGiven(s, sites) && GivenOrEmpty(s, site, key, value)
    ensures StoresAreGiven(s.With(s.stores.SetMem(LongKey(site, key), value, effect)), sites)
  {
    var s' := s.With(s.stores.SetMem(LongKey(site, key), value, effect));
    forall b, l | b in sites ensures KeyIsGiven(s', b, l) {
      assert KeyIsGiven(s, b, l);
      ApartKeys(sites, site, key, b);
      UsesExactly(b, l, LongKey(site, key));
      UsesExactly(site, key, LongKey(site, key));
    }
  }

  lemma ShortWriteIsGiven(s: Server, sites: set<Site>, site: Site, key: string, value: string, effect: bool)
    requires Apart(sites) && site in sites && StoresAreGiven(s, sites)
    ensures StoresAreGiven(s.With(s.stores.SetMem(ShortKey(site, key), value, effect)), sites)
  {
    var s' := s.With(s.stores.SetMem(ShortKey(site, key), value, effect));
    forall b, l | b in sites ensures KeyIsGiven(s', b, l) {
      assert KeyIsGiven(s, b, l);
      ApartKeys(sites, site, key, b);
      UsesExactly(b, l, ShortKey(site, key));
    }
  }

  lemma RemoveIsGiven(s: Server, sites: set<Site>, memKey: string, effect: bool)
    requires StoresAreGiven(s, sites)
    ensures StoresAreGiven(s.With(s.stores.RemoveMem(memKey, effect)), sites)
  {
    var s' := s.With(s.stores.RemoveMem(memKey, effect));
    forall b, l | b in sites ensures KeyIsGiven(s', b, l) {
      assert KeyIsGiven(s, b, l);
    }
  }

  lemma RowsAreGiven(s: Server, sites: set<Site>, rows: map<(Site, string), string>)
    requires StoresAreGiven(s, sites)
    requires forall r :: r in rows ==>
               (r in s.stores.rows && rows[r] == s.stores.rows[r]) || GivenOrEmpty(s, r.0, r.1, rows[r])
    ensures StoresAreGiven(s.With(s.stores.(rows := rows)), sites)
  {
    var s' := s.With(s.stores.(rows := rows));
    forall b, l | b in sites ensures KeyIsGiven(s', b, l) {
      assert KeyIsGiven(s, b, l);
    }
  }

  lemma SameStores(s: Server, s': Server, sites: set<Site>)
    requires StoresAreGiven(s, sites) && s'.stores == s.stores && s.given <= s'.given
    ensures StoresAreGiven(s', sites)
  {
    forall b, l | b in sites ensures KeyIsGiven(s', b, l) {
      assert KeyIsGiven(s, b, l);
    }
  }

  lemma CallKeepsStores(s: Server, t: Thread, effect: bool, sites: set<Site>)
    requires Apart(sites) && Invariant(s, sites)
    ensures StoresAreGiven(Proceed(s, t, effect), sites)
  {
    var p, db := s.At(t), s.stores;
    var s' := Proceed(s, t, effect);
    assert PlaceIsGiven(s, p, sites);
    if s'.stores != db {
      match p
      case GetStore(site, key, value) => LongWriteIsGiven(s, sites, site, key, value, effect);
      case SetStore(site, key, value) => LongWriteIsGiven(s, sites, site, key, value, effect);
      case ShortStore(site, key, value) => ShortWriteIsGiven(s, sites, site, key, value, effect);
      case DeleteMem(site, key) => RemoveIsGiven(s, sites, LongKey(site, key), effect);
      case ShortRemove(site, key) => RemoveIsGiven(s, sites, ShortKey(site, key), effect);
      case _ => RowsAreGiven(s, sites, s'.stores.rows);
    } else {
      assert s.With(db) == s;
    }
    SameStores(s.With(s'.stores), s', sites);
  }

  lemma CallKeepsThreads(s: Server, t: Thread, effect: bool, sites: set<Site>)
    requires Invariant(s, sites)
    ensures ThreadsAreGiven(Proceed(s, t, effect), sites)
  {
    var p, s' := s.At(t), Proceed(s, t, effect);
    assert PlaceIsGiven(s, p, sites);
    assert p.GetAsk? || p.GetRead? ==> KeyIsGiven(s, p.site, p.key);
    forall u: Thread ensures PlaceIsGiven(s', s'.At(u), sites) {
      assert PlaceIsGiven(s, s.At(u), sites);
    }
  }

  lemma BeginKeeps(s: Server, t: Thread, p: Place, sites: set<Site>)
    requires Invariant(s, sites) && IsEntry(p) && p.site in sites
    ensures Invariant(Next(s, Begin(t, p)), sites)
  {
    var s' := Next(s, Begin(t, p));
    SameStores(s, s', sites);
    forall u: Thread ensures PlaceIsGiven(s', s'.At(u), sites) {
      assert PlaceIsGiven(s, s.At(u), sites);
    }
  }

  lemma StepKeeps(s: Server, e: Event, sites: set<Site>)
    requires Apart(sites) && Invariant(s, sites) && Enabled(s, e, sites)
    ensures Invariant(Next(s, e), sites)
  {
    match e
    case Begin(t, p) => BeginKeeps(s, t, p, sites);
    case Call(t, effect) =>
      CallKeepsStores(s, t, effect, sites);
      CallKeepsThreads(s, t, effect, sites);
    case Evict(memKey) =>
      RemoveIsGiven(s, sites, memKey, true);
      SameThreads(s, Next(s, e), sites);
    case Sweep(site, expired) =>
      var db := s.stores;
      RowsAreGiven(s, sites, map r | r in db.rows && !(r.0 == site && r.1 in expired) :: db.rows[r]);
      SameThreads(s, Next(s, e), sites);
  }

  lemma SameThreads(s: Server, s': Server, sites: set<Site>)
    requires ThreadsAreGiven(s, sites) && s'.threads == s.threads && s'.given == s.given
    ensures ThreadsAreGiven(s', sites)
  {
    forall t: Thread ensures PlaceIsGiven(s', s'.At(t), sites) {
      assert PlaceIsGiven(s, s.At(t), sites);
    }
  }

  lemma {:induction false} InvariantHolds(events: seq<Event>, sites: set<Site>)
    requires Apart(sites) && Interleaving(events, sites)
    ensures Invariant(After(events), sites)
  {
    if events != [] {
      var n := |events| - 1;
      assert forall i :: 0 <= i < n ==> events[..n][..i] == events[..i];
      InvariantHolds(events[..n], sites);
      StepKeeps(After(events[..n]), events[n], sites);
    }
  }

  // ---------- Answers were given ----------

  /** A thread is about to answer something that nobody has passed to longTermCacheSet for this
      site and key. */
  predicate Invents(s: Server, t: Thread) {
    var p := s.At(t);
    p.Answering? && !GivenOrEmpty(s, p.site, p.key, p.value)
  }

  /** Whatever the threads do, and whatever fails or is evicted or swept, no answer is invented. */
  ghost predicate AnswersAreGiven(sites: set<Site>) {
    forall events: seq<Event>, t: Thread :: Interleaving(events, sites) ==> !Invents(After(events), t)
  }

  lemma AfterSnoc(events: seq<Event>, e: Event, sites: set<Site>)
    requires Interleaving(events, sites) && Enabled(After(events), e, sites)
    ensures Interleaving(events + [e], sites) && After(events + [e]) == Next(After(events), e)
  {
    var all := events + [e];
    assert all[..|events|] == events;
    assert forall i :: 0 <= i < |events| ==> all[..i] == events[..i];
  }

  /** From idle threads, whatever is in memcache is answered. */
  lemma AskIsAnswered(events: seq<Event>, sites: set<Site>, site: Site, key: string) returns (more: seq<Event>)
    requires Interleaving(events, sites) && site in sites && After(events).At(0).Idle?
    requires After(events).stores.Mem(LongKey(site, key)) != ""
    ensures Interleaving(more, sites) && After(more).given == After(events).given
    ensures After(more).At(0) == Answering(site, key, After(events).stores.Mem(LongKey(site, key)))
  {
    AfterSnoc(events, Begin(0, GetAsk(site, key)), sites);
    more := events + [Begin(0, GetAsk(site, key))];
    AfterSnoc(more, Call(0, true), sites);
    more := more + [Call(0, true)];
  }

  lemma ShortIsStored(sites: set<Site>, site: Site, key: string) returns (events: seq<Event>)
    requires site in sites
    ensures Interleaving(events, sites) && After(events).At(0).Idle? && After(events).given == {}
    ensures After(events).stores.Mem(ShortKey(site, key)) == "v"
  {
    AfterSnoc([], Begin(0, ShortStore(site, key, "v")), sites);
    events := [] + [Begin(0, ShortStore(site, key, "v"))];
    AfterSnoc(events, Call(0, true), sites);
    events := events + [Call(0, true)];
  }

  lemma LongIsStored(sites: set<Site>, site: Site, key: string) returns (events: seq<Event>)
    requires site in sites
    ensures Interleaving(events, sites) && After(events).At(0).Idle? && After(events).given == {(site, key, "v")}
    ensures After(events).stores.Mem(LongKey(site, key)) == "v"
  {
    AfterSnoc([], Begin(0, SetDelete(site, key, "v")), sites);
    events := [] + [Begin(0, SetDelete(site, key, "v"))];
    AfterSnoc(events, Call(0, false), sites);
    events := events + [Call(0, false)];
    AfterSnoc(events, Call(0, true), sites);
    events := events + [Call(0, true)];
  }

  lemma ClashInvents(sites: set<Site>) returns (events: seq<Event>)
    requires !Apart(sites)
    ensures Interleaving(events, sites) && Invents(After(events), 0)
  {
    var a, b :| a in sites && b in sites
                && (Clash(ShortHead(a), LongHead(b)) || (a != b && Clash(LongHead(a), LongHead(b))));
    if Clash(ShortHead(a), LongHead(b)) {
      HeadsMeetExactly(ShortHead(a), LongHead(b));
      var k: string, l: string :| ShortHead(a) + k == LongHead(b) + l;
      events := ShortIsStored(sites, a, k);
      events := AskIsAnswered(events, sites, b, l);
    } else {
      HeadsMeetExactly(LongHead(a), LongHead(b));
      var k: string, l: string :| LongHead(a) + k == LongHead(b) + l;
      events := LongIsStored(sites, a, k);
      events := AskIsAnswered(events, sites, b, l);
    }
  }

  /** In every interleaving answers are given values, exactly when the sites' keys cannot meet. */
  lemma AnswersAreGivenExactly(sites: set<Site>)
    ensures AnswersAreGiven(sites) <==> Apart(sites)
  {
    if Apart(sites) {
      forall events: seq<Event>, t: Thread | Interleaving(events, sites) ensures !Invents(After(events), t) {
        InvariantHolds(events, sites);
        assert PlaceIsGiven(After(events), After(events).At(t), sites);
      }
    } else {
      var events := ClashInvents(sites);
    }
  }

  // ---------- Freshness is lost to a race ----------

  /** A get that has read the row keeps its key fresh, when it comes to store what it read, exactly
      if that is empty or still what the row holds. */
  lemma StoreKeepsFreshExactly(s: Server, t: Thread)
    requires s.At(t).GetStore?
    ensures var p, s' := s.At(t), Proceed(s, t, true);
            Tiers.Fresh(s'.stores, p.site, p.key) <==> p.value == "" || p.value == s.stores.Row(p.site, p.key)
  {
  }

  /** Every backend call so far has worked, and nothing was evicted or swept. */
  predicate NothingFailed(events: seq<Event>) {
    forall e :: e in events ==> e.Begin? || (e.Call? && e.effect)
  }

  lemma Begins(events: seq<Event>, sites: set<Site>, t: Thread, p: Place) returns (more: seq<Event>)
    requires Interleaving(events, sites) && NothingFailed(events)
    requires After(events).At(t).Idle? && IsEntry(p) && p.site in sites
    ensures Interleaving(more, sites) && NothingFailed(more) && After(more) == Next(After(events), Begin(t, p))
  {
    AfterSnoc(events, Begin(t, p), sites);
    more := events + [Begin(t, p)];
  }

  lemma Proceeds(events: seq<Event>, sites: set<Site>, t: Thread) returns (more: seq<Event>)
    requires Interleaving(events, sites) && NothingFailed(events) && !After(events).At(t).Idle?
    ensures Interleaving(more, sites) && NothingFailed(more) && After(more) == Proceed(After(events), t, true)
  {
    AfterSnoc(events, Call(t, true), sites);
    more := events + [Call(t, true)];
  }

  /** What a set does when its three backend calls work and no other thread comes in between. */
  lemma SetEffect(s: Server, t: Thread, site: Site, key: string, value: string)
    requires s.At(t) == SetDelete(site, key, value)
    ensures var s1 := Proceed(s, t, true);
            var s2 := Proceed(s1, t, true);
            var s3 := Proceed(s2, t, true);
            && s1.At(t).SetInsert? && s2.At(t).SetStore? && s3.threads == s.threads[t := Idle]
            && s3.stores.Row(site, key) == value == s3.stores.Mem(LongKey(site, key))
  {
    var s1 := Proceed(s, t, true);
    assert s1.At(t) == SetInsert(site, key, value) && (site, key) !in s1.stores.rows;
    var s2 := Proceed(s1, t, true);
    assert s2.At(t) == SetStore(site, key, value) && s2.stores.Row(site, key) == value;
    var s3 := Proceed(s2, t, true);
    assert s3.stores.rows == s2.stores.rows;
  }

  lemma SetRuns(events: seq<Event>, sites: set<Site>, t: Thread, site: Site, key: string, value: string)
    returns (more: seq<Event>)
    requires Interleaving(events, sites) && NothingFailed(events) && site in sites && After(events).At(t).Idle?
    ensures Interleaving(more, sites) && NothingFailed(more)
    ensures After(more).threads == After(events).threads[t := Idle]
    ensures After(more).stores.Row(site, key) == value == After(more).stores.Mem(LongKey(site, key))
  {
    more := Begins(events, sites, t, SetDelete(site, key, value));
    SetEffect(After(more), t, site, key, value);
    more := Proceeds(more, sites, t);
    more := Proceeds(more, sites, t);
    more := Proceeds(more, sites, t);
  }

  /** What a get does that reads the row, and what it does once it comes to store that. */
  lemma GetEffect(s: Server, t: Thread, site: Site, key: string, value: string)
    ensures s.At(t) == GetRead(site, key) ==>
              Proceed(s, t, true) == s.Go(t, GetStore(site, key, s.stores.Row(site, key)))
    ensures s.At(t) == GetStore(site, key, value) ==>
              var s' := Proceed(s, t, true);
              && s'.threads == s.threads[t := Answering(site, key, value)]
              && s'.stores.rows == s.stores.rows && s'.stores.Mem(LongKey(site, key)) == value
  {
  }

  /** Thread 0 sets "old". Thread 1 reads it; before it stores it in memcache, thread 0 sets "new".
      No backend call fails and all calls end, and yet memcache answers "old". */
  lemma RaceLeavesStaleAnswer(site: Site, key: string) returns (events: seq<Event>)
    ensures Interleaving(events, {site}) && NothingFailed(events)
    ensures After(events).At(0).Idle? && After(events).At(1).Idle?
    ensures After(events).stores.Row(site, key) == "new"
    ensures After(events).stores.Mem(LongKey(site, key)) == "old"
  {
    var sites := {site};
    events := SetRuns([], sites, 0, site, key, "old");
    events := Begins(events, sites, 1, GetRead(site, key));
    GetEffect(After(events), 1, site, key, "old");
    events := Proceeds(events, sites, 1);
    events := SetRuns(events, sites, 0, site, key, "new");
    GetEffect(After(events), 1, site, key, "old");
    events := Proceeds(events, sites, 1);
    events := Proceeds(events, sites, 1);
  }
}
