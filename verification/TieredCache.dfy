/** The two-level cache behind a session (cpp/vae_db_handler.cpp:270-425 over
    cpp/mysql_proxy.cpp:95-186 and cpp/memcache_proxy.cpp:56-88): rows kept in MySQL, with
    memcache in front of them and beside them.

    Backend calls report no failure to the handler. Whether each took effect, and what memcache
    evicts, are parameters of the operations. */
module TieredCache {
  import opened CacheKeys

  // ---------- Operations ----------

  /** The DELETE and INSERT of longTermCacheSet: either may fail, and the first failure ends it. */
  datatype SqlWrite = Nothing | DeletedOnly | Stored

  datatype Op =
    | LongSet(site: Site, key: string, value: string, write: SqlWrite, memSet: bool)
    | LongGet(site: Site, key: string, useShort: bool, memRead: bool, sqlRead: bool, memSet: bool)
    | LongDelete(site: Site, key: string, sqlDelete: bool, memRemove: bool)
    | LongEmpty(site: Site, sqlDelete: bool)
    | Sweep(site: Site, expired: set<string>)
    | ShortGet(site: Site, key: string, memRead: bool)
    | ShortSet(site: Site, key: string, value: string, memSet: bool)
    | ShortDelete(site: Site, key: string, memRemove: bool)
    | Evict(memKey: string)

  datatype State = State(mem: map<string, string>, rows: map<(Site, string), string>) {
    /** The row's value, or the empty string that stands for "no row". */
    function Row(site: Site, key: string): string {
      if (site, key) in rows then rows[(site, key)] else ""
    }

    function Mem(memKey: string): string {
      if memKey in mem then mem[memKey] else ""
    }

    function SetMem(memKey: string, value: string, effect: bool): State {
      if effect then this.(mem := mem[memKey := value]) else this
    }

    function RemoveMem(memKey: string, effect: bool): State {
      if effect then this.(mem := mem - {memKey}) else this
    }
  }

  function Hit(s: State, op: Op): string
    requires op.LongGet?
  {
    if op.useShort && op.memRead then s.Mem(LongKey(op.site, op.key)) else ""
  }

  /** What the call returns; only the two gets return anything. */
  function Answer(s: State, op: Op): string {
    match op
    case LongGet(site, key, _, _, sqlRead, _) =>
      if Hit(s, op) != "" then Hit(s, op) else if sqlRead then s.Row(site, key) else ""
    case ShortGet(site, key, memRead) => if memRead then s.Mem(ShortKey(site, key)) else ""
    case _ => ""
  }

  function Next(s: State, op: Op): State {
    match op
    case LongSet(site, key, value, write, memSet) =>
      (match write
       case Nothing => s
       case DeletedOnly => s.(rows := s.rows - {(site, key)})
       case Stored => s.(rows := s.rows[(site, key) := value]))
      .SetMem(LongKey(site, key), value, memSet)
    case LongGet(site, key, _, _, _, memSet) =>
      if Hit(s, op) != "" then s else s.SetMem(LongKey(site, key), Answer(s, op), memSet)
    case LongDelete(site, key, sqlDelete, memRemove) =>
      (if sqlDelete then s.(rows := s.rows - {(site, key)}) else s).RemoveMem(LongKey(site, key), memRemove)
    case LongEmpty(site, sqlDelete) =>
      if sqlDelete then s.(rows := map r | r in s.rows && r.0 != site :: s.rows[r]) else s
    case Sweep(site, expired) =>
      s.(rows := map r | r in s.rows && !(r.0 == site && r.1 in expired) :: s.rows[r])
    case ShortGet(_, _, _) => s
    case ShortSet(site, key, value, memSet) => s.SetMem(ShortKey(site, key), value, memSet)
    case ShortDelete(site, key, memRemove) => s.RemoveMem(ShortKey(site, key), memRemove)
    case Evict(memKey) => s.RemoveMem(memKey, true)
  }

  function After(s: State, ops: seq<Op>): State {
    if ops == [] then s else Next(After(s, ops[..|ops| - 1]), ops[|ops| - 1])
  }

  // ---------- Operations on a set of sites ----------

  predicate OpOn(op: Op, sites: set<Site>) {
    !op.Evict? ==> op.site in sites
  }

  predicate OpsOn(ops: seq<Op>, sites: set<Site>) {
    forall i :: 0 <= i < |ops| ==> OpOn(ops[i], sites)
  }

  // ---------- When the short-term cache is invisible ----------

  /** memcache holds nothing, an empty value, or what the row holds. */
  predicate Fresh(s: State, site: Site, key: string) {
    s.Mem(LongKey(site, key)) == "" || s.Mem(LongKey(site, key)) == s.Row(site, key)
  }

  ghost predicate AllFresh(s: State, sites: set<Site>) {
    forall site, key :: site in sites ==> Fresh(s, site, key)
  }

  /** While MySQL can be read, a get answers the same whether it asks memcache first or not. */
  predicate GetsAgree(s: State, site: Site, key: string) {
    Answer(s, LongGet(site, key, true, true, true, true)) == Answer(s, LongGet(site, key, false, true, true, true))
  }

  lemma GetsAgreeExactly(s: State, site: Site, key: string)
    ensures GetsAgree(s, site, key) <==> Fresh(s, site, key)
  {
  }

  /** Another of these sites can use the memcache key of this long-term call. */
  predicate SharedLong(sites: set<Site>, site: Site, key: string) {
    exists b :: b in sites && b != site && Uses(b, LongKey(site, key))
  }

  /** One of these sites can use the memcache key of this short-term call for a long-term one. */
  predicate SharedShort(sites: set<Site>, site: Site, key: string) {
    exists b :: b in sites && Uses(b, ShortKey(site, key))
  }

  /** What a call must not do to keep all keys fresh: write to one store what it does not write to
      the other, delete rows behind memcache's back, or put something under a key that another
      site reads. */
  predicate KeepsFresh(op: Op, sites: set<Site>) {
    match op
    case LongSet(site, key, value, write, memSet) =>
      if memSet then value == "" || (write.Stored? && !SharedLong(sites, site, key)) else write.Nothing?
    case LongGet(site, key, _, _, sqlRead, memSet) => sqlRead && memSet ==> !SharedLong(sites, site, key)
    case LongDelete(_, _, sqlDelete, memRemove) => sqlDelete ==> memRemove
    case LongEmpty(_, sqlDelete) => !sqlDelete
    case Sweep(_, expired) => expired == {}
    case ShortSet(site, key, value, memSet) => memSet && value != "" ==> !SharedShort(sites, site, key)
    case _ => true
  }

  /** The same, for sites whose keys cannot meet. */
  predicate ChangesBothAlike(op: Op) {
    match op
    case LongSet(_, _, value, write, memSet) => if memSet then value == "" || write.Stored? else write.Nothing?
    case LongDelete(_, _, sqlDelete, memRemove) => sqlDelete ==> memRemove
    case LongEmpty(_, sqlDelete) => !sqlDelete
    case Sweep(_, expired) => expired == {}
    case _ => true
  }

  lemma KeepsFreshIfApart(op: Op, sites: set<Site>)
    requires Apart(sites) && OpOn(op, sites)
    ensures KeepsFresh(op, sites) <==> ChangesBothAlike(op)
  {
    if op.LongSet? || op.LongGet? || op.ShortSet? {
      forall b | b in sites
        ensures !Uses(b, ShortKey(op.site, op.key)) && (Uses(b, LongKey(op.site, op.key)) ==> b == op.site)
      {
        ApartKeys(sites, op.site, op.key, b);
      }
    }
  }

  lemma StepKeepsFresh(s: State, op: Op, sites: set<Site>)
    requires OpOn(op, sites) && AllFresh(s, sites) && KeepsFresh(op, sites)
    ensures AllFresh(Next(s, op), sites)
  {
    forall site, key | site in sites ensures Fresh(Next(s, op), site, key) {
      assert Fresh(s, site, key);
      if !op.Evict? && !op.LongEmpty? && !op.Sweep? {
        assert Fresh(s, op.site, op.key);
        UsesExactly(site, key, LongKey(op.site, op.key));
        UsesExactly(site, key, ShortKey(op.site, op.key));
        UsesExactly(op.site, op.key, LongKey(op.site, op.key));
      }
    }
  }

  /** A value under one memcache key, and in the rows of all that can use it. */
  function Warm(sites: set<Site>, memKey: string, value: string): State {
    State(map[memKey := value], map b | b in sites && Uses(b, memKey) :: (b, KeyOf(b, memKey)) := value)
  }

  lemma WarmIsFresh(sites: set<Site>, memKey: string, value: string)
    ensures AllFresh(Warm(sites, memKey, value), sites)
    ensures forall b :: b in sites && Uses(b, memKey) ==> Warm(sites, memKey, value).Row(b, KeyOf(b, memKey)) == value
  {
    forall b, l | b in sites ensures Fresh(Warm(sites, memKey, value), b, l) {
      UsesExactly(b, l, memKey);
    }
  }

  /** A fresh state and a key that a call spoils by writing to memcache what is not in the row. */
  lemma WriteSpoils(op: Op, sites: set<Site>) returns (s: State, site: Site, key: string)
    requires OpOn(op, sites) && !KeepsFresh(op, sites)
    requires op.LongGet? || op.ShortSet? || (op.LongSet? && op.memSet)
    ensures AllFresh(s, sites) && site in sites && !Fresh(Next(s, op), site, key)
  {
    var memKey := if op.ShortSet? then ShortKey(op.site, op.key) else LongKey(op.site, op.key);
    s := State(map[], if op.LongGet? then map[(op.site, op.key) := "x"] else map[]);
    if op.LongSet? && !op.write.Stored? {
      site, key := op.site, op.key;
    } else {
      site :| site in sites && (op.ShortSet? || site != op.site) && Uses(site, memKey);
      key := KeyOf(site, memKey);
      UsesExactly(site, key, memKey);
    }
  }

  /** One that a call spoils by changing a row and not memcache. */
  lemma RowSpoils(op: Op, sites: set<Site>) returns (s: State, key: string)
    requires OpOn(op, sites) && !KeepsFresh(op, sites)
    requires !op.LongGet? && !op.ShortSet? && !(op.LongSet? && op.memSet)
    ensures AllFresh(s, sites) && op.site in sites && !Fresh(Next(s, op), op.site, key)
  {
    var value := if op.LongSet? then op.value + "x" else "x";
    if op.Sweep? {
      key :| key in op.expired;
    } else {
      key := if op.LongEmpty? then "k" else op.key;
    }
    var memKey := LongKey(op.site, key);
    s := Warm(sites, memKey, value);
    WarmIsFresh(sites, memKey, value);
    UsesExactly(op.site, key, memKey);
    if op.LongSet? {
      assert |value| == |op.value| + 1;
    }
  }

  /** A call keeps every fresh state fresh exactly under that condition. */
  lemma StepKeepsFreshExactly(op: Op, sites: set<Site>)
    requires OpOn(op, sites)
    ensures (forall s: State :: AllFresh(s, sites) ==> AllFresh(Next(s, op), sites)) <==> KeepsFresh(op, sites)
  {
    if KeepsFresh(op, sites) {
      forall s: State | AllFresh(s, sites) ensures AllFresh(Next(s, op), sites) {
        StepKeepsFresh(s, op, sites);
      }
    } else if op.LongGet? || op.ShortSet? || (op.LongSet? && op.memSet) {
      var s, site, key := WriteSpoils(op, sites);
      assert !AllFresh(Next(s, op), sites);
    } else {
      var s, key := RowSpoils(op, sites);
      assert !AllFresh(Next(s, op), sites);
    }
  }

  lemma {:induction false} RunsStayFresh(rows: map<(Site, string), string>, ops: seq<Op>, sites: set<Site>)
    requires OpsOn(ops, sites)
    requires forall i :: 0 <= i < |ops| ==> KeepsFresh(ops[i], sites)
    ensures AllFresh(After(State(map[], rows), ops), sites)
  {
    if ops != [] {
      var before := ops[..|ops| - 1];
      RunsStayFresh(rows, before, sites);
      StepKeepsFresh(After(State(map[], rows), before), ops[|ops| - 1], sites);
    }
  }

  /** After every run of such calls, a get that can read MySQL answers the row, whether it asks
      memcache first or not, and whether memcache answers or not. */
  lemma ShortTermCacheIsInvisible(rows: map<(Site, string), string>, ops: seq<Op>, sites: set<Site>, get: Op)
    requires OpsOn(ops, sites)
    requires forall i :: 0 <= i < |ops| ==> KeepsFresh(ops[i], sites)
    requires get.LongGet? && get.site in sites && get.sqlRead
    ensures var s := After(State(map[], rows), ops);
            Answer(s, get) == s.Row(get.site, get.key)
  {
    RunsStayFresh(rows, ops, sites);
    assert Fresh(After(State(map[], rows), ops), get.site, get.key);
  }

  /** longTermCacheEmpty leaves memcache alone: afterwards the two ways of asking agree exactly on
      the keys for which memcache has nothing. */
  lemma EmptyAgreesExactly(s: State, site: Site, key: string)
    ensures GetsAgree(Next(s, LongEmpty(site, true)), site, key) <==> s.Mem(LongKey(site, key)) == ""
  {
    var e := Next(s, LongEmpty(site, true));
    GetsAgreeExactly(e, site, key);
    assert e.Row(site, key) == "";
  }

  /** Such a run: set, empty, get. */
  lemma EmptyLeavesStaleAnswers(site: Site, key: string, value: string)
    requires value != ""
    ensures var s := After(State(map[], map[]), [LongSet(site, key, value, Stored, true), LongEmpty(site, true)]);
            && s.Row(site, key) == ""
            && Answer(s, LongGet(site, key, true, true, true, true)) == value
            && Answer(s, LongGet(site, key, false, true, true, true)) == ""
  {
    var ops := [LongSet(site, key, value, Stored, true), LongEmpty(site, true)];
    assert ops[..1] == [ops[0]] && ops[..1][..0] == [];
    assert After(State(map[], map[]), ops[..1]) == Next(State(map[], map[]), ops[0]);
  }

  // ---------- Whatever fails, answers are values that were set ----------

  /** The value was passed to longTermCacheSet for this site and key. */
  predicate WasSet(ops: seq<Op>, site: Site, key: string, value: string) {
    exists i :: 0 <= i < |ops| && ops[i].LongSet? && ops[i].site == site && ops[i].key == key && ops[i].value == value
  }

  predicate Honest(s: State, ops: seq<Op>, site: Site, key: string) {
    && (s.Row(site, key) != "" ==> WasSet(ops, site, key, s.Row(site, key)))
    && (s.Mem(LongKey(site, key)) != "" ==> WasSet(ops, site, key, s.Mem(LongKey(site, key))))
  }

  lemma WasSetGrows(ops: seq<Op>, op: Op, site: Site, key: string, value: string)
    ensures WasSet(ops, site, key, value) ==> WasSet(ops + [op], site, key, value)
    ensures op.LongSet? ==> WasSet(ops + [op], op.site, op.key, op.value)
  {
    if i :| 0 <= i < |ops| && ops[i].LongSet? && ops[i].site == site && ops[i].key == key && ops[i].value == value {
      assert (ops + [op])[i] == ops[i];
    }
    assert (ops + [op])[|ops|] == op;
  }

  lemma StepKeepsHonest(s: State, ops: seq<Op>, op: Op, sites: set<Site>, site: Site, key: string)
    requires Apart(sites) && OpOn(op, sites) && site in sites
    requires Honest(s, ops, site, key)
    ensures Honest(Next(s, op), ops + [op], site, key)
  {
    WasSetGrows(ops, op, site, key, s.Row(site, key));
    WasSetGrows(ops, op, site, key, s.Mem(LongKey(site, key)));
    if !op.Evict? && !op.LongEmpty? && !op.Sweep? {
      ApartKeys(sites, op.site, op.key, site);
      UsesExactly(site, key, ShortKey(op.site, op.key));
      UsesExactly(site, key, LongKey(op.site, op.key));
      UsesExactly(op.site, op.key, LongKey(op.site, op.key));
    }
  }

  lemma {:induction false} RunsAreHonest(ops: seq<Op>, sites: set<Site>, site: Site, key: string)
    requires Apart(sites) && OpsOn(ops, sites) && site in sites
    ensures Honest(After(State(map[], map[]), ops), ops, site, key)
  {
    if ops != [] {
      var before, op := ops[..|ops| - 1], ops[|ops| - 1];
      RunsAreHonest(before, sites, site, key);
      StepKeepsHonest(After(State(map[], map[]), before), before, op, sites, site, key);
      assert ops == before + [op];
    }
  }

  /** After any run from empty stores on these sites, a non-empty longTermCacheGet answer was
      set for the same site and key. */
  ghost predicate AnswersWereSet(sites: set<Site>) {
    forall ops: seq<Op>, get: Op :: OpsOn(ops, sites) && get.LongGet? && get.site in sites ==>
      var answer := Answer(After(State(map[], map[]), ops), get);
      answer != "" ==> WasSet(ops, get.site, get.key, answer)
  }

  /** A short-term value of one site is answered as a long-term value of another. */
  lemma SitesCollide(site: Site)
    ensures var s := After(State(map[], map[]), [ShortSet(site + LONG_TERM, "k", "v", true)]);
            Answer(s, LongGet(site, "k", true, true, true, true)) == "v"
  {
    LongHeadIsShortHead(site);
    RunOfOne(ShortSet(site + LONG_TERM, "k", "v", true));
  }

  /** With a ':' in its name, a site need not even end in "LongTerm2" for that. */
  lemma SitesWithColonCollide()
    ensures var s := After(State(map[], map[]), [ShortSet("xLongTerm2:y", "k", "v", true)]);
            Answer(s, LongGet("x", "y:k", true, true, true, true)) == "v"
  {
    assert ShortKey("xLongTerm2:y", "k") == LongKey("x", "y:k");
    RunOfOne(ShortSet("xLongTerm2:y", "k", "v", true));
  }

  lemma RunOfOne(op: Op)
    ensures After(State(map[], map[]), [op]) == Next(State(map[], map[]), op)
  {
    assert [op][..0] == [];
  }

  /** Two sites that are not apart: a set by one of them is answered to the other. */
  lemma ClashIsAnswered(sites: set<Site>) returns (ops: seq<Op>, get: Op)
    requires !Apart(sites)
    ensures OpsOn(ops, sites) && get.LongGet? && get.site in sites
    ensures Answer(After(State(map[], map[]), ops), get) == "v" && !WasSet(ops, get.site, get.key, "v")
  {
    var a, b :| a in sites && b in sites
                && (Clash(ShortHead(a), LongHead(b)) || (a != b && Clash(LongHead(a), LongHead(b))));
    if Clash(ShortHead(a), LongHead(b)) {
      HeadsMeetExactly(ShortHead(a), LongHead(b));
      var k: string, l: string :| ShortHead(a) + k == LongHead(b) + l;
      ops, get := [ShortSet(a, k, "v", true)], LongGet(b, l, true, true, true, true);
    } else {
      HeadsMeetExactly(LongHead(a), LongHead(b));
      var k: string, l: string :| LongHead(a) + k == LongHead(b) + l;
      ops, get := [LongSet(a, k, "v", Stored, true)], LongGet(b, l, true, true, true, true);
    }
    RunOfOne(ops[0]);
  }

  /** That holds exactly when the sites' memcache keys cannot meet. */
  lemma AnswersWereSetExactly(sites: set<Site>)
    ensures AnswersWereSet(sites) <==> Apart(sites)
  {
    if Apart(sites) {
      forall ops: seq<Op>, get: Op | OpsOn(ops, sites) && get.LongGet? && get.site in sites
        ensures var answer := Answer(After(State(map[], map[]), ops), get);
                answer != "" ==> WasSet(ops, get.site, get.key, answer)
      {
        RunsAreHonest(ops, sites, get.site, get.key);
      }
    } else {
      var ops, get := ClashIsAnswered(sites);
    }
  }

  // ---------- The code ----------

  /** The part of the handler that serves the caches of its sessions, with the two stores. */
  class Handler {
    var sessions: map<int, Site>
    var memcache: map<string, string>
    var kvstore: map<(Site, string), string>

    function Abs(): State
      reads this
    {
      State(memcache, kvstore)
    }

    method MemcacheGet(memKey: string, effect: bool) returns (v: string)
      ensures v == if effect then Abs().Mem(memKey) else ""
    {
      v := "";
      if effect && memKey in memcache {
        v := memcache[memKey];
      }
    }

    method MemcacheSet(memKey: string, value: string, effect: bool)
      modifies this`memcache
      ensures Abs() == old(Abs()).SetMem(memKey, value, effect)
    {
      if effect {
        memcache := memcache[memKey := value];
      }
    }

    method MemcacheRemove(memKey: string, effect: bool)
      modifies this`memcache
      ensures Abs() == old(Abs()).RemoveMem(memKey, effect)
    {
      if effect {
        memcache := memcache - {memKey};
      }
    }

    method MysqlGet(site: Site, key: string, effect: bool) returns (out: string)
      ensures out == if effect then Abs().Row(site, key) else ""
    {
      out := "";
      if effect && (site, key) in kvstore {
        out := kvstore[(site, key)];
      }
    }

    method LongTermCacheGet(sessionId: int, key: string, useShort: bool, memRead: bool, sqlRead: bool, memSet: bool)
      returns (r: string)
      modifies this`memcache
      ensures sessionId !in sessions ==> r == "" && Abs() == old(Abs())
      ensures sessionId in sessions ==>
                var op := LongGet(sessions[sessionId], key, useShort, memRead, sqlRead, memSet);
                r == Answer(old(Abs()), op) && Abs() == Next(old(Abs()), op)
    {
      r := "";
      if sessionId !in sessions {
        return;
      }
      var site := sessions[sessionId];
      var fullKey := LongKey(site, key);
      if useShort {
        var answer := MemcacheGet(fullKey, memRead);
        if |answer| > 0 {
          return answer;
        }
      }
      r := MysqlGet(site, key, sqlRead);
      MemcacheSet(fullKey, r, memSet);
    }

    method LongTermCacheSet(sessionId: int, key: string, value: string, write: SqlWrite, memSet: bool)
      modifies this`memcache, this`kvstore
      ensures Abs() == if sessionId in sessions
                       then Next(old(Abs()), LongSet(sessions[sessionId], key, value, write, memSet)) else old(Abs())
    {
      if sessionId !in sessions {
        return;
      }
      var site := sessions[sessionId];
      if !write.Nothing? {
        kvstore := kvstore - {(site, key)};
        if write.Stored? {
          kvstore := kvstore[(site, key) := value];
        }
      }
      assert write.Stored? ==> kvstore == old(kvstore)[(site, key) := value];
      MemcacheSet(LongKey(site, key), value, memSet);
    }

    method LongTermCacheDelete(sessionId: int, key: string, sqlDelete: bool, memRemove: bool)
      modifies this`memcache, this`kvstore
      ensures Abs() == if sessionId in sessions
                       then Next(old(Abs()), LongDelete(sessions[sessionId], key, sqlDelete, memRemove)) else old(Abs())
    {
      if sessionId !in sessions {
        return;
      }
      var site := sessions[sessionId];
      if sqlDelete {
        kvstore := kvstore - {(site, key)};
      }
      MemcacheRemove(LongKey(site, key), memRemove);
    }

    method LongTermCacheEmpty(sessionId: int, sqlDelete: bool)
      modifies this`kvstore
      ensures Abs() == if sessionId in sessions
                       then Next(old(Abs()), LongEmpty(sessions[sessionId], sqlDelete)) else old(Abs())
    {
      if sessionId in sessions && sqlDelete {
        var site := sessions[sessionId];
        kvstore := map r | r in kvstore && r.0 != site :: kvstore[r];
      }
    }

    method ShortTermCacheGet(sessionId: int, key: string, memRead: bool) returns (r: string)
      ensures r == if sessionId in sessions then Answer(Abs(), ShortGet(sessions[sessionId], key, memRead)) else ""
    {
      r := "";
      if sessionId in sessions {
        r := MemcacheGet(ShortKey(sessions[sessionId], key), memRead);
      }
    }

    method ShortTermCacheSet(sessionId: int, key: string, value: string, memSet: bool)
      modifies this`memcache
      ensures Abs() == if sessionId in sessions
                       then Next(old(Abs()), ShortSet(sessions[sessionId], key, value, memSet)) else old(Abs())
    {
      if sessionId in sessions {
        MemcacheSet(ShortKey(sessions[sessionId], key), value, memSet);
      }
    }

    method ShortTermCacheDelete(sessionId: int, key: string, memRemove: bool)
      modifies this`memcache
      ensures Abs() == if sessionId in sessions
                       then Next(old(Abs()), ShortDelete(sessions[sessionId], key, memRemove)) else old(Abs())
    {
      if sessionId in sessions {
        MemcacheRemove(ShortKey(sessions[sessionId], key), memRemove);
      }
    }
  }
}
