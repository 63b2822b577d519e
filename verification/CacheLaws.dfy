/** What a caller of the cache (cpp/vae_db_handler.cpp:270-425) may rely on: what was set is read back
    until something touches it, and what was deleted stays away. */
module CacheLaws {
  import opened CacheKeys
  import opened Paths
  import opened TieredCache

  lemma KeysSpelled(site: Site, key: string)
    ensures ShortKey(site, key) == "VaedbProxy:" + site + ":" + key
    ensures LongKey(site, key) == "VaedbProxy:" + site + "LongTerm2:" + key
  {
    assert LONG_TERM + ":" == "LongTerm2:";
    assert LongKey(site, key) == "VaedbProxy:" + site + (LONG_TERM + ":") + key;
  }

  // ---------- The short-term cache ----------

  /** The memcache keys of these sites' short-term calls meet no others. */
  predicate ShortApart(sites: set<Site>) {
    forall a, b :: a in sites && b in sites ==>
      !Clash(ShortHead(a), LongHead(b)) && (a != b ==> !Clash(ShortHead(a), ShortHead(b)))
  }

  /** Sites without ':' are so, exactly if they are apart. */
  lemma ColonFreeShortApart(sites: set<Site>)
    requires forall a :: a in sites ==> Free(a, ':')
    ensures ShortApart(sites) <==> Apart(sites)
  {
    forall a, b | a in sites && b in sites
      ensures Clash(ShortHead(a), ShortHead(b)) <==> a == b
      ensures Clash(LongHead(a), LongHead(b)) <==> a == b
    {
      HeadsOfColonFree(a, b);
      HeadsMeetExactly(ShortHead(a), ShortHead(b));
      if k: string, l: string :| ShortHead(a) + k == ShortHead(b) + l {
        KeysCollideExactly(a, k, b, l);
      }
    }
  }

  lemma ShortApartKeys(sites: set<Site>, a: Site, k: string, b: Site, l: string)
    requires ShortApart(sites) && a in sites && b in sites
    ensures ShortKey(a, k) != LongKey(b, l)
    ensures ShortKey(a, k) == ShortKey(b, l) <==> a == b && k == l
  {
    if ShortKey(a, k) == LongKey(b, l) {
      SameKey(ShortHead(a), k, LongHead(b), l);
    }
    if ShortKey(a, k) == ShortKey(b, l) {
      SameKey(ShortHead(a), k, ShortHead(b), l);
    }
  }

  /** Nothing sets, deletes or evicts this short-term value. */
  predicate LeavesShort(op: Op, site: Site, key: string) {
    match op
    case ShortSet(s, k, _, _) => s != site || k != key
    case ShortDelete(s, k, _) => s != site || k != key
    case Evict(memKey) => memKey != ShortKey(site, key)
    case _ => true
  }

  /** Nothing sets it. */
  predicate NoShortSet(op: Op, site: Site, key: string) {
    op.ShortSet? ==> op.site != site || op.key != key
  }

  lemma StepLeavesShort(s: State, op: Op, sites: set<Site>, site: Site, key: string)
    requires ShortApart(sites) && OpOn(op, sites) && site in sites
    ensures LeavesShort(op, site, key) ==> Next(s, op).Mem(ShortKey(site, key)) == s.Mem(ShortKey(site, key))
    ensures NoShortSet(op, site, key) && s.Mem(ShortKey(site, key)) == "" ==>
              Next(s, op).Mem(ShortKey(site, key)) == ""
  {
    if !op.Evict? && !op.LongEmpty? && !op.Sweep? {
      ShortApartKeys(sites, site, key, op.site, op.key);
    }
  }

  predicate AllLeaveShort(ops: seq<Op>, site: Site, key: string) {
    forall i :: 0 <= i < |ops| ==> LeavesShort(ops[i], site, key)
  }

  lemma {:induction false} RunLeavesShort(s: State, ops: seq<Op>, sites: set<Site>, site: Site, key: string)
    requires ShortApart(sites) && OpsOn(ops, sites) && site in sites
    ensures AllLeaveShort(ops, site, key) ==> After(s, ops).Mem(ShortKey(site, key)) == s.Mem(ShortKey(site, key))
    ensures (forall i :: 0 <= i < |ops| ==> NoShortSet(ops[i], site, key)) && s.Mem(ShortKey(site, key)) == "" ==>
              After(s, ops).Mem(ShortKey(site, key)) == ""
  {
    if ops != [] {
      var before, last := ops[..|ops| - 1], ops[|ops| - 1];
      RunLeavesShort(s, before, sites, site, key);
      StepLeavesShort(After(s, before), last, sites, site, key);
    }
  }

  /** shortTermCacheGet, after shortTermCacheSet has put a value into memcache and some other calls. */
  function ReadBack(s: State, site: Site, key: string, value: string, ops: seq<Op>): string {
    Answer(After(Next(s, ShortSet(site, key, value, true)), ops), ShortGet(site, key, true))
  }

  /** It answers that value, whatever the state was and whatever happens to other values. */
  ghost predicate ShortSetIsRead(sites: set<Site>) {
    forall s: State, site, key: string, value: string, ops: seq<Op> ::
      site in sites && OpsOn(ops, sites) && AllLeaveShort(ops, site, key) ==>
        ReadBack(s, site, key, value, ops) == value
  }

  lemma ShortSetIsOverwritten(sites: set<Site>) returns (site: Site, key: string, ops: seq<Op>)
    requires !ShortApart(sites)
    ensures site in sites && OpsOn(ops, sites) && AllLeaveShort(ops, site, key)
    ensures ReadBack(State(map[], map[]), site, key, "v", ops) == "w"
  {
    var a, b :| a in sites && b in sites
                && (Clash(ShortHead(a), LongHead(b)) || (a != b && Clash(ShortHead(a), ShortHead(b))));
    site := a;
    if Clash(ShortHead(a), LongHead(b)) {
      HeadsMeetExactly(ShortHead(a), LongHead(b));
      var k: string, l: string :| ShortHead(a) + k == LongHead(b) + l;
      key, ops := k, [LongSet(b, l, "w", Stored, true)];
    } else {
      HeadsMeetExactly(ShortHead(a), ShortHead(b));
      var k: string, l: string :| ShortHead(a) + k == ShortHead(b) + l;
      key, ops := k, [ShortSet(b, l, "w", true)];
    }
    var written := Next(State(map[], map[]), ShortSet(site, key, "v", true));
    assert ops[..0] == [] && After(written, ops) == Next(written, ops[0]);
  }

  /** That is so exactly when the short-term keys meet no others. */
  lemma ShortSetIsReadExactly(sites: set<Site>)
    ensures ShortSetIsRead(sites) <==> ShortApart(sites)
  {
    if ShortApart(sites) {
      forall s: State, site, key: string, value: string, ops: seq<Op>
        | site in sites && OpsOn(ops, sites) && AllLeaveShort(ops, site, key)
        ensures ReadBack(s, site, key, value, ops) == value
      {
        RunLeavesShort(Next(s, ShortSet(site, key, value, true)), ops, sites, site, key);
      }
    } else {
      var site, key, ops := ShortSetIsOverwritten(sites);
    }
  }

  /** What shortTermCacheDelete has removed from memcache stays away until it is set again. */
  lemma ShortDeleteIsRead(s: State, ops: seq<Op>, sites: set<Site>, site: Site, key: string)
    requires ShortApart(sites) && OpsOn(ops, sites) && site in sites
    requires forall i :: 0 <= i < |ops| ==> NoShortSet(ops[i], site, key)
    ensures Answer(After(Next(s, ShortDelete(site, key, true)), ops), ShortGet(site, key, true)) == ""
  {
    RunLeavesShort(Next(s, ShortDelete(site, key, true)), ops, sites, site, key);
  }

  /** The value was passed to shortTermCacheSet for this site and key. */
  predicate WasShortSet(ops: seq<Op>, site: Site, key: string, value: string) {
    exists i :: 0 <= i < |ops| && ops[i].ShortSet? && ops[i].site == site && ops[i].key == key && ops[i].value == value
  }

  /** After any run from empty stores on these sites, a non-empty shortTermCacheGet answer was set for
      the same site and key. */
  ghost predicate ShortAnswersWereSet(sites: set<Site>) {
    forall ops: seq<Op>, get: Op :: OpsOn(ops, sites) && get.ShortGet? && get.site in sites ==>
      var answer := Answer(After(State(map[], map[]), ops), get);
      answer != "" ==> WasShortSet(ops, get.site, get.key, answer)
  }

  lemma {:induction false} ShortRunsAreHonest(ops: seq<Op>, sites: set<Site>, site: Site, key: string)
    requires ShortApart(sites) && OpsOn(ops, sites) && site in sites
    ensures var v := After(State(map[], map[]), ops).Mem(ShortKey(site, key));
            v != "" ==> WasShortSet(ops, site, key, v)
  {
    if ops != [] {
      var before, last := ops[..|ops| - 1], ops[|ops| - 1];
      var s := After(State(map[], map[]), before);
      ShortRunsAreHonest(before, sites, site, key);
      if !last.Evict? && !last.LongEmpty? && !last.Sweep? {
        ShortApartKeys(sites, site, key, last.site, last.key);
      }
      var v := s.Mem(ShortKey(site, key));
      if i :| 0 <= i < |before| && before[i].ShortSet? && before[i].site == site && before[i].key == key
              && before[i].value == v {
        assert ops[i] == before[i];
      }
      assert ops[|before|] == last;
    }
  }

  /** Two sites whose keys meet: a value of one is answered to the other. */
  lemma ShortClashIsAnswered(sites: set<Site>) returns (op: Op, get: Op)
    requires !ShortApart(sites)
    ensures OpOn(op, sites) && get.ShortGet? && get.site in sites
    ensures Answer(Next(State(map[], map[]), op), get) == "v" && !WasShortSet([op], get.site, get.key, "v")
  {
    var a, b :| a in sites && b in sites
                && (Clash(ShortHead(a), LongHead(b)) || (a != b && Clash(ShortHead(a), ShortHead(b))));
    if Clash(ShortHead(a), LongHead(b)) {
      HeadsMeetExactly(ShortHead(a), LongHead(b));
      var k: string, l: string :| ShortHead(a) + k == LongHead(b) + l;
      op, get := LongSet(b, l, "v", Stored, true), ShortGet(a, k, true);
    } else {
      HeadsMeetExactly(ShortHead(a), ShortHead(b));
      var k: string, l: string :| ShortHead(a) + k == ShortHead(b) + l;
      op, get := ShortSet(b, l, "v", true), ShortGet(a, k, true);
    }
  }

  lemma ShortAnswersWereSetExactly(sites: set<Site>)
    ensures ShortAnswersWereSet(sites) <==> ShortApart(sites)
  {
    if ShortApart(sites) {
      forall ops: seq<Op>, get: Op | OpsOn(ops, sites) && get.ShortGet? && get.site in sites
        ensures var answer := Answer(After(State(map[], map[]), ops), get);
                answer != "" ==> WasShortSet(ops, get.site, get.key, answer)
      {
        ShortRunsAreHonest(ops, sites, get.site, get.key);
      }
    } else {
      var op, get := ShortClashIsAnswered(sites);
      RunOfOne(op);
      assert OpsOn([op], sites);
    }
  }

  // ---------- Rows ----------

  /** The statements of this call write or delete this row. */
  predicate TouchesRow(op: Op, site: Site, key: string) {
    match op
    case LongSet(s, k, _, write, _) => s == site && k == key && !write.Nothing?
    case LongDelete(s, k, sqlDelete, _) => s == site && k == key && sqlDelete
    case LongEmpty(s, sqlDelete) => s == site && sqlDelete
    case Sweep(s, expired) => s == site && key in expired
    case _ => false
  }

  lemma {:induction false} RowStays(s: State, ops: seq<Op>, site: Site, key: string)
    requires forall i :: 0 <= i < |ops| ==> !TouchesRow(ops[i], site, key)
    ensures After(s, ops).Row(site, key) == s.Row(site, key)
  {
    if ops != [] {
      RowStays(s, ops[..|ops| - 1], site, key);
      assert !TouchesRow(ops[|ops| - 1], site, key);
    }
  }

  /** What a get answers that does not ask memcache, after a call that wrote or deleted the row. */
  lemma LastWriteIsRead(s: State, op: Op, ops: seq<Op>, site: Site, key: string, memSet: bool)
    requires TouchesRow(op, site, key) && forall i :: 0 <= i < |ops| ==> !TouchesRow(ops[i], site, key)
    ensures Answer(After(Next(s, op), ops), LongGet(site, key, false, true, true, memSet)) ==
              if op.LongSet? && op.write.Stored? then op.value else ""
  {
    RowStays(Next(s, op), ops, site, key);
  }
}
