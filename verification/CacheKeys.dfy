/** The memcache keys of cpp/vae_db_handler.cpp:281, 297, 312, 369, 392 and 408: a head made of the
    site's name, then the caller's key. Nothing restricts the characters of either. */
module CacheKeys {
  import opened Paths

  type Site = string

  const PREFIX := "VaedbProxy:"
  const LONG_TERM := "LongTerm2"

  function ShortHead(site: Site): string {
    PREFIX + site + ":"
  }

  function LongHead(site: Site): string {
    PREFIX + site + LONG_TERM + ":"
  }

  function ShortKey(site: Site, key: string): string {
    ShortHead(site) + key
  }

  function LongKey(site: Site, key: string): string {
    LongHead(site) + key
  }

  /** One head is a prefix of the other, or they are the same. */
  predicate Clash(h: string, g: string) {
    h <= g || g <= h
  }

  /** Two heads can be completed to the same memcache key exactly if they clash. */
  lemma HeadsMeetExactly(h: string, g: string)
    ensures (exists k: string, l: string :: h + k == g + l) <==> Clash(h, g)
  {
    if k: string, l: string :| h + k == g + l {
      SameKey(h, k, g, l);
    }
    if h <= g {
      assert h + g[|h|..] == g + "";
    } else if g <= h {
      assert h + "" == g + h[|g|..];
    }
  }

  lemma SameKey(h: string, k: string, g: string, l: string)
    requires h + k == g + l
    ensures Clash(h, g)
    ensures h == g ==> k == l
  {
    var s := h + k;
    assert s[..|h|] == h && s[..|g|] == g && s[|h|..] == k && s[|g|..] == l;
    if |h| <= |g| {
      assert g[..|h|] == s[..|g|][..|h|] == h;
    } else {
      assert h[..|g|] == s[..|h|][..|g|] == g;
    }
  }

  /** The long-term calls of this site can use this memcache key. */
  predicate Uses(site: Site, memKey: string) {
    LongHead(site) <= memKey
  }

  /** The caller's key with which they do. */
  function KeyOf(site: Site, memKey: string): string
    requires Uses(site, memKey)
  {
    memKey[|LongHead(site)|..]
  }

  lemma UsesExactly(site: Site, key: string, memKey: string)
    ensures LongKey(site, key) == memKey <==> Uses(site, memKey) && KeyOf(site, memKey) == key
  {
    if Uses(site, memKey) {
      assert memKey == LongHead(site) + KeyOf(site, memKey);
    }
    assert LongKey(site, key)[..|LongHead(site)|] == LongHead(site);
    assert LongKey(site, key)[|LongHead(site)|..] == key;
  }

  /** No two calls of these sites can meet in a memcache key, unless both are short-term calls, or
      long-term calls of one site. */
  predicate Apart(sites: set<Site>) {
    forall a, b :: a in sites && b in sites ==>
      !Clash(ShortHead(a), LongHead(b)) && (a != b ==> !Clash(LongHead(a), LongHead(b)))
  }

  lemma ApartKeys(sites: set<Site>, a: Site, k: string, b: Site)
    requires Apart(sites) && a in sites && b in sites
    ensures !Uses(b, ShortKey(a, k))
    ensures Uses(b, LongKey(a, k)) ==> b == a
  {
    if Uses(b, ShortKey(a, k)) {
      UsesExactly(b, KeyOf(b, ShortKey(a, k)), ShortKey(a, k));
      SameKey(ShortHead(a), k, LongHead(b), KeyOf(b, ShortKey(a, k)));
    }
    if Uses(b, LongKey(a, k)) {
      UsesExactly(b, KeyOf(b, LongKey(a, k)), LongKey(a, k));
      SameKey(LongHead(a), k, LongHead(b), KeyOf(b, LongKey(a, k)));
    }
  }

  // ---------- Sites without ':' ----------

  lemma SplitAtColon(a: string, k: string, b: string, l: string)
    requires Free(a, ':') && Free(b, ':') && PREFIX + a + ":" + k == PREFIX + b + ":" + l
    ensures a == b && k == l
  {
    var s, t := a + ":" + k, b + ":" + l;
    assert s == (PREFIX + a + ":" + k)[|PREFIX|..] && t == (PREFIX + b + ":" + l)[|PREFIX|..];
    assert s[|a|] == ':' && t[|b|] == ':';
    assert forall i :: 0 <= i < |a| ==> s[i] == a[i];
    assert forall i :: 0 <= i < |b| ==> t[i] == b[i];
    assert |a| == |b|;
    assert a == s[..|a|] && b == t[..|b|] && k == s[|a| + 1..] && l == t[|b| + 1..];
  }

  lemma LongHeadIsShortHead(site: Site)
    ensures LongHead(site) == ShortHead(site + LONG_TERM)
    ensures Free(site, ':') ==> Free(site + LONG_TERM, ':')
  {
    assert PREFIX + site + LONG_TERM == PREFIX + (site + LONG_TERM);
  }

  /** Exactly when two calls of sites without ':' use the same memcache key. */
  lemma KeysCollideExactly(a: Site, k: string, b: Site, l: string)
    requires Free(a, ':') && Free(b, ':')
    ensures ShortKey(a, k) == ShortKey(b, l) <==> a == b && k == l
    ensures LongKey(a, k) == LongKey(b, l) <==> a == b && k == l
    ensures ShortKey(a, k) == LongKey(b, l) <==> a == b + LONG_TERM && k == l
  {
    LongHeadIsShortHead(a);
    LongHeadIsShortHead(b);
    if ShortKey(a, k) == ShortKey(b, l) {
      SplitAtColon(a, k, b, l);
    }
    if LongKey(a, k) == LongKey(b, l) {
      SplitAtColon(a + LONG_TERM, k, b + LONG_TERM, l);
      assert a == (a + LONG_TERM)[..|a|] && b == (b + LONG_TERM)[..|b|];
    }
    if ShortKey(a, k) == LongKey(b, l) {
      SplitAtColon(a, k, b + LONG_TERM, l);
    }
  }

  lemma HeadsOfColonFree(a: Site, b: Site)
    requires Free(a, ':') && Free(b, ':')
    ensures Clash(ShortHead(a), LongHead(b)) <==> a == b + LONG_TERM
    ensures Clash(LongHead(a), LongHead(b)) <==> a == b
  {
    HeadsMeetExactly(ShortHead(a), LongHead(b));
    HeadsMeetExactly(LongHead(a), LongHead(b));
    if k: string, l: string :| ShortHead(a) + k == LongHead(b) + l {
      KeysCollideExactly(a, k, b, l);
    }
    if k: string, l: string :| LongHead(a) + k == LongHead(b) + l {
      KeysCollideExactly(a, k, b, l);
    }
    LongHeadIsShortHead(b);
  }

  /** Sites without ':' are apart exactly if none is called like another one and "LongTerm2". */
  lemma ColonFreeApartExactly(sites: set<Site>)
    requires forall a :: a in sites ==> Free(a, ':')
    ensures Apart(sites) <==> forall a, b :: a in sites && b in sites ==> a != b + LONG_TERM
  {
    forall a, b | a in sites && b in sites
      ensures Clash(ShortHead(a), LongHead(b)) <==> a == b + LONG_TERM
      ensures Clash(LongHead(a), LongHead(b)) <==> a == b
    {
      HeadsOfColonFree(a, b);
    }
  }
}
