/** The rewriting pass over a whole query (cpp/query.cpp:83-98): split at quotes, rewrite every
    other part, refuse double slashes, join again. */
module QueryRewriting {
  import opened Alternation
  import opened Wrappers
  import opened IdRule
  import opened MarkRules
  import opened Paths

  datatype Error = DoubleSlash

  // ---------- One part ----------

  /** None of the five patterns matches. */
  ghost predicate Settled(s: string) {
    !HasId(s) && forall rule :: !Matches(rule, s)
  }

  function Rewritten(part: string): string {
    Exhaust(BeforeBracket, Exhaust(BeforeWord, Exhaust(AfterWord, Exhaust(Bracket, RewriteIds(part)))))
  }

  method RewritePart(part: string) returns (r: string)
    ensures r == Rewritten(part)
  {
    r := ReplaceIds(part);
    r := ReplaceUntilNoMatch(Bracket, r);
    r := ReplaceUntilNoMatch(AfterWord, r);
    r := ReplaceUntilNoMatch(BeforeWord, r);
    r := ReplaceUntilNoMatch(BeforeBracket, r);
  }

  /** After the five loops have run in order none of their patterns matches; on a part where
      none matches they change nothing. */
  lemma RewrittenIsSettled(part: string)
    ensures Settled(Rewritten(part))
    ensures Settled(part) ==> Rewritten(part) == part
  {
    IdsGone(part);
    var s1 := Exhaust(Bracket, RewriteIds(part));
    var s2 := Exhaust(AfterWord, s1);
    var s3 := Exhaust(BeforeWord, s2);
    ExhaustLeavesNone(Bracket, RewriteIds(part));
    ExhaustLeavesNone(AfterWord, s1);
    ExhaustLeavesNone(BeforeWord, s2);
    ExhaustLeavesNone(BeforeBracket, s3);
    forall rule ensures !Matches(rule, Rewritten(part)) {
      match rule
      case Bracket =>
      case AfterWord =>
      case BeforeWord =>
      case BeforeBracket =>
    }
    if Settled(part) {
      NoIdsUnchanged(part);
    }
  }

  /** Running the five loops again changes nothing. */
  lemma RewritingTwice(part: string)
    ensures Rewritten(Rewritten(part)) == Rewritten(part)
  {
    RewrittenIsSettled(part);
    RewrittenIsSettled(Rewritten(part));
  }

  /** Apart from the "/text()"s, the result is the part with its ids rewritten. */
  lemma RewritingOnlyMarks(part: string)
    ensures Unmarked(Rewritten(part)) == Unmarked(RewriteIds(part))
  {
    var s1 := Exhaust(Bracket, RewriteIds(part));
    var s2 := Exhaust(AfterWord, s1);
    ExhaustOnlyMarks(Bracket, RewriteIds(part));
    ExhaustOnlyMarks(AfterWord, s1);
    ExhaustOnlyMarks(BeforeWord, s2);
    ExhaustOnlyMarks(BeforeBracket, Exhaust(BeforeWord, s2));
  }

  // ---------- The whole query ----------

  predicate HasDoubleSlash(s: string) {
    exists i :: 0 <= i < |s| - 1 && s[i] == '/' && s[i + 1] == '/'
  }

  /** f applied to every other part, beginning with the first if `here` says so. */
  function EveryOther(f: string -> string, parts: seq<string>, here: bool): (r: seq<string>)
    ensures |r| == |parts|
    decreases |parts|
  {
    if parts == [] then []
    else [if here then f(parts[0]) else parts[0]] + EveryOther(f, parts[1..], !here)
  }

  lemma {:induction false} EveryOtherAt(f: string -> string, parts: seq<string>, here: bool, k: nat)
    requires k < |parts|
    ensures EveryOther(f, parts, here)[k] == if IsTurn(k, here) then f(parts[k]) else parts[k]
    decreases k
  {
    if k > 0 {
      EveryOtherAt(f, parts[1..], !here, k - 1);
    }
  }

  /** Some unquoted part, after rewriting, has a double slash. */
  predicate SlashesRefused(rewritten: seq<string>) {
    exists k :: 0 <= k < |rewritten| && IsTurn(k, true) && HasDoubleSlash(rewritten[k])
  }

  function RewriteQuery(query: string): Result<string, Error> {
    var rewritten := EveryOther(Rewritten, Split(query, '\''), true);
    if SlashesRefused(rewritten) then Err(DoubleSlash) else Ok(Join(rewritten, '\''))
  }

  /** The loop has reached position i without refusing anything. */
  ghost predicate RewrittenUpTo(parts: seq<string>, current: seq<string>, target: seq<string>, i: nat) {
    && |current| == |target| == |parts|
    && IsTurn(i, true)
    && (forall k :: 0 <= k < |parts| ==> current[k] == if k < i then target[k] else parts[k])
    && (forall k :: 0 <= k < |parts| && k < i && IsTurn(k, true) ==> !HasDoubleSlash(target[k]))
  }

  lemma RewrittenStep(parts: seq<string>, current: seq<string>, target: seq<string>, i: nat)
    requires RewrittenUpTo(parts, current, target, i) && i < |parts| && !HasDoubleSlash(target[i])
    requires i + 1 < |parts| ==> target[i + 1] == parts[i + 1]
    ensures RewrittenUpTo(parts, current[i := target[i]], target, i + 2)
  {
    IsTurnFlips(i, true);
    assert IsTurn(i + 1, true) == IsTurn(i, false) && IsTurn(i + 2, true) == IsTurn(i + 1, false);
    assert IsTurn(i + 1, false) == IsTurn(i, true);
  }

  lemma RewrittenAll(parts: seq<string>, current: seq<string>, target: seq<string>, i: nat)
    requires RewrittenUpTo(parts, current, target, i) && i >= |parts|
    ensures current == target && !SlashesRefused(target)
  {
  }

  /** The loop over the parts; the ghost argument says what becomes of them. */
  method RewriteEveryOther(parts: seq<string>, ghost target: seq<string>) returns (r: Result<seq<string>, Error>)
    requires target == EveryOther(Rewritten, parts, true)
    ensures r == if SlashesRefused(target) then Err(DoubleSlash) else Ok(target)
  {
    var queryParts := parts;
    var i := 0;
    while i < |queryParts|
      invariant 0 <= i && RewrittenUpTo(parts, queryParts, target, i)
      decreases |parts| - i
    {
      EveryOtherPair(parts, i);
      var part := RewritePart(queryParts[i]);
      if HasDoubleSlash(part) {
        return Err(DoubleSlash);
      }
      RewrittenStep(parts, queryParts, target, i);
      queryParts := queryParts[i := part];
      i := i + 2;
    }
    RewrittenAll(parts, queryParts, target, i);
    r := Ok(queryParts);
  }

  lemma EveryOtherPair(parts: seq<string>, i: nat)
    requires i < |parts| && IsTurn(i, true)
    ensures EveryOther(Rewritten, parts, true)[i] == Rewritten(parts[i])
    ensures i + 1 < |parts| ==> EveryOther(Rewritten, parts, true)[i + 1] == parts[i + 1]
  {
    EveryOtherAt(Rewritten, parts, true, i);
    if i + 1 < |parts| {
      IsTurnFlips(i, true);
      EveryOtherAt(Rewritten, parts, true, i + 1);
    }
  }

  /** Parts inside quotes pass through unchanged, the others are rewritten. */
  method RewriteParts(query: string) returns (r: Result<string, Error>)
    ensures r == RewriteQuery(query)
  {
    var queryParts := Split(query, '\'');
    var rewritten := RewriteEveryOther(queryParts, EveryOther(Rewritten, queryParts, true));
    if rewritten.Err? {
      return Err(rewritten.error);
    }
    r := Ok(Join(rewritten.value, '\''));
  }

  // ---------- The whole pass is idempotent ----------

  /** A piece that a settled part is cut into at quotes is settled. */
  ghost predicate Calm(s: string) {
    Settled(s) && !HasDoubleSlash(s)
  }

  lemma DoubleSlashExtends(a: string, b: string)
    ensures HasDoubleSlash(a) || HasDoubleSlash(b) ==> HasDoubleSlash(a + b)
  {
    var s := a + b;
    if i :| 0 <= i < |a| - 1 && a[i] == '/' && a[i + 1] == '/' {
      assert s[i] == '/' && s[i + 1] == '/';
    } else if i :| 0 <= i < |b| - 1 && b[i] == '/' && b[i + 1] == '/' {
      assert s[|a| + i] == '/' && s[|a| + i + 1] == '/';
    }
  }

  lemma IdExtends(a: string, b: string)
    ensures HasId(a) || HasId(b) ==> HasId(a + b)
  {
    if p :| 0 <= p < |a| && IdAt(a, p) {
      assert IdAt(a + b, p);
    } else if p :| 0 <= p < |b| && IdAt(b, p) {
      assert IdAt(a + b, |a| + p);
    }
  }

  /** Cutting a calm string in two leaves calm pieces. */
  lemma CalmPieces(a: string, b: string)
    requires Calm(a + b)
    ensures Calm(a) && Calm(b)
  {
    DoubleSlashExtends(a, b);
    IdExtends(a, b);
    forall rule ensures !Matches(rule, a) && !Matches(rule, b) {
      if Matches(rule, a) {
        MatchInFront(rule, a, b);
      }
      if Matches(rule, b) {
        MatchBehindPrefix(rule, a, b);
      }
    }
  }

  lemma WordInFront(a: string, b: string, p: nat)
    requires p < |a|
    ensures WordLength(a, p) > 0 ==> WordLength(a + b, p) == WordLength(a, p)
  {
    if WordAt(a, p, " or ") {
      assert (a + b)[p..p + 4] == a[p..p + 4];
    } else if WordAt(a, p, " and ") {
      assert (a + b)[p..p + 5] == a[p..p + 5];
      assert (a + b)[p + 1] == a[p..p + 5][1] == 'a';
      assert (a + b)[p..p + 4][1] == 'a';
    }
  }

  lemma MatchAtInFront(rule: Rule, a: string, b: string, p: nat, q: nat)
    requires MatchAt(rule, a, p, q)
    ensures MatchAt(rule, a + b, p, q)
  {
    WordInFront(a, b, p);
    WordInFront(a, b, q);
    assert forall i :: 0 <= i < |a| ==> (a + b)[i] == a[i];
  }

  lemma MatchInFront(rule: Rule, a: string, b: string)
    requires Matches(rule, a)
    ensures Matches(rule, a + b)
  {
    var p :| 0 <= p < |a| && MatchFrom(rule, a, p);
    var q :| p < q < |a| && MatchAt(rule, a, p, q);
    MatchAtInFront(rule, a, b, p, q);
    assert MatchFrom(rule, a + b, p);
  }

  lemma MatchBehindPrefix(rule: Rule, a: string, b: string)
    requires Matches(rule, b)
    ensures Matches(rule, a + b)
  {
    var p :| 0 <= p < |b| && MatchFrom(rule, b, p);
    var q :| p < q < |b| && MatchAt(rule, b, p, q);
    MatchShifts(rule, a, b, p, q);
    assert MatchFrom(rule, a + b, |a| + p);
  }

  lemma MatchShifts(rule: Rule, a: string, b: string, p: nat, q: nat)
    requires MatchAt(rule, b, p, q)
    ensures MatchAt(rule, a + b, |a| + p, |a| + q)
  {
    var s, n := a + b, NameStart(rule, b, p);
    assert s[|a| + p] == b[p] && s[|a| + q] == b[q];
    WordBehindPrefix(a, b, p);
    WordBehindPrefix(a, b, q);
    assert NameStart(rule, s, |a| + p) == |a| + n;
    forall i | |a| + n <= i < |a| + q ensures s[i] == b[i - |a|] {
    }
    forall i | |a| + n < i < |a| + q ensures IsName(s[i]) {
      assert IsName(b[i - |a|]);
    }
  }

  lemma WordBehindPrefix(a: string, b: string, p: nat)
    requires p < |b|
    ensures WordLength(a + b, |a| + p) == WordLength(b, p)
  {
    if p + 4 <= |b| {
      assert (a + b)[|a| + p..|a| + p + 4] == b[p..p + 4];
    }
    if p + 5 <= |b| {
      assert (a + b)[|a| + p..|a| + p + 5] == b[p..p + 5];
    }
  }

  lemma {:induction false} SplitCalm(s: string)
    requires Calm(s)
    ensures forall k :: 0 <= k < |Split(s, '\'')| ==> Calm(Split(s, '\'')[k])
    decreases |s|
  {
    if i :| 0 <= i < |s| && s[i] == '\'' {
      var a, b := s[..i], s[i + 1..];
      assert s == a + (['\''] + b) == a + ['\''] + b;
      CalmPieces(a, ['\''] + b);
      CalmPieces(['\''], b);
      SplitCalm(a);
      SplitCalm(b);
      SplitConcat(a, b, '\'');
    } else {
      SplitFree(s, '\'');
    }
  }

  // ---------- Rewriting an unquoted part adds quotes in pairs ----------

  predicate EvenQuotes(s: string) {
    s == "" || (s[0] == '\'') != EvenQuotes(s[1..])
  }

  lemma {:induction false} EvenQuotesConcat(a: string, b: string)
    ensures EvenQuotes(a + b) <==> (EvenQuotes(a) == EvenQuotes(b))
  {
    if a == "" {
      assert a + b == b;
    } else {
      assert (a + b)[1..] == a[1..] + b;
      EvenQuotesConcat(a[1..], b);
    }
  }

  lemma {:induction false} FreeIsEven(s: string)
    requires Free(s, '\'')
    ensures EvenQuotes(s)
  {
    if s != "" {
      FreeIsEven(s[1..]);
    }
  }

  lemma IdTestIsEven(digits: string)
    requires Free(digits, '\'')
    ensures EvenQuotes(IdTest(digits))
  {
    FreeIsEven(digits);
    FreeIsEven("[@id=");
    EvenQuotesConcat("[@id=", "'");
    assert "[@id='" == "[@id=" + "'";
    assert "'"[1..] == "" && "']"[1..] == "]" && "]"[1..] == "";
    EvenQuotesConcat("[@id='", digits);
    EvenQuotesConcat("[@id='" + digits, "']");
  }

  lemma {:induction false} RewriteIdsEven(s: string)
    requires Free(s, '\'')
    ensures EvenQuotes(RewriteIds(s))
  {
    if s != "" {
      var n := IdLength(s);
      RewriteIdsEven(s[n..]);
      if IdAt(s, 0) {
        IdTestIsEven(s[1..n]);
      } else {
        FreeIsEven([s[0]]);
      }
      EvenQuotesConcat(IdStep(s), RewriteIds(s[n..]));
    }
  }

  lemma {:induction false} ExhaustEven(rule: Rule, s: string)
    ensures EvenQuotes(Exhaust(rule, s)) == EvenQuotes(s)
    decreases OpenEnds(s)
  {
    var first := FirstMatch(rule, s);
    if first.Some? {
      var q := first.value;
      FirstMatchIsOpen(rule, s);
      InsertClosesOneEnd(s, q);
      InsertEven(s, q);
      ExhaustEven(rule, Insert(s, q));
    }
  }

  lemma InsertEven(s: string, q: nat)
    requires q <= |s|
    ensures EvenQuotes(Insert(s, q)) == EvenQuotes(s)
  {
    FreeIsEven(MARK);
    EvenQuotesConcat(s[..q], MARK);
    EvenQuotesConcat(s[..q] + MARK, s[q..]);
    EvenQuotesConcat(s[..q], s[q..]);
    assert s == s[..q] + s[q..];
  }

  lemma RewrittenIsEven(part: string)
    requires Free(part, '\'')
    ensures EvenQuotes(Rewritten(part))
  {
    var s1 := Exhaust(Bracket, RewriteIds(part));
    var s2 := Exhaust(AfterWord, s1);
    RewriteIdsEven(part);
    ExhaustEven(Bracket, RewriteIds(part));
    ExhaustEven(AfterWord, s1);
    ExhaustEven(BeforeWord, s2);
    ExhaustEven(BeforeBracket, Exhaust(BeforeWord, s2));
  }

  /** A string with an even number of quotes is cut into an odd number of pieces. */
  lemma {:induction false} EvenQuotesPieces(s: string, here: bool)
    ensures IsTurn(|Split(s, '\'')|, here) == if EvenQuotes(s) then !here else here
    decreases |s|
  {
    if s != "" {
      EvenQuotesPieces(s[1..], if s[0] == '\'' then !here else here);
    }
  }

  // ---------- A second pass changes nothing ----------

  /** Every piece at a position that the pass rewrites is calm. */
  ghost predicate CalmWhereRewritten(pieces: seq<string>, here: bool) {
    forall k :: 0 <= k < |pieces| && IsTurn(k, here) ==> Calm(pieces[k])
  }

  lemma CalmConcat(a: seq<string>, b: seq<string>, here: bool)
    requires CalmWhereRewritten(a, here) && CalmWhereRewritten(b, IsTurn(|a|, here))
    ensures CalmWhereRewritten(a + b, here)
  {
    forall k | 0 <= k < |a + b| && IsTurn(k, here) ensures Calm((a + b)[k]) {
      if k >= |a| {
        TurnsAdd(|a|, k - |a|, here);
      }
    }
  }

  lemma {:induction false} TurnsAdd(m: nat, n: nat, here: bool)
    ensures IsTurn(m + n, here) == IsTurn(n, IsTurn(m, here))
    decreases m
  {
    if m > 0 {
      TurnsAdd(m - 1, n, !here);
    }
  }

  /** Splitting the joined result again: what lies at rewritten positions is calm. */
  lemma {:induction false} OutputIsCalm(parts: seq<string>, here: bool)
    requires parts != [] && forall k :: 0 <= k < |parts| ==> Free(parts[k], '\'')
    requires forall k :: 0 <= k < |parts| && IsTurn(k, here) ==> !HasDoubleSlash(EveryOther(Rewritten, parts, here)[k])
    ensures CalmWhereRewritten(Split(Join(EveryOther(Rewritten, parts, here), '\''), '\''), here)
    decreases |parts|
  {
    var out := EveryOther(Rewritten, parts, here);
    var head, rest := out[0], EveryOther(Rewritten, parts[1..], !here);
    HeadPieces(parts[0], here, head);
    if |parts| == 1 {
      assert out == [head];
    } else {
      forall k | 0 <= k < |parts| - 1 && IsTurn(k, !here) ensures !HasDoubleSlash(rest[k]) {
        assert IsTurn(k + 1, here) && out[k + 1] == rest[k];
      }
      OutputIsCalm(parts[1..], !here);
      assert out[1..] == rest;
      SplitConcat(head, Join(rest, '\''), '\'');
      CalmConcat(Split(head, '\''), Split(Join(rest, '\''), '\''), here);
    }
  }

  lemma HeadPieces(part: string, here: bool, head: string)
    requires Free(part, '\'') && head == (if here then Rewritten(part) else part)
    requires here ==> !HasDoubleSlash(head)
    ensures CalmWhereRewritten(Split(head, '\''), here)
    ensures IsTurn(|Split(head, '\'')|, here) == !here
  {
    if here {
      RewrittenIsSettled(part);
      SplitCalm(head);
      RewrittenIsEven(part);
      EvenQuotesPieces(head, here);
    } else {
      SplitFree(head, '\'');
      assert !IsTurn(0, here) && IsTurn(1, here) == !here;
    }
  }

  lemma {:induction false} CalmUnchanged(pieces: seq<string>, here: bool)
    requires CalmWhereRewritten(pieces, here)
    ensures EveryOther(Rewritten, pieces, here) == pieces
    decreases |pieces|
  {
    if pieces != [] {
      forall k | 0 <= k < |pieces| - 1 && IsTurn(k, !here) ensures Calm(pieces[1..][k]) {
        assert IsTurn(k + 1, here);
      }
      CalmUnchanged(pieces[1..], !here);
      if here {
        assert IsTurn(0, here);
        RewrittenIsSettled(pieces[0]);
      }
    }
  }

  /** A query that passes is left alone by a second pass, although the id tests that the first
      one wrote have brought new quotes. */
  lemma PassIsIdempotent(query: string)
    requires RewriteQuery(query).Ok?
    ensures RewriteQuery(RewriteQuery(query).value) == RewriteQuery(query)
  {
    var parts := Split(query, '\'');
    var r := RewriteQuery(query).value;
    SplitPiecesFree(query, '\'');
    OutputIsCalm(parts, true);
    var pieces := Split(r, '\'');
    CalmUnchanged(pieces, true);
    JoinSplit(r, '\'');
    assert !SlashesRefused(pieces);
  }
}
