/** The first of the five rewriting loops that Query::Query runs over an unquoted part of a query
    (cpp/query.cpp:87): "/<digits>" becomes an id test. */
module IdRule {
  import opened Characters
  import opened Wrappers

  function DigitRun(s: string): (n: nat)
    ensures n <= |s|
    ensures forall i :: 0 <= i < n ==> IsDigit(s[i])
    ensures n < |s| ==> !IsDigit(s[n])
  {
    if s != "" && IsDigit(s[0]) then 1 + DigitRun(s[1..]) else 0
  }

  predicate IdAt(s: string, p: nat) {
    p + 1 < |s| && s[p] == '/' && IsDigit(s[p + 1])
  }

  predicate HasId(s: string) {
    exists p :: 0 <= p < |s| && IdAt(s, p)
  }

  function IdTest(digits: string): string {
    "[@id='" + digits + "']"
  }

  /** How much of a part its first step reads, and what that becomes. */
  function IdLength(s: string): (n: nat)
    requires s != ""
    ensures 1 <= n <= |s|
  {
    if IdAt(s, 0) then 1 + DigitRun(s[1..]) else 1
  }

  function IdStep(s: string): string
    requires s != ""
  {
    if IdAt(s, 0) then IdTest(s[1..IdLength(s)]) else [s[0]]
  }

  /** One reading of the part from left to right: every "/<digits>" is replaced. */
  function RewriteIds(s: string): string {
    if s == "" then "" else IdStep(s) + RewriteIds(s[IdLength(s)..])
  }

  lemma Assoc(a: string, b: string, c: string)
    ensures a + b + c == a + (b + c)
  {
  }

  function Slashes(s: string): nat {
    if s == "" then 0 else (if s[0] == '/' then 1 else 0) + Slashes(s[1..])
  }

  lemma {:induction false} SlashesConcat(a: string, b: string)
    ensures Slashes(a + b) == Slashes(a) + Slashes(b)
  {
    if a == "" {
      assert a + b == b;
    } else {
      assert (a + b)[1..] == a[1..] + b;
      SlashesConcat(a[1..], b);
    }
  }

  lemma {:induction false} NoSlashes(s: string)
    requires forall i :: 0 <= i < |s| ==> s[i] != '/'
    ensures Slashes(s) == 0 && RewriteIds(s) == s
  {
    if s != "" {
      NoSlashes(s[1..]);
      assert s == [s[0]] + s[1..];
    }
  }

  /** What follows a point that does not cut a number can be rewritten on its own. */
  lemma {:induction false} RewriteIdsConcat(a: string, b: string)
    requires b == "" || !IsDigit(b[0])
    ensures RewriteIds(a + b) == RewriteIds(a) + RewriteIds(b)
  {
    if a == "" {
      assert a + b == b;
    } else {
      IdStepConcat(a, b);
      var n := IdLength(a);
      RewriteIdsConcat(a[n..], b);
      Assoc(IdStep(a), RewriteIds(a[n..]), RewriteIds(b));
    }
  }

  lemma IdStepConcat(a: string, b: string)
    requires a != "" && (b == "" || !IsDigit(b[0]))
    ensures IdLength(a + b) == IdLength(a) && IdStep(a + b) == IdStep(a)
    ensures (a + b)[IdLength(a)..] == a[IdLength(a)..] + b
  {
    DigitRunConcat(a[1..], b);
    assert (a + b)[1..] == a[1..] + b;
    assert (a + b)[0] == a[0] && (|a| > 1 ==> (a + b)[1] == a[1]);
    assert IdAt(a + b, 0) == IdAt(a, 0);
    var n := IdLength(a);
    assert (a + b)[1..n] == a[1..n] && (a + b)[n..] == a[n..] + b;
  }

  lemma {:induction false} DigitRunConcat(a: string, b: string)
    requires b == "" || !IsDigit(b[0])
    ensures DigitRun(a + b) == DigitRun(a)
  {
    if a == "" {
      assert a + b == b;
    } else {
      assert (a + b)[1..] == a[1..] + b;
      DigitRunConcat(a[1..], b);
    }
  }

  lemma {:induction false} NoIdsUnchanged(s: string)
    requires !HasId(s)
    ensures RewriteIds(s) == s
  {
    if s != "" {
      forall p | 0 <= p < |s| - 1 ensures !IdAt(s[1..], p) {
        assert !IdAt(s, p + 1);
      }
      NoIdsUnchanged(s[1..]);
      assert !IdAt(s, 0) && s == [s[0]] + s[1..];
    }
  }

  function FirstId(s: string): (p: Option<nat>)
    ensures p.Some? ==> IdAt(s, p.value) && forall i :: 0 <= i < p.value ==> !IdAt(s, i)
    ensures p.None? ==> !HasId(s)
  {
    if exists p :: 0 <= p < |s| && IdAt(s, p) then Some(LeastId(s, 0)) else None
  }

  function LeastId(s: string, from: nat): (p: nat)
    requires exists p :: from <= p < |s| && IdAt(s, p)
    ensures IdAt(s, p) && forall i :: from <= i < p ==> !IdAt(s, i)
    decreases |s| - from
  {
    if IdAt(s, from) then from else LeastId(s, from + 1)
  }

  /** RE::Replace with the first pattern: the leftmost match, if any, is replaced. */
  function ReplaceId(s: string): Option<string> {
    match FirstId(s)
    case None => None
    case Some(p) =>
      var n := p + 1 + DigitRun(s[p + 1..]);
      Some(s[..p] + IdTest(s[p + 1..n]) + s[n..])
  }

  lemma CutAround(s: string, p: nat, n: nat)
    requires p + 1 + n <= |s|
    ensures s[p + 1..p + 1 + n] == s[p + 1..][..n] && s[p + 1 + n..] == s[p + 1..][n..]
    ensures s == s[..p] + ([s[p]] + s[p + 1..][..n] + s[p + 1..][n..])
  {
  }

  /** What ReplaceId finds and puts in its place. */
  lemma ReplaceIdParts(s: string) returns (pre: string, digits: string, rest: string)
    requires ReplaceId(s).Some?
    ensures digits != "" && AllDigits(digits) && (rest == "" || !IsDigit(rest[0]))
    ensures s == pre + ("/" + digits + rest)
    ensures ReplaceId(s).value == pre + (IdTest(digits) + rest)
  {
    var p := FirstId(s).value;
    var tail := s[p + 1..];
    var n := DigitRun(tail);
    pre, digits, rest := s[..p], tail[..n], tail[n..];
    CutAround(s, p, n);
    Assoc(pre, IdTest(digits), rest);
  }

  lemma ReplaceIdStep(s: string)
    requires ReplaceId(s).Some?
    ensures Slashes(ReplaceId(s).value) < Slashes(s)
    ensures RewriteIds(ReplaceId(s).value) == RewriteIds(s)
  {
    var pre, digits, rest := ReplaceIdParts(s);
    ReplacedIds(pre, digits, rest);
    ReplacedSlashes(pre, digits, rest);
  }

  lemma ReplacedIds(pre: string, digits: string, rest: string)
    requires digits != "" && AllDigits(digits) && (rest == "" || !IsDigit(rest[0]))
    ensures RewriteIds(pre + ("/" + digits + rest)) == RewriteIds(pre + (IdTest(digits) + rest))
  {
    var found, test := "/" + digits + rest, IdTest(digits) + rest;
    RewriteFound(digits, rest);
    RewriteTest(digits, rest);
    RewriteIdsConcat(pre, found);
    RewriteIdsConcat(pre, test);
  }

  lemma RewriteTest(digits: string, rest: string)
    requires AllDigits(digits) && (rest == "" || !IsDigit(rest[0]))
    ensures RewriteIds(IdTest(digits) + rest) == IdTest(digits) + RewriteIds(rest)
  {
    NoSlashes(IdTest(digits));
    RewriteIdsConcat(IdTest(digits), rest);
  }

  lemma ReplacedSlashes(pre: string, digits: string, rest: string)
    requires AllDigits(digits)
    ensures Slashes(pre + (IdTest(digits) + rest)) < Slashes(pre + ("/" + digits + rest))
  {
    NoSlashes(IdTest(digits));
    SlashesConcat(IdTest(digits), rest);
    SlashesConcat(pre, IdTest(digits) + rest);
    NoSlashes(digits);
    SlashesConcat("/", digits);
    SlashesConcat("/" + digits, rest);
    SlashesConcat(pre, "/" + digits + rest);
    assert Slashes("/") == 1 + Slashes("/"[1..]);
  }

  lemma RewriteFound(digits: string, rest: string)
    requires digits != "" && AllDigits(digits) && (rest == "" || !IsDigit(rest[0]))
    ensures RewriteIds("/" + digits + rest) == IdTest(digits) + RewriteIds(rest)
  {
    var s := "/" + digits + rest;
    DigitRunConcat(digits, rest);
    AllDigitRun(digits);
    assert s[1..] == digits + rest;
    assert s[1..1 + |digits|] == digits && s[1 + |digits|..] == rest;
    assert IdAt(s, 0);
  }

  lemma {:induction false} AllDigitRun(s: string)
    requires AllDigits(s)
    ensures DigitRun(s) == |s|
  {
  }

  lemma {:induction false} IdsGone(s: string)
    ensures !HasId(RewriteIds(s))
    decreases Slashes(s)
  {
    var next := ReplaceId(s);
    if next.None? {
      NoIdsUnchanged(s);
    } else {
      ReplaceIdStep(s);
      IdsGone(next.value);
    }
  }

  /** Replacing until nothing matches terminates, and amounts to the one reading. */
  method ReplaceIds(part: string) returns (r: string)
    ensures r == RewriteIds(part)
  {
    r := part;
    while true
      invariant RewriteIds(r) == RewriteIds(part)
      decreases Slashes(r)
    {
      var next := ReplaceId(r);
      if next.None? {
        NoIdsUnchanged(r);
        break;
      }
      ReplaceIdStep(r);
      r := next.value;
    }
  }
}
