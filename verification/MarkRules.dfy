/** The last four of the five rewriting loops (cpp/query.cpp:88-91). Each looks for a name in a
    certain setting and puts "/text()" behind it, until there is none left:

      Bracket:        \[([_a-z])([a-z0-9_/]+)([^(a-z0-9_/])
      AfterWord:      (or|and) ([_a-z])([a-z0-9_/]+)([^(a-z0-9_/]), with a space in front
      BeforeWord:     ([^@])([_a-z])([0-9a-z_/]+) (or|and), with a space behind
      BeforeBracket:  ([^@])([_a-z])([0-9a-z_/]+)\]                                            */
module MarkRules {
  import opened Characters
  import opened Wrappers
  import opened IdRule

  datatype Rule = Bracket | AfterWord | BeforeWord | BeforeBracket

  const MARK := "/text()"

  /** [_a-z], which begins a name. */
  predicate IsHead(c: char) {
    c == '_' || 'a' <= c <= 'z'
  }

  /** [a-z0-9_/], which continues one. */
  predicate IsName(c: char) {
    IsHead(c) || IsDigit(c) || c == '/'
  }

  /** Behind this character a name ends and does not turn into a function call. */
  predicate IsOpenEnd(c: char) {
    !IsName(c) && c != '('
  }

  predicate WordAt(s: string, p: nat, word: string) {
    p + |word| <= |s| && s[p..p + |word|] == word
  }

  /** Length of " or " or " and " at p, or 0. */
  function WordLength(s: string, p: nat): (n: nat)
    ensures p + n <= |s| || n == 0
  {
    if WordAt(s, p, " or ") then 4 else if WordAt(s, p, " and ") then 5 else 0
  }

  // ---------- One match ----------

  /** Where the name must begin if the pattern is to match from p, or p for "it cannot". */
  function NameStart(rule: Rule, s: string, p: nat): (b: nat)
    requires p < |s|
    ensures b >= p
  {
    match rule
    case Bracket => if s[p] == '[' then p + 1 else p
    case AfterWord => p + WordLength(s, p)
    case BeforeWord => if s[p] != '@' then p + 1 else p
    case BeforeBracket => if s[p] != '@' then p + 1 else p
  }

  /** What must stand behind the name, at q. */
  predicate Follows(rule: Rule, s: string, q: nat)
    requires q < |s|
  {
    match rule
    case Bracket => IsOpenEnd(s[q])
    case AfterWord => IsOpenEnd(s[q])
    case BeforeWord => WordLength(s, q) > 0
    case BeforeBracket => s[q] == ']'
  }

  /** The pattern matches from p with the name s[b..q]. The name is as long as it can be: what
      may follow is never a name character. */
  predicate MatchAt(rule: Rule, s: string, p: nat, q: nat) {
    && p < q < |s|
    && var b := NameStart(rule, s, p);
    && p < b && b + 1 < q
    && IsHead(s[b])
    && (forall i :: b < i < q ==> IsName(s[i]))
    && Follows(rule, s, q)
  }

  predicate Matches(rule: Rule, s: string) {
    exists p :: 0 <= p < |s| && MatchFrom(rule, s, p)
  }

  predicate MatchFrom(rule: Rule, s: string, p: nat) {
    exists q :: p < q < |s| && MatchAt(rule, s, p, q)
  }

  /** A match ends at an open end: a name character, then one that ends the name. */
  lemma MatchEndsOpen(rule: Rule, s: string, p: nat, q: nat)
    requires MatchAt(rule, s, p, q)
    ensures IsName(s[q - 1]) && IsOpenEnd(s[q])
  {
    if rule.BeforeWord? {
      assert s[q] == s[q..q + WordLength(s, q)][0];
    }
  }

  lemma MatchEndIsUnique(rule: Rule, s: string, p: nat, q: nat, q': nat)
    requires MatchAt(rule, s, p, q) && MatchAt(rule, s, p, q')
    ensures q == q'
  {
    MatchEndsOpen(rule, s, p, q);
    MatchEndsOpen(rule, s, p, q');
  }

  /** RE::Replace takes the leftmost match. */
  function FirstMatch(rule: Rule, s: string): (q: Option<nat>)
    ensures q.None? <==> !Matches(rule, s)
    ensures q.Some? ==> exists p :: 0 <= p < |s| && MatchAt(rule, s, p, q.value)
                                    && forall i :: 0 <= i < p ==> !MatchFrom(rule, s, i)
  {
    if Matches(rule, s) then
      var p := LeastMatch(rule, s, 0);
      Some(MatchEnd(rule, s, p, p + 1))
    else None
  }

  function LeastMatch(rule: Rule, s: string, from: nat): (p: nat)
    requires exists p :: from <= p < |s| && MatchFrom(rule, s, p)
    ensures p < |s| && MatchFrom(rule, s, p) && forall i :: from <= i < p ==> !MatchFrom(rule, s, i)
    decreases |s| - from
  {
    if MatchFrom(rule, s, from) then from else LeastMatch(rule, s, from + 1)
  }

  function MatchEnd(rule: Rule, s: string, p: nat, from: nat): (q: nat)
    requires exists q :: from <= q < |s| && MatchAt(rule, s, p, q)
    ensures MatchAt(rule, s, p, q)
    decreases |s| - from
  {
    if from < |s| && MatchAt(rule, s, p, from) then from else MatchEnd(rule, s, p, from + 1)
  }

  function Insert(s: string, q: nat): string
    requires q <= |s|
  {
    s[..q] + MARK + s[q..]
  }

  // ---------- Inserting closes an end ----------

  predicate OpenAt(s: string, i: nat)
    requires i < |s|
  {
    i > 0 && IsName(s[i - 1]) && IsOpenEnd(s[i])
  }

  /** The number of open ends. */
  function OpenEnds(s: string): nat {
    if s == "" then 0 else OpenEnds(s[..|s| - 1]) + if OpenAt(s, |s| - 1) then 1 else 0
  }

  lemma {:induction false} OpenEndsConcat(a: string, b: string)
    requires a != "" && b != ""
    ensures OpenEnds(a + b) == OpenEnds(a) + OpenEnds(b) + if IsName(a[|a| - 1]) && IsOpenEnd(b[0]) then 1 else 0
  {
    var n := |b| - 1;
    assert (a + b)[..|a + b| - 1] == a + b[..n];
    if n == 0 {
      assert a + b[..n] == a && b[..n] == "";
      assert OpenEnds(b[..n]) == 0;
    } else {
      OpenEndsConcat(a, b[..n]);
      assert OpenAt(a + b, |a| + n) == OpenAt(b, n);
    }
  }

  lemma MarkIsClosed()
    ensures OpenEnds(MARK) == 0
  {
    assert MARK[..6] == "/text(" && MARK[..6][..5] == "/text" && "/text"[..4] == "/tex";
    assert "/tex"[..3] == "/te" && "/te"[..2] == "/t" && "/t"[..1] == "/" && "/"[..0] == "";
    assert OpenEnds("") == 0 && OpenEnds("/") == 0 && OpenEnds("/t") == 0 && OpenEnds("/te") == 0;
    assert OpenEnds("/tex") == 0 && OpenEnds("/text") == 0 && OpenEnds("/text(") == 0;
  }

  lemma InsertClosesOneEnd(s: string, q: nat)
    requires q < |s| && OpenAt(s, q)
    ensures OpenEnds(Insert(s, q)) == OpenEnds(s) - 1
  {
    var a, b := s[..q], s[q..];
    assert s == a + b;
    OpenEndsConcat(a, b);
    OpenEndsConcat(a + MARK, b);
    OpenEndsConcat(a, MARK);
    MarkIsClosed();
  }

  // ---------- Inserting creates no match of any pattern ----------

  lemma InsertedAt(s: string, q: nat, i: nat)
    requires q <= |s| && i < |s| + 7
    ensures |Insert(s, q)| == |s| + 7
    ensures Insert(s, q)[i] == if i < q then s[i] else if i < q + 7 then MARK[i - q] else s[i - 7]
  {
  }

  /** A match that ends ahead of the insertion was there before. */
  lemma MatchAhead(rule: Rule, s: string, q0: nat, p: nat, q: nat)
    requires q0 <= |s| && q < q0 && MatchAt(rule, Insert(s, q0), p, q)
    ensures MatchAt(rule, s, p, q)
  {
    var t := Insert(s, q0);
    forall i | 0 <= i < q0 ensures t[i] == s[i] {
      InsertedAt(s, q0, i);
    }
    SameWord(s, q0, p, q);
    if rule.BeforeWord? {
      WordAheadOf(s, q0, q);
    }
  }

  lemma SameWord(s: string, q0: nat, p: nat, end: nat)
    requires q0 <= |s| && p <= end < q0
    ensures WordLength(Insert(s, q0), p) > 0 && p + WordLength(Insert(s, q0), p) <= end ==>
              WordLength(s, p) == WordLength(Insert(s, q0), p)
  {
    var t := Insert(s, q0);
    if p + 4 <= q0 {
      assert t[p..p + 4] == s[p..p + 4];
    }
    if p + 5 <= q0 {
      assert t[p..p + 5] == s[p..p + 5];
    }
  }

  lemma WordCharacters(s: string, p: nat, i: nat)
    requires p <= i < p + WordLength(s, p)
    ensures s[i] != '/' && s[i] != ')'
    ensures s[p + 1] == if WordLength(s, p) == 4 then 'o' else 'a'
  {
    var n := WordLength(s, p);
    assert s[p..p + n][i - p] == s[i] && s[p..p + n][1] == s[p + 1];
  }

  /** A word that begins ahead of the mark ends ahead of it: it has no slash. */
  lemma WordAheadOf(s: string, q0: nat, p: nat)
    requires p < q0 <= |s| && WordLength(Insert(s, q0), p) > 0
    ensures WordLength(s, p) == WordLength(Insert(s, q0), p)
  {
    var t := Insert(s, q0);
    var n := WordLength(t, p);
    InsertedAt(s, q0, q0);
    if q0 < p + n {
      WordCharacters(t, p, q0);
    } else {
      WordCharacters(t, p, p);
      assert s[p..p + n] == t[p..p + n];
      if n == 5 {
        assert s[p..p + 4][1] == t[p + 1];
      }
    }
  }

  /** A match that begins behind the insertion was there before, seven places earlier. */
  lemma MatchBehind(rule: Rule, s: string, q0: nat, p: nat, q: nat)
    requires q0 <= |s| && q0 + 7 <= p && MatchAt(rule, Insert(s, q0), p, q)
    ensures MatchAt(rule, s, p - 7, q - 7)
  {
    var t := Insert(s, q0);
    forall i | q0 + 7 <= i < |t| ensures t[i] == s[i - 7] {
      InsertedAt(s, q0, i);
    }
    WordBehind(s, q0, p);
    WordBehind(s, q0, q);
    var b := NameStart(rule, t, p);
    assert NameStart(rule, s, p - 7) == b - 7;
    forall i | b - 7 < i < q - 7 ensures IsName(s[i]) {
      assert IsName(t[i + 7]);
    }
  }

  lemma WordBehind(s: string, q0: nat, p: nat)
    requires q0 <= |s| && q0 + 7 <= p < |s| + 7
    ensures WordLength(s, p - 7) == WordLength(Insert(s, q0), p)
  {
    var t := Insert(s, q0);
    if p + 4 <= |t| {
      assert t[p..p + 4] == s[p - 7..p - 3];
    }
    if p + 5 <= |t| {
      assert t[p..p + 5] == s[p - 7..p - 2];
    }
  }

  /** Nothing matches across the mark: a name would have to contain its parenthesis, or end
      inside it. */
  lemma NoMatchAcross(rule: Rule, s: string, q0: nat, p: nat, q: nat)
    requires q0 < |s| && OpenAt(s, q0) && MatchAt(rule, Insert(s, q0), p, q)
    ensures q < q0 || q0 + 7 <= p
  {
    var t := Insert(s, q0);
    MatchEndsOpen(rule, t, p, q);
    forall i | q0 <= i < q0 + 8 ensures t[i] == if i < q0 + 7 then MARK[i - q0] else s[q0] {
      InsertedAt(s, q0, i);
    }
    if q0 <= q {
      var b := NameStart(rule, t, p);
      assert t[q0] == '/' && t[q0 + 1] == 't' && t[q0 + 2] == 'e' && t[q0 + 3] == 'x' && t[q0 + 4] == 't';
      assert t[q0 + 5] == '(' && t[q0 + 6] == ')';
      assert q > q0 + 7;
      assert b > q0 + 7;
      if p < q0 + 7 {
        WordCharacters(t, p, q0 + 6);
      }
    }
  }

  /** After an insertion at an open end, no pattern matches that did not match before. */
  lemma InsertCreatesNoMatch(rule: Rule, s: string, q0: nat)
    requires q0 < |s| && OpenAt(s, q0) && Matches(rule, Insert(s, q0))
    ensures Matches(rule, s)
  {
    var t := Insert(s, q0);
    var p :| 0 <= p < |t| && MatchFrom(rule, t, p);
    var q :| p < q < |t| && MatchAt(rule, t, p, q);
    NoMatchAcross(rule, s, q0, p, q);
    if q < q0 {
      MatchAhead(rule, s, q0, p, q);
      assert MatchFrom(rule, s, p);
    } else {
      MatchBehind(rule, s, q0, p, q);
      assert MatchFrom(rule, s, p - 7);
    }
  }

  lemma InsertCreatesNoId(s: string, q0: nat)
    requires q0 < |s| && OpenAt(s, q0) && HasId(Insert(s, q0))
    ensures HasId(s)
  {
    var t := Insert(s, q0);
    var p :| 0 <= p < |t| && IdAt(t, p);
    InsertedAt(s, q0, p);
    InsertedAt(s, q0, p + 1);
    assert p + 1 < q0 || q0 + 7 <= p;
    if p + 1 < q0 {
      assert IdAt(s, p);
    } else {
      assert IdAt(s, p - 7);
    }
  }

  // ---------- The loops ----------

  /** Inserting at the leftmost match until the pattern no longer matches. */
  function Exhaust(rule: Rule, s: string): string
    decreases OpenEnds(s)
  {
    match FirstMatch(rule, s)
    case None => s
    case Some(q) =>
      FirstMatchIsOpen(rule, s);
      InsertClosesOneEnd(s, q);
      Exhaust(rule, Insert(s, q))
  }

  lemma FirstMatchIsOpen(rule: Rule, s: string)
    requires FirstMatch(rule, s).Some?
    ensures FirstMatch(rule, s).value < |s| && OpenAt(s, FirstMatch(rule, s).value)
  {
    var q := FirstMatch(rule, s).value;
    var p :| 0 <= p < |s| && MatchAt(rule, s, p, q);
    MatchEndsOpen(rule, s, p, q);
  }

  method ReplaceUntilNoMatch(rule: Rule, part: string) returns (r: string)
    ensures r == Exhaust(rule, part)
  {
    r := part;
    while true
      invariant Exhaust(rule, r) == Exhaust(rule, part)
      decreases OpenEnds(r)
    {
      var q := FirstMatch(rule, r);
      if q.None? {
        break;
      }
      FirstMatchIsOpen(rule, r);
      InsertClosesOneEnd(r, q.value);
      r := Insert(r, q.value);
    }
  }

  /** A finished loop leaves nothing of its own pattern and brings back none of the others. */
  lemma {:induction false} ExhaustLeavesNone(rule: Rule, s: string)
    ensures !Matches(rule, Exhaust(rule, s))
    ensures forall other :: Matches(other, Exhaust(rule, s)) ==> Matches(other, s)
    ensures HasId(Exhaust(rule, s)) ==> HasId(s)
    decreases OpenEnds(s)
  {
    var first := FirstMatch(rule, s);
    if first.Some? {
      var t := Insert(s, first.value);
      FirstMatchIsOpen(rule, s);
      InsertClosesOneEnd(s, first.value);
      ExhaustLeavesNone(rule, t);
      forall other | Matches(other, t) ensures Matches(other, s) {
        InsertCreatesNoMatch(other, s, first.value);
      }
      if HasId(t) {
        InsertCreatesNoId(s, first.value);
      }
    }
  }

  // ---------- The loops add marks and nothing else ----------

  /** The string without its "/text()"s. */
  function Unmarked(s: string): string {
    if s == "" then ""
    else if MARK <= s then Unmarked(s[|MARK|..])
    else [s[0]] + Unmarked(s[1..])
  }

  /** A "/text()" cannot reach across an open end, nor into a mark put there. */
  lemma MarkStaysAhead(a: string, b: string)
    requires a != "" && b != "" && IsName(a[|a| - 1]) && IsOpenEnd(b[0])
    ensures MARK <= a + b <==> |a| > 7 && MARK <= a
    ensures MARK <= a + (MARK + b) <==> |a| > 7 && MARK <= a
  {
    var s, t := a + b, a + (MARK + b);
    assert s[|a|] == b[0] && s[|a| - 1] == a[|a| - 1];
    assert t[|a|] == '/' && t[|a| - 1] == a[|a| - 1];
    if MARK <= s {
      assert s[..7] == MARK && s[5] == '(' && s[6] == ')';
      assert a[..7] == s[..7];
    }
    if MARK <= t {
      assert t[..7] == MARK && t[5] == '(' && t[6] == ')';
      assert a[..7] == t[..7];
    }
    if MARK <= a {
      assert s[..7] == a[..7] == t[..7];
      assert a[6] == a[..7][6] == ')';
    }
  }

  lemma UnmarkedStep(a: string, b: string)
    requires a != ""
    ensures MARK <= a ==> Unmarked(a + b) == Unmarked(a[7..] + b)
    ensures !(MARK <= a + b) ==> Unmarked(a + b) == [a[0]] + Unmarked(a[1..] + b)
  {
    if MARK <= a {
      assert (a + b)[..7] == a[..7] && (a + b)[7..] == a[7..] + b;
    }
    assert (a + b)[1..] == a[1..] + b;
  }

  /** A mark put at an open end is read back as that mark, and tears no other one apart. */
  lemma {:induction false} UnmarkedAround(a: string, b: string)
    requires b != "" && (a != "" ==> IsName(a[|a| - 1])) && IsOpenEnd(b[0])
    ensures Unmarked(a + (MARK + b)) == Unmarked(a + b)
  {
    if a == "" {
      assert a + b == b && a + (MARK + b) == MARK + b;
      assert (MARK + b)[..7] == MARK && (MARK + b)[7..] == b;
    } else {
      MarkStaysAhead(a, b);
      UnmarkedStep(a, b);
      UnmarkedStep(a, MARK + b);
      if MARK <= a + b {
        UnmarkedAround(a[7..], b);
      } else {
        UnmarkedAround(a[1..], b);
      }
    }
  }

  lemma InsertOnlyMarks(s: string, q: nat)
    requires q < |s| && OpenAt(s, q)
    ensures Unmarked(Insert(s, q)) == Unmarked(s)
  {
    var a, b := s[..q], s[q..];
    UnmarkedAround(a, b);
    assert s == a + b && Insert(s, q) == a + (MARK + b);
  }

  lemma {:induction false} ExhaustOnlyMarks(rule: Rule, s: string)
    ensures Unmarked(Exhaust(rule, s)) == Unmarked(s)
    decreases OpenEnds(s)
  {
    var first := FirstMatch(rule, s);
    if first.Some? {
      var q := first.value;
      FirstMatchIsOpen(rule, s);
      InsertClosesOneEnd(s, q);
      InsertOnlyMarks(s, q);
      ExhaustOnlyMarks(rule, Insert(s, q));
    }
  }
}
