/** What the rewriting pass of cpp/query.cpp:83-98 does to a query, written out in characters: the
    text that each of the five loops puts in, where it puts it, and what quotes protect. */
module QueryLaws {
  import opened Alternation
  import opened Characters
  import opened IdRule
  import opened MarkRules
  import opened Paths
  import opened QueryRewriting
  import opened Wrappers

  // ---------- Ids ----------

  lemma DigitCharacters(c: char)
    ensures IsDigit(c) <==> c in "0123456789"
  {
    var digits := "0123456789";
    if IsDigit(c) {
      assert digits[c as int - '0' as int] == c;
    }
  }

  lemma Assoc4(a: string, b: string, c: string, d: string)
    ensures a + b + c + d == a + (b + c + d)
  {
  }

  lemma FoundInside(pre: string, digits: string, rest: string)
    requires digits != "" && AllDigits(digits) && (rest == "" || !IsDigit(rest[0]))
    ensures RewriteIds(pre + "/" + digits + rest) == RewriteIds(pre) + (IdTest(digits) + RewriteIds(rest))
  {
    var found := "/" + digits + rest;
    Assoc4(pre, "/", digits, rest);
    RewriteFound(digits, rest);
    RewriteIdsConcat(pre, found);
  }

  lemma TestWritten(a: string, digits: string, b: string)
    ensures a + (IdTest(digits) + b) == a + "[@id='" + digits + "']" + b
  {
  }

  /** "/digits" anywhere becomes the id test; what is in front and behind is read on its own. */
  lemma IdWritten(pre: string, digits: string, rest: string)
    requires digits != "" && forall i :: 0 <= i < |digits| ==> digits[i] in "0123456789"
    requires rest == "" || rest[0] !in "0123456789"
    ensures RewriteIds(pre + "/" + digits + rest) == RewriteIds(pre) + "[@id='" + digits + "']" + RewriteIds(rest)
  {
    forall i | 0 <= i < |digits| ensures IsDigit(digits[i]) {
      DigitCharacters(digits[i]);
    }
    if rest != "" {
      DigitCharacters(rest[0]);
    }
    FoundInside(pre, digits, rest);
    TestWritten(RewriteIds(pre), digits, RewriteIds(rest));
  }

  // ---------- Marks: one reading from left to right ----------

  lemma MatchShiftsBack(rule: Rule, a: string, b: string, p: nat, q: nat)
    requires MatchAt(rule, a + b, p, q) && |a| <= p
    ensures MatchAt(rule, b, p - |a|, q - |a|)
  {
    var s := a + b;
    WordBehindPrefix(a, b, p - |a|);
    WordBehindPrefix(a, b, q - |a|);
    forall i | |a| <= i < |s| ensures s[i] == b[i - |a|] {
    }
    var n := NameStart(rule, s, p);
    assert NameStart(rule, b, p - |a|) == n - |a|;
    forall i | n - |a| < i < q - |a| ensures IsName(b[i]) {
      assert IsName(s[i + |a|]);
    }
  }

  /** No match ends inside another one that begins no later. */
  lemma NoneInside(rule: Rule, s: string, p: nat, q: nat, p': nat, q': nat)
    requires MatchAt(rule, s, p, q) && MatchAt(rule, s, p', q') && p <= p'
    ensures q <= q'
  {
    MatchEndsOpen(rule, s, p', q');
  }

  /** No match begins in the first n characters. */
  ghost predicate NoneFrom(rule: Rule, s: string, n: nat) {
    forall p: nat, q: nat :: p < n ==> !MatchAt(rule, s, p, q)
  }

  lemma FirstMatchAt(rule: Rule, s: string) returns (p: nat)
    requires FirstMatch(rule, s).Some?
    ensures MatchAt(rule, s, p, FirstMatch(rule, s).value) && NoneFrom(rule, s, p)
  {
    p :| 0 <= p < |s| && MatchAt(rule, s, p, FirstMatch(rule, s).value)
         && forall i :: 0 <= i < p ==> !MatchFrom(rule, s, i);
    forall i: nat, j: nat | i < p ensures !MatchAt(rule, s, i, j) {
      assert !MatchFrom(rule, s, i);
    }
  }

  lemma FirstMatchIs(rule: Rule, s: string, p: nat, q: nat)
    requires MatchAt(rule, s, p, q) && NoneFrom(rule, s, p)
    ensures FirstMatch(rule, s) == Some(q)
  {
    assert MatchFrom(rule, s, p);
    var p' := FirstMatchAt(rule, s);
    MatchEndIsUnique(rule, s, p', FirstMatch(rule, s).value, q);
  }

  lemma NoneBehind(rule: Rule, a: string, b: string, s: string, n: nat)
    requires s == a + b && NoneFrom(rule, s, |a|) && NoneFrom(rule, b, n)
    ensures NoneFrom(rule, s, |a| + n)
  {
    forall p: nat, q: nat | p < |a| + n ensures !MatchAt(rule, s, p, q) {
      if MatchAt(rule, s, p, q) {
        MatchShiftsBack(rule, a, b, p, q);
      }
    }
  }

  /** One insertion, at the leftmost match. */
  lemma ExhaustStep(rule: Rule, s: string, p: nat, q: nat, t: string)
    requires MatchAt(rule, s, p, q) && NoneFrom(rule, s, p) && t == Insert(s, q)
    ensures OpenEnds(t) < OpenEnds(s) && Exhaust(rule, s) == Exhaust(rule, t)
  {
    FirstMatchIs(rule, s, p, q);
    MatchEndsOpen(rule, s, p, q);
    InsertClosesOneEnd(s, q);
  }

  lemma NothingToMark(rule: Rule, s: string)
    requires NoneFrom(rule, s, |s|)
    ensures Exhaust(rule, s) == s
  {
    assert !Matches(rule, s);
  }

  lemma InsertBehind(a: string, b: string, q: nat)
    requires q <= |b|
    ensures Insert(a + b, |a| + q) == a + Insert(b, q)
  {
    assert (a + b)[..|a| + q] == a + b[..q] && (a + b)[|a| + q..] == b[q..];
  }

  /** The leftmost match, found again behind a prefix in which none begins. */
  lemma FirstBehind(rule: Rule, a: string, b: string, p: nat, q: nat)
    requires NoneFrom(rule, a + b, |a|) && MatchAt(rule, b, p, q) && NoneFrom(rule, b, p)
    ensures MatchAt(rule, a + b, |a| + p, |a| + q) && NoneFrom(rule, a + b, |a| + p)
    ensures Insert(a + b, |a| + q) == a + Insert(b, q) && NoneFrom(rule, a + Insert(b, q), |a|)
  {
    MatchShifts(rule, a, b, p, q);
    NoneBehind(rule, a, b, a + b, p);
    MatchEndsOpen(rule, a + b, |a| + p, |a| + q);
    InsertBehind(a, b, q);
    StillNoneFrom(rule, a + b, |a|, |a| + q);
  }

  lemma SomeOrNone(rule: Rule, s: string) returns (found: bool, p: nat, q: nat)
    ensures found ==> MatchAt(rule, s, p, q) && NoneFrom(rule, s, p)
    ensures !found ==> NoneFrom(rule, s, |s|)
  {
    p, q := 0, 0;
    found := FirstMatch(rule, s).Some?;
    if found {
      p := FirstMatchAt(rule, s);
      q := FirstMatch(rule, s).value;
    } else {
      forall i: nat, j: nat | i < |s| ensures !MatchAt(rule, s, i, j) {
        assert !MatchFrom(rule, s, i);
      }
    }
  }

  lemma NothingBehind(rule: Rule, a: string, b: string)
    requires NoneFrom(rule, a + b, |a|) && NoneFrom(rule, b, |b|)
    ensures Exhaust(rule, a + b) == a + b && Exhaust(rule, b) == b
  {
    NothingToMark(rule, b);
    NoneBehind(rule, a, b, a + b, |b|);
    NothingToMark(rule, a + b);
  }

  lemma StepBehind(rule: Rule, a: string, b: string, p: nat, q: nat)
    requires NoneFrom(rule, a + b, |a|) && MatchAt(rule, b, p, q) && NoneFrom(rule, b, p)
    ensures Exhaust(rule, a + b) == Exhaust(rule, a + Insert(b, q))
  {
    FirstBehind(rule, a, b, p, q);
    ExhaustStep(rule, a + b, |a| + p, |a| + q, a + Insert(b, q));
  }

  /** A prefix in which no match begins is left alone. */
  lemma {:induction false} ExhaustBehind(rule: Rule, a: string, b: string)
    requires NoneFrom(rule, a + b, |a|)
    ensures Exhaust(rule, a + b) == a + Exhaust(rule, b)
    decreases OpenEnds(b)
  {
    var found, p, q := SomeOrNone(rule, b);
    if found {
      ExhaustStep(rule, b, p, q, Insert(b, q));
      StepBehind(rule, a, b, p, q);
      FirstBehind(rule, a, b, p, q);
      ExhaustBehind(rule, a, Insert(b, q));
    } else {
      NothingBehind(rule, a, b);
    }
  }

  lemma StillNoneFrom(rule: Rule, s: string, n: nat, q0: nat)
    requires NoneFrom(rule, s, n) && n <= q0 < |s| && OpenAt(s, q0)
    ensures NoneFrom(rule, Insert(s, q0), n)
  {
    forall p: nat, q: nat | p < n ensures !MatchAt(rule, Insert(s, q0), p, q) {
      if MatchAt(rule, Insert(s, q0), p, q) {
        NoMatchAcross(rule, s, q0, p, q);
        MatchAhead(rule, s, q0, p, q);
      }
    }
  }

  /** After inserting at the end of the leftmost match, no match begins ahead of what follows. */
  lemma NoneAhead(rule: Rule, s: string, p: nat, q: nat)
    requires MatchAt(rule, s, p, q) && NoneFrom(rule, s, p)
    ensures NoneFrom(rule, Insert(s, q), q + 7)
  {
    MatchEndsOpen(rule, s, p, q);
    forall p': nat, q': nat | p' < q + 7 ensures !MatchAt(rule, Insert(s, q), p', q') {
      if MatchAt(rule, Insert(s, q), p', q') {
        NoMatchAcross(rule, s, q, p', q');
        MatchAhead(rule, s, q, p', q');
        if p <= p' {
          NoneInside(rule, s, p, q, p', q');
        }
      }
    }
  }

  /** Replacing until nothing matches is one reading from left to right: the leftmost match gets its
      "/text()", and the reading goes on behind the name. */
  lemma MarkedInOneReading(rule: Rule, s: string, p: nat, q: nat)
    requires MatchAt(rule, s, p, q) && NoneFrom(rule, s, p)
    ensures Exhaust(rule, s) == s[..q] + "/text()" + Exhaust(rule, s[q..])
  {
    ExhaustStep(rule, s, p, q, s[..q] + "/text()" + s[q..]);
    NoneAhead(rule, s, p, q);
    ExhaustBehind(rule, s[..q] + "/text()", s[q..]);
  }

  // ---------- The four patterns, as regular expressions spell them ----------

  const HEADS := "_abcdefghijklmnopqrstuvwxyz"
  const NAMES := "_abcdefghijklmnopqrstuvwxyz0123456789/"

  lemma HeadCharacters(c: char)
    ensures IsHead(c) <==> c in "_abcdefghijklmnopqrstuvwxyz"
  {
    if 'a' <= c <= 'z' {
      assert HEADS[1 + c as int - 'a' as int] == c;
    }
  }

  lemma NameCharacters(c: char)
    ensures IsName(c) <==> c in "_abcdefghijklmnopqrstuvwxyz0123456789/"
  {
    HeadCharacters(c);
    DigitCharacters(c);
    assert NAMES == HEADS + "0123456789" + "/";
  }

  predicate PathName(name: string) {
    |name| >= 2 && name[0] in HEADS && forall i :: 1 <= i < |name| ==> name[i] in NAMES
  }

  /** What stands in front of a name, and what behind it. */
  predicate Setting(rule: Rule, lead: string, tail: string) {
    match rule
    case Bracket => lead == "[" && tail != "" && tail[0] !in NAMES + "("
    case AfterWord => (lead == " or " || lead == " and ") && tail != "" && tail[0] !in NAMES + "("
    case BeforeWord => |lead| == 1 && lead != "@" && (" or " <= tail || " and " <= tail)
    case BeforeBracket => |lead| == 1 && lead != "@" && "]" <= tail
  }

  lemma SettingFollows(rule: Rule, lead: string, s: string, q: nat)
    requires q < |s|
    ensures Setting(rule, lead, s[q..]) ==> Follows(rule, s, q)
    ensures Follows(rule, s, q) && rule.Bracket? ==> Setting(rule, "[", s[q..])
    ensures Follows(rule, s, q) && rule.AfterWord? ==> Setting(rule, " or ", s[q..]) && Setting(rule, " and ", s[q..])
    ensures Follows(rule, s, q) && |lead| == 1 && lead[0] != '@' && (rule.BeforeWord? || rule.BeforeBracket?) ==>
              Setting(rule, lead, s[q..])
  {
    var tail := s[q..];
    NameCharacters(s[q]);
    assert tail[0] == s[q];
    assert tail[0] in NAMES + "(" <==> tail[0] in NAMES || tail[0] == '(';
    if q + 4 <= |s| {
      assert tail[..4] == s[q..q + 4];
    }
    if q + 5 <= |s| {
      assert tail[..5] == s[q..q + 5];
    }
  }

  /** A pattern matches exactly where its lead, a name and its tail stand. */
  lemma MatchIsSpelled(rule: Rule, s: string, p: nat, b: nat, q: nat)
    requires p < b <= q < |s|
    ensures PathName(s[b..q]) && Setting(rule, s[p..b], s[q..]) ==> MatchAt(rule, s, p, q)
    ensures MatchAt(rule, s, p, q) && b == NameStart(rule, s, p) ==>
              PathName(s[b..q]) && Setting(rule, s[p..b], s[q..])
  {
    var name := s[b..q];
    forall i | b <= i < q ensures name[i - b] == s[i] && (IsName(s[i]) <==> s[i] in NAMES) {
      NameCharacters(s[i]);
    }
    if b < q {
      HeadCharacters(s[b]);
    }
    SettingFollows(rule, s[p..b], s, q);
    LeadIsSpelled(rule, s, p, b);
    if PathName(name) && Setting(rule, s[p..b], s[q..]) {
      forall i | b < i < q ensures IsName(s[i]) {
        assert name[i - b] in NAMES;
      }
    }
  }

  lemma LeadIsSpelled(rule: Rule, s: string, p: nat, b: nat)
    requires p < b <= |s|
    ensures var lead := s[p..b];
            b == NameStart(rule, s, p) <==>
              match rule
              case Bracket => lead == "["
              case AfterWord => lead == " or " || lead == " and "
              case BeforeWord => |lead| == 1 && lead != "@"
              case BeforeBracket => |lead| == 1 && lead != "@"
  {
    var lead := s[p..b];
    assert lead[0] == s[p];
    if |lead| == 1 {
      assert lead == [s[p]];
    }
    if b == p + 5 && lead == " and " {
      assert s[p..p + 4][1] == lead[1];
    }
    if b == p + 4 {
      assert WordAt(s, p, " or ") <==> lead == " or ";
    }
  }

  // ---------- What quotes protect ----------

  lemma DoubleSlashSpelled(s: string)
    ensures HasDoubleSlash(s) <==> exists a: string, b: string :: s == a + "//" + b
  {
    if i :| 0 <= i < |s| - 1 && s[i] == '/' && s[i + 1] == '/' {
      assert s == s[..i] + "//" + s[i + 2..];
    }
    if a: string, b: string :| s == a + "//" + b {
      assert s[|a|] == '/' && s[|a| + 1] == '/';
    }
  }

  lemma UnquotedQuery(query: string)
    requires Free(query, '\'')
    ensures RewriteQuery(query) == if HasDoubleSlash(Rewritten(query)) then Err(DoubleSlash) else Ok(Rewritten(query))
  {
    SplitFree(query, '\'');
    var rewritten := EveryOther(Rewritten, [query], true);
    assert rewritten == [Rewritten(query)];
    assert IsTurn(0, true);
  }

  /** Quoted text passes through, whatever it is; the parts around it are rewritten on their own. */
  lemma QuotedText(pre: string, quoted: string, post: string)
    requires Free(pre, '\'') && Free(quoted, '\'') && Free(post, '\'')
    ensures RewriteQuery(pre + "'" + quoted + "'" + post) ==
              if HasDoubleSlash(Rewritten(pre)) || HasDoubleSlash(Rewritten(post)) then Err(DoubleSlash)
              else Ok(Rewritten(pre) + "'" + quoted + "'" + Rewritten(post))
  {
    var parts, out := [pre, quoted, post], [Rewritten(pre), quoted, Rewritten(post)];
    ThreePieces(pre, quoted, post);
    OtherTwo(pre, quoted, post);
    JoinThree(Rewritten(pre), quoted, Rewritten(post));
    assert IsTurn(0, true) && !IsTurn(1, true) && IsTurn(2, true);
    if HasDoubleSlash(out[0]) || HasDoubleSlash(out[2]) {
      assert SlashesRefused(out);
    }
  }

  lemma ThreePieces(a: string, b: string, c: string)
    requires Free(a, '\'') && Free(b, '\'') && Free(c, '\'')
    ensures Split(a + "'" + b + "'" + c, '\'') == [a, b, c]
  {
    SplitConcat(a + "'" + b, c, '\'');
    SplitConcat(a, b, '\'');
    SplitFree(a, '\'');
    SplitFree(b, '\'');
    SplitFree(c, '\'');
  }

  lemma OtherTwo(a: string, b: string, c: string)
    ensures EveryOther(Rewritten, [a, b, c], true) == [Rewritten(a), b, Rewritten(c)]
  {
    assert [a, b, c][1..] == [b, c] && [b, c][1..] == [c];
    EveryOtherAt(Rewritten, [a, b, c], true, 0);
    EveryOtherAt(Rewritten, [a, b, c], true, 1);
    EveryOtherAt(Rewritten, [a, b, c], true, 2);
    assert IsTurn(0, true) && !IsTurn(1, true) && IsTurn(2, true);
  }

  lemma JoinThree(a: string, b: string, c: string)
    ensures Join([a, b, c], '\'') == a + "'" + b + "'" + c
  {
    assert [a, b, c][1..] == [b, c] && [b, c][1..] == [c];
    assert Join([b, c], '\'') == b + "'" + c;
    assert a + "'" + (b + "'" + c) == a + "'" + b + "'" + c;
  }

  // ---------- Some parts, rewritten ----------

  lemma NoMatches(rule: Rule, s: string)
    requires !Matches(rule, s)
    ensures Exhaust(rule, s) == s && NoneFrom(rule, s, |s|)
  {
    forall p: nat, q: nat | p < |s| ensures !MatchAt(rule, s, p, q) {
      assert !MatchFrom(rule, s, p);
    }
  }

  /** If only one of the four patterns matches a part without ids, the others stay out of it. */
  lemma OneRuleApplies(rule: Rule, part: string)
    requires !HasId(part) && forall other :: other != rule ==> !Matches(other, part)
    ensures Rewritten(part) == Exhaust(rule, part)
  {
    NoIdsUnchanged(part);
    ExhaustLeavesNone(rule, part);
    var r := Exhaust(rule, part);
    forall other | other != rule ensures Exhaust(other, part) == part && Exhaust(other, r) == r {
      assert !Matches(other, r);
    }
  }

  lemma NoBracket(s: string)
    requires forall p :: 0 <= p < |s| - 1 && s[p] == '[' ==> !IsHead(s[p + 1])
    ensures !Matches(Bracket, s)
  {
  }

  lemma NoClosing(s: string)
    requires forall q :: 2 <= q < |s| && s[q] == ']' ==> !IsName(s[q - 1]) || !IsName(s[q - 2])
    ensures !Matches(BeforeBracket, s)
  {
    forall p: nat, q: nat ensures !MatchAt(BeforeBracket, s, p, q) {
      assert p + 2 < q < |s| && s[q] == ']' ==> !IsName(s[q - 1]) || !IsName(s[q - 2]);
    }
  }

  lemma WordBegins(s: string, p: nat)
    requires WordLength(s, p) > 0
    ensures s[p] == ' ' && (s[p + 1] == 'o' || s[p + 1] == 'a')
  {
    var word := s[p..p + WordLength(s, p)];
    assert word[0] == s[p] && word[1] == s[p + 1];
  }

  lemma NoAfter(s: string)
    requires forall p :: 0 <= p < |s| - 4 && s[p] == ' ' ==> !IsHead(s[p + 4])
    requires forall p :: 0 <= p < |s| - 5 && s[p] == ' ' ==> !IsHead(s[p + 5])
    ensures !Matches(AfterWord, s)
  {
    forall p: nat, q: nat ensures !MatchAt(AfterWord, s, p, q) {
      if p < |s| && WordLength(s, p) > 0 {
        WordBegins(s, p);
      }
    }
  }

  lemma NoBefore(s: string)
    requires forall q :: 2 <= q < |s| - 1 && s[q] == ' ' && (s[q + 1] == 'o' || s[q + 1] == 'a') ==>
               !IsName(s[q - 1]) || !IsName(s[q - 2])
    ensures !Matches(BeforeWord, s)
  {
    forall p: nat, q: nat ensures !MatchAt(BeforeWord, s, p, q) {
      if q < |s| && WordLength(s, q) > 0 {
        WordBegins(s, q);
        assert q >= 2 ==> !IsName(s[q - 1]) || !IsName(s[q - 2]);
      }
    }
  }

  lemma NoSpace(s: string)
    requires Free(s, ' ')
    ensures !Matches(AfterWord, s) && !Matches(BeforeWord, s)
  {
    NoAfter(s);
    NoBefore(s);
  }

  /** The only match of a part whose rest has none. */
  lemma MarkedOnce(rule: Rule, p: nat, head: string, tail: string)
    requires MatchAt(rule, head + tail, p, |head|) && NoneFrom(rule, head + tail, p) && !Matches(rule, tail)
    ensures Exhaust(rule, head + tail) == head + "/text()" + tail
  {
    var s := head + tail;
    MarkedInOneReading(rule, s, p, |head|);
    assert s[..|head|] == head && s[|head|..] == tail;
    NoMatches(rule, tail);
  }

  lemma IdExample(part: string)
    requires part == "a/5"
    ensures Rewritten(part) == "a[@id='5']"
  {
    var pre, digits, rest := part[..1], part[2..], part[3..];
    var s := pre + "[@id='" + digits + "']" + rest;
    IdWritten(pre, digits, rest);
    NoIdsUnchanged(pre);
    assert part == pre + "/" + digits + rest;
    assert s == "a[@id='5']";
    NothingElse(s);
  }

  lemma NothingElse(s: string)
    requires s == "a[@id='5']"
    ensures Exhaust(BeforeBracket, Exhaust(BeforeWord, Exhaust(AfterWord, Exhaust(Bracket, s)))) == s
  {
    NoBracket(s);
    NoSpace(s);
    NoClosing(s);
  }

  lemma BracketMarks(head: string, tail: string)
    requires head == "a[bc" && tail == "=1]"
    ensures Exhaust(Bracket, head + tail) == head + "/text()" + tail
  {
    NoBracket(tail);
    MarkedOnce(Bracket, 1, head, tail);
  }

  lemma BracketExample(head: string, tail: string)
    requires head == "a[bc" && tail == "=1]"
    ensures Rewritten(head + tail) == head + "/text()" + tail
  {
    var part := head + tail;
    NoSpace(part);
    NoClosing(part);
    OneRuleApplies(Bracket, part);
    BracketMarks(head, tail);
  }

  lemma AfterWordMarks(head: string, tail: string)
    requires head == "1 and bc" && tail == "=2"
    ensures Exhaust(AfterWord, head + tail) == head + "/text()" + tail
  {
    NoAfter(tail);
    var part := head + tail;
    assert part[1..6] == " and " && part[1..5][1] == 'a';
    MarkedOnce(AfterWord, 1, head, tail);
  }

  lemma AfterWordExample(head: string, tail: string)
    requires head == "1 and bc" && tail == "=2"
    ensures Rewritten(head + tail) == head + "/text()" + tail
  {
    var part := head + tail;
    NoBracket(part);
    NoBefore(part);
    NoClosing(part);
    OneRuleApplies(AfterWord, part);
    AfterWordMarks(head, tail);
  }

  lemma BeforeWordMarks(head: string, tail: string)
    requires head == "1=bc" && tail == " or 2"
    ensures Exhaust(BeforeWord, head + tail) == head + "/text()" + tail
  {
    NoBefore(tail);
    var part := head + tail;
    assert part[4..8] == " or ";
    MarkedOnce(BeforeWord, 1, head, tail);
  }

  lemma BeforeWordExample(head: string, tail: string)
    requires head == "1=bc" && tail == " or 2"
    ensures Rewritten(head + tail) == head + "/text()" + tail
  {
    var part := head + tail;
    NoBracket(part);
    NoAfter(part);
    NoClosing(part);
    OneRuleApplies(BeforeWord, part);
    BeforeWordMarks(head, tail);
  }

  lemma BeforeBracketMarks(head: string, tail: string)
    requires head == "a[1=bc" && tail == "]"
    ensures Exhaust(BeforeBracket, head + tail) == head + "/text()" + tail
  {
    NoClosing(tail);
    MarkedOnce(BeforeBracket, 3, head, tail);
  }

  lemma BeforeBracketExample(head: string, tail: string)
    requires head == "a[1=bc" && tail == "]"
    ensures Rewritten(head + tail) == head + "/text()" + tail
  {
    var part := head + tail;
    NoBracket(part);
    NoSpace(part);
    OneRuleApplies(BeforeBracket, part);
    BeforeBracketMarks(head, tail);
  }
}
