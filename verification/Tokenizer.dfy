/** The tokenizer of cpp/util.cpp: a string is cut into runs that alternate between text and
    digits, then "digits . digits" is glued back into one number. */
module Tokenizer {
  import opened Alternation
  import opened Characters

  // ---------- Strings ----------

  function Flatten(tokens: seq<string>): string {
    if tokens == [] then "" else tokens[0] + Flatten(tokens[1..])
  }

  lemma FlattenCons(head: string, rest: seq<string>)
    ensures Flatten([head] + rest) == head + Flatten(rest)
  {
    assert ([head] + rest)[1..] == rest;
  }

  // ---------- Tokenizing ----------

  /** Where the run of text (textMode) or digits that starts at b ends. */
  function RunEnd(s: string, b: nat, textMode: bool): (e: nat)
    requires b <= |s|
    ensures b <= e <= |s|
    decreases |s| - b
  {
    if b < |s| && IsDigit(s[b]) != textMode then RunEnd(s, b + 1, textMode) else b
  }

  lemma PureCons(c: char, s: string, textMode: bool)
    ensures Pure([c] + s, textMode) <==> IsDigit(c) != textMode && Pure(s, textMode)
  {
    var t := [c] + s;
    assert t[0] == c;
    assert forall i :: 0 <= i < |s| ==> s[i] == t[i + 1];
  }

  lemma {:induction false} RunEndIsMaximal(s: string, b: nat, textMode: bool, e: nat)
    requires b <= e <= |s|
    ensures e == RunEnd(s, b, textMode)
       <==> Pure(s[b..e], textMode) && (e < |s| ==> IsDigit(s[e]) == textMode)
    decreases e - b
  {
    if b < e {
      RunEndIsMaximal(s, b + 1, textMode, e);
      assert s[b..e] == [s[b]] + s[b + 1..e];
      PureCons(s[b], s[b + 1..e], textMode);
    }
  }

  /** The tokens of s from position b on. */
  function TokensFrom(s: string, b: nat, textMode: bool): seq<string>
    requires b <= |s|
    decreases |s| - b, if RunEnd(s, b, textMode) == b then 1 else 0
  {
    if b == |s| then [""]
    else
      var e := RunEnd(s, b, textMode);
      [s[b..e]] + TokensFrom(s, e, !textMode)
  }

  function Tokens(s: string): seq<string> {
    TokensFrom(s, 0, true)
  }

  method TokenEnd(s: string, b: nat, strmode: bool) returns (e: nat)
    requires b <= |s|
    ensures e == RunEnd(s, b, strmode)
  {
    e := b;
    while e < |s| && (IsDigit(s[e]) != strmode)
      invariant b <= e <= |s|
      invariant RunEnd(s, b, strmode) == RunEnd(s, e, strmode)
    {
      e := e + 1;
    }
  }

  lemma TokensStep(done: seq<string>, s: string, b: nat, textMode: bool)
    requires b <= |s|
    ensures var e := RunEnd(s, b, textMode);
            done + TokensFrom(s, b, textMode) ==
              done + [s[b..e]] + if b < |s| then TokensFrom(s, e, !textMode) else []
  {
    if b == |s| {
      assert s[b..RunEnd(s, b, textMode)] == "";
    }
  }

  /** The do-while pushes a token before it tests; its first round may not advance. */
  method TokenizeString(s: string) returns (tokens: seq<string>)
    ensures tokens == Tokens(s)
  {
    var e, b, l := 0, 0, |s|;
    var mstr := false;
    tokens := [];
    while true
      invariant b <= e <= l
      invariant tokens + TokensFrom(s, e, !mstr) == Tokens(s)
      decreases l - e, if RunEnd(s, e, !mstr) == e then 1 else 0
    {
      b := e;
      mstr := !mstr;
      TokensStep(tokens, s, b, mstr);
      e := TokenEnd(s, b, mstr);
      tokens := tokens + [s[b..e]];
      if b >= l {
        break;
      }
    }
  }

  /** What it means, independently of any algorithm, that t splits s into alternating runs:
      nothing is lost, kinds alternate, only the first and last tokens may be empty and the
      last one is. */
  ghost predicate IsTokenization(s: string, t: seq<string>, textMode: bool) {
    && |t| >= 1
    && Flatten(t) == s
    && t[|t| - 1] == ""
    && (|t| >= 2 ==> s != "")
    && (forall i :: 0 < i < |t| - 1 ==> t[i] != "")
    && (forall i :: 0 <= i < |t| ==> Pure(t[i], IsTurn(i, textMode)))
  }

  lemma {:induction false} TokensFromShape(s: string, b: nat, textMode: bool)
    requires b <= |s|
    ensures IsTokenization(s[b..], TokensFrom(s, b, textMode), textMode)
    ensures RunEnd(s, b, textMode) > b ==> TokensFrom(s, b, textMode)[0] != ""
    decreases |s| - b, if RunEnd(s, b, textMode) == b then 1 else 0
  {
    if b < |s| {
      var e := RunEnd(s, b, textMode);
      assert s[b..] == s[b..e] + s[e..];
      TokensFromShape(s, e, !textMode);
      RunEndIsMaximal(s, b, textMode, e);
      ConsTokenization(s[b..e], TokensFrom(s, e, !textMode), textMode);
    }
  }

  lemma ConsTokenization(head: string, rest: seq<string>, textMode: bool)
    requires IsTokenization(Flatten(rest), rest, !textMode)
    requires Pure(head, textMode)
    requires head + Flatten(rest) != ""
    requires |rest| > 1 ==> rest[0] != ""
    ensures IsTokenization(head + Flatten(rest), [head] + rest, textMode)
  {
    var t := [head] + rest;
    assert t[1..] == rest;
    forall i | 0 <= i < |t|
      ensures Pure(t[i], IsTurn(i, textMode))
      ensures 0 < i < |t| - 1 ==> t[i] != ""
    {
      if i > 0 {
        assert t[i] == rest[i - 1];
      }
    }
  }

  lemma TailIsTokenization(s: string, t: seq<string>, textMode: bool)
    requires IsTokenization(s, t, textMode) && |t| >= 2
    ensures s == t[0] + Flatten(t[1..])
    ensures IsTokenization(Flatten(t[1..]), t[1..], !textMode)
    ensures Pure(t[0], textMode) && (|t[0]| < |s| ==> IsDigit(s[|t[0]|]) == textMode)
  {
    var tail := t[1..];
    forall i | 0 <= i < |tail| ensures Pure(tail[i], IsTurn(i, !textMode)) {
      assert tail[i] == t[i + 1];
    }
    assert Flatten(tail) == tail[0] + Flatten(tail[1..]);
    if |t| > 2 {
      assert s[|t[0]|] == tail[0][0];
    } else {
      assert Flatten(tail) == "";
    }
  }

  /** The tokenizer computes the one and only alternating split. */
  lemma {:induction false} TokenizationIsUnique(s: string, b: nat, t: seq<string>, textMode: bool)
    requires b <= |s| && IsTokenization(s[b..], t, textMode)
    ensures t == TokensFrom(s, b, textMode)
    decreases |t|
  {
    if |t| == 1 {
      assert Flatten(t) == t[0] + Flatten(t[1..]) == "";
    } else {
      var e := b + |t[0]|;
      TailIsTokenization(s[b..], t, textMode);
      assert s[b..e] == t[0] && s[e..] == Flatten(t[1..]);
      RunEndIsMaximal(s, b, textMode, e);
      TokenizationIsUnique(s, e, t[1..], !textMode);
      assert t == [t[0]] + t[1..];
    }
  }

  // ---------- Merging ----------

  function Merge(t: seq<string>): seq<string> {
    if |t| < 3 then t
    else if t[1] == "." && t[0] != "" && t[2] != "" then [t[0] + t[1] + t[2]] + Merge(t[3..])
    else [t[0]] + Merge(t[1..])
  }

  /** One round of the merging loop, seen from what is already pushed and what is still ahead. */
  lemma MergeStep(done: seq<string>, t: seq<string>, i: nat)
    requires i + 2 < |t|
    ensures t[i + 1] == "." && t[i] != "" && t[i + 2] != "" ==>
              done + Merge(t[i..]) == done + [t[i] + t[i + 1] + t[i + 2]] + Merge(t[i + 3..])
    ensures !(t[i + 1] == "." && t[i] != "" && t[i + 2] != "") ==>
              done + Merge(t[i..]) == done + [t[i]] + Merge(t[i + 1..])
  {
    var rest := t[i..];
    assert rest[1..] == t[i + 1..] && rest[3..] == t[i + 3..];
  }

  lemma MoveOne(done: seq<string>, t: seq<string>, i: nat)
    requires i < |t|
    ensures done + t[i..] == done + [t[i]] + t[i + 1..]
  {
  }

  method MergeFloats(tokensIn: seq<string>) returns (tokensOut: seq<string>)
    ensures tokensOut == Merge(tokensIn)
  {
    tokensOut := [];
    var i := 0;
    assert tokensIn[0..] == tokensIn;
    while i < |tokensIn| - 2
      invariant 0 <= i <= |tokensIn|
      invariant tokensOut + Merge(tokensIn[i..]) == Merge(tokensIn)
    {
      var l, c, r := tokensIn[i], tokensIn[i + 1], tokensIn[i + 2];
      MergeStep(tokensOut, tokensIn, i);
      if c == "." && l != "" && r != "" {
        tokensOut := tokensOut + [l + c + r];
        i := i + 2;
      } else {
        tokensOut := tokensOut + [l];
      }
      i := i + 1;
    }
    while i < |tokensIn|
      invariant 0 <= i <= |tokensIn|
      invariant tokensOut + tokensIn[i..] == Merge(tokensIn)
    {
      MoveOne(tokensOut, tokensIn, i);
      tokensOut := tokensOut + [tokensIn[i]];
      i := i + 1;
    }
  }

  /** Position of the first '.', or the length when there is none. */
  function DotIndex(s: string): (k: nat)
    ensures k <= |s|
  {
    if s == "" || s[0] == '.' then 0 else 1 + DotIndex(s[1..])
  }

  lemma {:induction false} DotIndexOfJoin(l: string, r: string)
    requires AllDigits(l)
    ensures DotIndex(l) == |l|
    ensures DotIndex(l + "." + r) == |l|
  {
    if l == "" {
      assert (l + "." + r)[0] == '.';
    } else {
      assert (l + "." + r)[1..] == l[1..] + "." + r;
      assert IsDigit(l[0]);
      DotIndexOfJoin(l[1..], r);
    }
  }

  /** digits, or digits.digits with both sides present. */
  predicate IsNumeral(tok: string) {
    var k := DotIndex(tok);
    && k > 0
    && AllDigits(tok[..k])
    && (k < |tok| ==> k + 1 < |tok| && AllDigits(tok[k + 1..]))
  }

  lemma JoinIsNumeral(l: string, r: string)
    requires AllDigits(l) && AllDigits(r) && l != "" && r != ""
    ensures IsNumeral(l)
    ensures IsNumeral(l + "." + r) && !AllDigits(l + "." + r)
  {
    DotIndexOfJoin(l, r);
    var tok := l + "." + r;
    assert l[..|l|] == l && tok[..|l|] == l && tok[|l| + 1..] == r;
    assert tok[|l|] == '.';
  }

  predicate Mergeable(l: string, c: string, r: string) {
    l != "" && AllDigits(l) && c == "." && r != ""
  }

  /** A text position holds text; a number position holds nothing or a numeral and does not
      start a "digits . digits" that is still to be merged. */
  ghost predicate MergedAt(m: seq<string>, i: nat, textMode: bool)
    requires i < |m|
  {
    && (0 < i < |m| - 1 ==> m[i] != "")
    && (if IsTurn(i, textMode) then Pure(m[i], true)
        else
          && (m[i] == "" || IsNumeral(m[i]))
          && (i + 2 < |m| ==> !Mergeable(m[i], m[i + 1], m[i + 2])))
  }

  ghost predicate AllMergedFrom(m: seq<string>, from: nat, textMode: bool) {
    forall i :: from <= i < |m| ==> MergedAt(m, i, textMode)
  }

  /** The shape that merging leaves: nothing is lost, kinds still alternate, only the first and
      last tokens may be empty and the last one is, and nothing is left to merge. */
  ghost predicate IsMerged(s: string, m: seq<string>, textMode: bool) {
    && |m| >= 1
    && Flatten(m) == s
    && m[|m| - 1] == ""
    && AllMergedFrom(m, 0, textMode)
  }

  lemma ConsMergedAt(head: string, rest: seq<string>, i: nat, textMode: bool)
    requires i < |rest| && MergedAt(rest, i, !textMode)
    requires |rest| > 1 ==> rest[0] != ""
    ensures MergedAt([head] + rest, i + 1, textMode)
  {
    var m := [head] + rest;
    assert m[i + 1] == rest[i];
    if i + 2 < |rest| {
      assert m[i + 2] == rest[i + 1] && m[i + 3] == rest[i + 2];
    }
  }

  lemma ConsMerged(head: string, rest: seq<string>, textMode: bool)
    requires IsMerged(Flatten(rest), rest, !textMode)
    requires |rest| > 1 ==> rest[0] != ""
    requires MergedAt([head] + rest, 0, textMode)
    ensures IsMerged(head + Flatten(rest), [head] + rest, textMode)
  {
    FlattenCons(head, rest);
    ConsMergedRest(head, rest, textMode);
  }

  lemma ConsMergedRest(head: string, rest: seq<string>, textMode: bool)
    requires AllMergedFrom(rest, 0, !textMode)
    requires |rest| > 1 ==> rest[0] != ""
    ensures AllMergedFrom([head] + rest, 1, textMode)
  {
    forall i | 1 <= i <= |rest| ensures MergedAt([head] + rest, i, textMode) {
      ConsMergedAt(head, rest, i - 1, textMode);
    }
  }

  lemma ConsMergedHead(head: string, rest: seq<string>, textMode: bool)
    requires if textMode then Pure(head, true) else head == "" || IsNumeral(head)
    requires |rest| >= 2 && !textMode ==> !Mergeable(head, rest[0], rest[1])
    ensures MergedAt([head] + rest, 0, textMode)
  {
  }

  /** Facts about a tokenization's first tokens that merging looks at. */
  lemma FirstTokens(t: seq<string>, textMode: bool)
    requires IsTokenization(Flatten(t), t, textMode) && |t| >= 2
    ensures Flatten(t) == t[0] + Flatten(t[1..])
    ensures IsTokenization(Flatten(t[1..]), t[1..], !textMode)
    ensures Pure(t[0], textMode) && Pure(t[1], !textMode)
    ensures |t| > 2 ==> t[1] != ""
    ensures !textMode && t[0] != "" ==> IsNumeral(t[0])
    ensures t[1] == "." ==> !textMode
  {
    TailIsTokenization(Flatten(t), t, textMode);
    assert Pure(t[0], IsTurn(0, textMode)) && Pure(t[1], IsTurn(1, textMode));
    if !textMode && t[0] != "" {
      JoinIsNumeral(t[0], t[0]);
    }
    if t[1] == "." {
      assert !IsDigit(t[1][0]);
    }
  }

  lemma {:induction false} MergeShape(t: seq<string>, textMode: bool)
    requires IsTokenization(Flatten(t), t, textMode)
    ensures IsMerged(Flatten(t), Merge(t), textMode)
    ensures Merge(t)[0] == "" <==> t[0] == ""
    ensures textMode ==> Merge(t)[0] == t[0]
    ensures |Merge(t)| == 1 <==> |t| == 1
    decreases |t|
  {
    if |t| == 1 {
    } else if |t| > 2 && t[1] == "." && t[0] != "" && t[2] != "" {
      MergeGlues(t, textMode);
      FlattenThree(t);
      MergeShape(t[3..], true);
      ConsMergedHead(t[0] + t[1] + t[2], Merge(t[3..]), false);
      ConsMerged(t[0] + t[1] + t[2], Merge(t[3..]), false);
    } else {
      FirstTokens(t, textMode);
      var rest := t[1..];
      MergeShape(rest, !textMode);
      assert Merge(t) == [t[0]] + Merge(rest) by {
        if |t| == 2 {
          assert t == [t[0]] + rest;
        }
      }
      if !textMode && |t| > 2 && t[0] != "" && t[1] == "." {
        FirstTokens(rest, true);
        MergeShape(rest[1..], false);
        assert Merge(rest) == [t[1]] + Merge(rest[1..]) by {
          if |rest| == 2 {
            assert rest == [t[1]] + rest[1..];
          }
        }
        assert rest[1..][0] == t[2];
      }
      ConsMergedHead(t[0], Merge(rest), textMode);
      ConsMerged(t[0], Merge(rest), textMode);
    }
  }

  lemma MergeGlues(t: seq<string>, textMode: bool)
    requires IsTokenization(Flatten(t), t, textMode)
    requires |t| > 2 && t[1] == "." && t[0] != "" && t[2] != ""
    ensures !textMode
    ensures IsNumeral(t[0] + t[1] + t[2]) && !AllDigits(t[0] + t[1] + t[2])
    ensures |t| > 3 && IsTokenization(Flatten(t[3..]), t[3..], true)
    ensures |t| > 4 ==> t[3] != ""
  {
    FirstTokens(t, textMode);
    var t1 := t[1..];
    FirstTokens(t1, true);
    var t2 := t1[1..];
    FirstTokens(t2, false);
    assert t2[1..] == t[3..];
    JoinIsNumeral(t[0], t[2]);
  }

  lemma FlattenThree(t: seq<string>)
    requires |t| > 2
    ensures Flatten(t) == t[0] + t[1] + t[2] + Flatten(t[3..])
  {
    assert t[1..][1..] == t[2..] && t[2..][1..] == t[3..];
    assert Flatten(t[1..]) == t[1] + Flatten(t[2..]);
    assert Flatten(t[2..]) == t[2] + Flatten(t[3..]);
  }

  function MergedTokens(s: string): seq<string> {
    Merge(Tokens(s))
  }

  /** Tokenizing and merging lose nothing and keep the alternating shape, for every string. */
  lemma MergedTokensShape(s: string)
    ensures IsMerged(s, MergedTokens(s), true)
  {
    assert s[0..] == s;
    TokensFromShape(s, 0, true);
    MergeShape(Tokens(s), true);
  }
}
