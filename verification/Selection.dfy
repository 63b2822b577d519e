/** Which nodes of a result a query keeps (cpp/response.cpp:184-204, 251-270, 325-336): the
    free-text filter, then the first node for each tuple of unique-field values. */
module Selection {
  import opened Wrappers
  import opened SortOrder

  datatype XmlNode =
    | Element(context: Option<Context>, children: seq<XmlNode>)
    | Text(content: string)
    | Other
  {
    /** The context that _private points to, if any. */
    function Ctx(): Option<Context> {
      if Element? then context else None
    }

    function Kids(): seq<XmlNode> {
      if Element? then children else []
    }
  }

  // ---------- The filter ----------

  function ToLower(c: char): char {
    if 'A' <= c <= 'Z' then (c as int + 32) as char else c
  }

  predicate EqualIgnoringCase(a: string, b: string) {
    |a| == |b| && forall i :: 0 <= i < |a| ==> ToLower(a[i]) == ToLower(b[i])
  }

  /** strcasestr found something. */
  predicate ContainsIgnoringCase(text: string, term: string) {
    exists i :: 0 <= i <= |text| - |term| && FoundAt(text, term, i)
  }

  predicate FoundAt(text: string, term: string, i: nat)
    requires i + |term| <= |text|
  {
    EqualIgnoringCase(text[i..i + |term|], term)
  }

  /** The same character, or the two cases of one ASCII letter. */
  predicate SameLetter(a: char, b: char) {
    || a == b
    || ('A' <= a <= 'Z' && b as int == a as int + 32)
    || ('A' <= b <= 'Z' && a as int == b as int + 32)
  }

  predicate SameLettersAt(text: string, term: string, i: int) {
    0 <= i <= |text| - |term| && forall j :: i <= j < i + |term| ==> SameLetter(text[j], term[j - i])
  }

  lemma SameLetters(text: string, term: string, i: nat)
    requires i <= |text| - |term|
    ensures FoundAt(text, term, i) <==> SameLettersAt(text, term, i)
  {
    var part := text[i..i + |term|];
    if SameLettersAt(text, term, i) {
      forall k | 0 <= k < |term| ensures ToLower(part[k]) == ToLower(term[k]) {
        assert SameLetter(text[i + k], term[i + k - i]);
      }
    }
    if FoundAt(text, term, i) {
      forall j | i <= j < i + |term| ensures SameLetter(text[j], term[j - i]) {
        assert ToLower(part[j - i]) == ToLower(term[j - i]);
      }
    }
  }

  /** A term is found exactly where its letters stand, in either case. */
  lemma FoundExactly(text: string, term: string)
    ensures ContainsIgnoringCase(text, term) <==> exists i :: SameLettersAt(text, term, i)
  {
    forall i: nat | i <= |text| - |term| ensures FoundAt(text, term, i) <==> SameLettersAt(text, term, i) {
      SameLetters(text, term, i);
    }
    if i :| SameLettersAt(text, term, i) {
      assert FoundAt(text, term, i);
    }
  }

  lemma FoundInAnyCase()
    ensures ContainsIgnoringCase("all that jazz", "JAZZ") && !ContainsIgnoringCase("Jazy", "JAZZ")
  {
    FoundExactly("all that jazz", "JAZZ");
    FoundExactly("Jazy", "JAZZ");
    assert SameLettersAt("all that jazz", "JAZZ", 9);
    assert !SameLetter("Jazy"[3], "JAZZ"[3]);
  }

  /** The term occurs in a text child of the node, or in a text child of an element child. */
  predicate Occurs(term: string, node: XmlNode) {
    var kids := node.Kids();
    exists i :: 0 <= i < |kids| && OccursInChild(term, kids[i])
  }

  predicate OccursInChild(term: string, child: XmlNode) {
    match child
    case Text(content) => ContainsIgnoringCase(content, term)
    case Element(_, kids) =>
      exists j :: 0 <= j < |kids| && kids[j].Text? && ContainsIgnoringCase(kids[j].content, term)
    case Other => false
  }

  predicate MatchesFilter(terms: seq<string>, node: XmlNode) {
    forall i :: 0 <= i < |terms| ==> Occurs(terms[i], node)
  }

  /** Two levels are searched and no more. */
  lemma TwoLevels(term: string, a: Option<Context>, b: Option<Context>, c: Option<Context>)
    ensures Occurs(term, Element(a, [Text(term)]))
    ensures Occurs(term, Element(a, [Element(b, [Text(term)])]))
    ensures !Occurs(term, Element(a, [Element(b, [Element(c, [Text(term)])])]))
  {
    assert FoundAt(term, term, 0);
    assert Element(b, [Text(term)]).children[0].Text?;
    assert OccursInChild(term, [Text(term)][0]) && OccursInChild(term, [Element(b, [Text(term)])][0]);
    assert Element(a, [Text(term)]).Kids() == [Text(term)];
    assert Element(a, [Element(b, [Text(term)])]).Kids() == [Element(b, [Text(term)])];
  }

  /** The texts that the recursion visits below one node, in document order. */
  function VisitedTexts(kids: seq<XmlNode>, reentry: nat): seq<string>
    decreases if reentry < 1 then 1 - reentry else 0, |kids|
  {
    if kids == [] then []
    else ChildTexts(kids[0], reentry) + VisitedTexts(kids[1..], reentry)
  }

  function ChildTexts(child: XmlNode, reentry: nat): seq<string>
    decreases if reentry < 1 then 1 - reentry else 0, 0
  {
    match child
    case Text(content) => [content]
    case Element(_, inner) => if reentry < 1 then VisitedTexts(inner, reentry + 1) else []
    case Other => []
  }

  lemma VisitedStep(kids: seq<XmlNode>, i: nat, reentry: nat)
    requires i < |kids|
    ensures VisitedTexts(kids[i..], reentry) == ChildTexts(kids[i], reentry) + VisitedTexts(kids[i + 1..], reentry)
  {
    assert kids[i..][1..] == kids[i + 1..];
  }

  predicate InSomeText(term: string, texts: seq<string>) {
    exists i :: 0 <= i < |texts| && ContainsIgnoringCase(texts[i], term)
  }

  /** The terms, in order, that none of the texts contains. */
  function Unmatched(terms: seq<string>, texts: seq<string>): seq<string> {
    if terms == [] then []
    else (if InSomeText(terms[0], texts) then [] else [terms[0]]) + Unmatched(terms[1..], texts)
  }

  lemma InSomeTextConcat(term: string, a: seq<string>, b: seq<string>)
    ensures InSomeText(term, a + b) <==> InSomeText(term, a) || InSomeText(term, b)
  {
    if i :| 0 <= i < |a| && ContainsIgnoringCase(a[i], term) {
      assert (a + b)[i] == a[i];
    }
    if j :| 0 <= j < |b| && ContainsIgnoringCase(b[j], term) {
      assert (a + b)[|a| + j] == b[j];
    }
  }

  lemma {:induction false} UnmatchedConcat(terms: seq<string>, a: seq<string>, b: seq<string>)
    ensures Unmatched(Unmatched(terms, a), b) == Unmatched(terms, a + b)
  {
    if terms != [] {
      var rest := Unmatched(terms[1..], a);
      UnmatchedConcat(terms[1..], a, b);
      InSomeTextConcat(terms[0], a, b);
      if InSomeText(terms[0], a) {
        assert Unmatched(terms, a) == rest;
      } else {
        assert ([terms[0]] + rest)[1..] == rest;
      }
    }
  }

  lemma {:induction false} UnmatchedEmpty(terms: seq<string>, texts: seq<string>)
    ensures Unmatched(terms, texts) == [] <==> forall i :: 0 <= i < |terms| ==> InSomeText(terms[i], texts)
    ensures texts == [] ==> Unmatched(terms, texts) == terms
  {
    if terms != [] {
      UnmatchedEmpty(terms[1..], texts);
      assert terms == [terms[0]] + terms[1..];
      forall i | 0 <= i < |terms| ensures i > 0 ==> terms[i] == terms[1..][i - 1] {
      }
    }
  }

  lemma {:induction false} VisitedBelow(kids: seq<XmlNode>, term: string)
    ensures InSomeText(term, VisitedTexts(kids, 1))
       <==> exists j :: 0 <= j < |kids| && kids[j].Text? && ContainsIgnoringCase(kids[j].content, term)
  {
    if kids != [] {
      VisitedBelow(kids[1..], term);
      var head := ChildTexts(kids[0], 1);
      InSomeTextConcat(term, head, VisitedTexts(kids[1..], 1));
      assert InSomeText(term, head) <==> kids[0].Text? && ContainsIgnoringCase(kids[0].content, term) by {
        if head != [] {
          assert head[0] == kids[0].content;
        }
      }
      assert forall j :: 1 <= j < |kids| ==> kids[j] == kids[1..][j - 1];
    }
  }

  lemma {:induction false} VisitedIsOccurs(kids: seq<XmlNode>, term: string)
    ensures InSomeText(term, VisitedTexts(kids, 0))
       <==> exists i :: 0 <= i < |kids| && OccursInChild(term, kids[i])
  {
    if kids != [] {
      VisitedIsOccurs(kids[1..], term);
      var head := ChildTexts(kids[0], 0);
      if kids[0].Element? {
        VisitedBelow(kids[0].children, term);
      } else if kids[0].Text? {
        assert head[0] == kids[0].content;
      }
      assert InSomeText(term, head) <==> OccursInChild(term, kids[0]);
      InSomeTextConcat(term, head, VisitedTexts(kids[1..], 0));
      assert forall j :: 1 <= j < |kids| ==> kids[j] == kids[1..][j - 1];
    }
  }

  /** Erasing each term as it is met leaves none exactly when every term occurs. */
  lemma NothingUnmatched(terms: seq<string>, node: XmlNode)
    ensures Unmatched(terms, VisitedTexts(node.Kids(), 0)) == [] <==> MatchesFilter(terms, node)
  {
    UnmatchedEmpty(terms, VisitedTexts(node.Kids(), 0));
    forall i | 0 <= i < |terms|
      ensures InSomeText(terms[i], VisitedTexts(node.Kids(), 0)) <==> Occurs(terms[i], node)
    {
      VisitedIsOccurs(node.Kids(), terms[i]);
    }
  }

  // ---------- Uniqueness ----------

  const SEPARATOR := "~!~"

  function Values(fields: seq<string>, c: Context): seq<string> {
    seq(|fields|, i requires 0 <= i < |fields| => c.GetData(fields[i]))
  }

  /** The key under which uniqueMatch remembers a tuple of values. */
  function Joined(values: seq<string>): string {
    if values == [] then "" else values[0] + SEPARATOR + Joined(values[1..])
  }

  predicate SeparatorAt(s: string, i: nat) {
    i + 3 <= |s| && s[i] == '~' && s[i + 1] == '!' && s[i + 2] == '~'
  }

  /** In the value followed by the separator, the separator first occurs where it was put: the
      value neither contains it nor ends in "~!". */
  predicate Safe(v: string) {
    forall i :: 0 <= i < |v| ==> !SeparatorAt(v + SEPARATOR, i)
  }

  /** All values but the last are safe: nothing follows the last separator. */
  predicate SafeValues(fields: seq<string>, c: Context) {
    forall i :: 0 <= i < |fields| - 1 ==> Safe(c.GetData(fields[i]))
  }

  /** The separator behind the shorter of two first values lies within the longer one. */
  lemma EarlierSeparator(a: string, restA: string, b: string, restB: string)
    requires |b| < |a| && a + SEPARATOR + restA == b + SEPARATOR + restB
    ensures SeparatorAt(a + SEPARATOR, |b|)
  {
    var s := a + SEPARATOR + restA;
    assert forall k :: 0 <= k < 3 ==> s[|b| + k] == SEPARATOR[k];
    assert forall k :: 0 <= k < |a| + 3 ==> (a + SEPARATOR)[k] == s[k];
  }

  /** What the two sides of an equation of keys have in common up to the first separator. */
  lemma FirstValue(a: string, restA: string, b: string, restB: string)
    requires Safe(a) && |b| <= |a|
    requires a + SEPARATOR + restA == b + SEPARATOR + restB
    ensures a == b && restA == restB
  {
    var s := a + SEPARATOR + restA;
    if |b| < |a| {
      EarlierSeparator(a, restA, b, restB);
    }
    assert a == s[..|a|] && b == s[..|b|];
    assert restA == s[|a| + 3..] && restB == s[|b| + 3..];
  }

  lemma LastValue(a: string, b: string)
    requires Joined([a]) == Joined([b])
    ensures a == b
  {
    assert Joined([a]) == a + SEPARATOR && Joined([b]) == b + SEPARATOR by {
      assert [a][1..] == [] && [b][1..] == [];
    }
    assert a == (a + SEPARATOR)[..|a|] && b == (b + SEPARATOR)[..|b|];
    assert |a| == |b|;
  }

  /** Between tuples whose values are safe but for the last one, equal keys mean equal tuples. */
  lemma {:induction false} JoinedInjective(v: seq<string>, w: seq<string>)
    requires |v| == |w|
    requires forall i :: 0 <= i < |v| - 1 ==> Safe(v[i]) && Safe(w[i])
    requires Joined(v) == Joined(w)
    ensures v == w
  {
    if |v| == 1 {
      LastValue(v[0], w[0]);
      assert v == [v[0]] && w == [w[0]];
    } else if v != [] {
      var restV, restW := Joined(v[1..]), Joined(w[1..]);
      if |w[0]| <= |v[0]| {
        FirstValue(v[0], restV, w[0], restW);
      } else {
        FirstValue(w[0], restW, v[0], restV);
      }
      JoinedInjective(v[1..], w[1..]);
      assert v == [v[0]] + v[1..] && w == [w[0]] + w[1..];
    }
  }

  /** When another field follows: another pair, with a shorter first value, has the same key as a
      pair that begins with v. */
  ghost predicate Confusable(v: string) {
    exists x, y, z :: |y| < |v| && Joined([v, x]) == Joined([y, z])
  }

  lemma JoinedPair(v: string, x: string)
    ensures Joined([v, x]) == v + SEPARATOR + (x + SEPARATOR)
  {
    assert [v, x][1..] == [x] && [x][1..] == [];
    assert Joined([x]) == x + SEPARATOR + Joined([]);
  }

  /** The safe values are exactly those that, with another field behind them, cannot be taken for a
      shorter one. */
  lemma SafeExactly(v: string)
    ensures Safe(v) <==> !Confusable(v)
  {
    if !Safe(v) {
      var i :| 0 <= i < |v| && SeparatorAt(v + SEPARATOR, i);
      var s := v + SEPARATOR;
      var y, z := s[..i], s[i + 3..];
      assert s == y + SEPARATOR + z;
      JoinedPair(v, "");
      JoinedPair(y, z);
      assert Joined([v, ""]) == Joined([y, z]);
    } else {
      forall x, y, z | |y| < |v| ensures Joined([v, x]) != Joined([y, z]) {
        JoinedPair(v, x);
        JoinedPair(y, z);
        if Joined([v, x]) == Joined([y, z]) {
          FirstValue(v, x + SEPARATOR, y, z + SEPARATOR);
        }
      }
    }
  }

  lemma KeySpelled()
    ensures Joined(["a", "b"]) == "a~!~b~!~"
  {
    JoinedPair("a", "b");
    assert "a" + SEPARATOR + ("b" + SEPARATOR) == "a~!~b~!~";
  }

  /** Two different pairs with the same key. */
  lemma KeysCollide()
    ensures Joined(["a~!", "b"]) == Joined(["a", "!~b"])
  {
    JoinedPair("a~!", "b");
    JoinedPair("a", "!~b");
    assert "a~!" + SEPARATOR + ("b" + SEPARATOR) == "a~!~!~b~!~" == "a" + SEPARATOR + ("!~b" + SEPARATOR);
  }

  // ---------- The selected nodes ----------

  datatype Criteria = Criteria(filter: bool, terms: seq<string>, unique: bool, fields: seq<string>) {
    predicate Passes(node: XmlNode) {
      !filter || MatchesFilter(terms, node)
    }

    /** uniqueMatch dereferences the node's context. */
    function Key(node: XmlNode): string
      requires node.Ctx().Some?
    {
      Joined(Values(fields, node.Ctx().value))
    }

    /** Every node that uniqueMatch is asked about has a context. */
    predicate Keyed(nodes: seq<XmlNode>) {
      unique ==> forall i :: 0 <= i < |nodes| && Passes(nodes[i]) ==> nodes[i].Ctx().Some?
    }

    /** Node i passes the filter and is the first passing node with its key. */
    predicate Chosen(nodes: seq<XmlNode>, i: nat)
      requires i < |nodes| && Keyed(nodes)
    {
      && Passes(nodes[i])
      && (unique ==> forall j :: 0 <= j < i && Passes(nodes[j]) ==> Key(nodes[j]) != Key(nodes[i]))
    }

    /** The chosen ones of the first n nodes, in document order. */
    function SelectUpTo(nodes: seq<XmlNode>, n: nat): (s: seq<XmlNode>)
      requires Keyed(nodes) && n <= |nodes|
      ensures |s| <= n
    {
      if n == 0 then []
      else SelectUpTo(nodes, n - 1) + if Chosen(nodes, n - 1) then [nodes[n - 1]] else []
    }

    /** The chosen nodes, in document order. */
    function Select(nodes: seq<XmlNode>): (s: seq<XmlNode>)
      requires Keyed(nodes)
      ensures |s| <= |nodes|
    {
      SelectUpTo(nodes, |nodes|)
    }
  }

  /** Selecting keeps exactly the chosen nodes, in document order. */
  lemma {:induction false} SelectedInOrder(c: Criteria, nodes: seq<XmlNode>, n: nat) returns (at: seq<nat>)
    requires c.Keyed(nodes) && n <= |nodes|
    ensures |at| == |c.SelectUpTo(nodes, n)|
    ensures forall k :: 0 <= k < |at| ==> at[k] < n && c.SelectUpTo(nodes, n)[k] == nodes[at[k]]
    ensures forall j, k :: 0 <= j < k < |at| ==> at[j] < at[k]
    ensures forall i: nat :: i < n ==> (i in at <==> c.Chosen(nodes, i))
  {
    at := [];
    if n > 0 {
      at := SelectedInOrder(c, nodes, n - 1);
      if c.Chosen(nodes, n - 1) {
        at := at + [n - 1];
      }
    }
  }

  /** The contexts' values differ in some field. */
  predicate Differ(fields: seq<string>, a: Context, b: Context) {
    exists m :: 0 <= m < |fields| && a.GetData(fields[m]) != b.GetData(fields[m])
  }

  lemma DifferInValues(fields: seq<string>, a: Context, b: Context)
    ensures Differ(fields, a, b) <==> Values(fields, a) != Values(fields, b)
  {
    if m :| 0 <= m < |fields| && a.GetData(fields[m]) != b.GetData(fields[m]) {
      assert Values(fields, a)[m] != Values(fields, b)[m];
    } else {
      assert Values(fields, a) == Values(fields, b);
    }
  }

  /** On safe values "same key" is "same tuple of values": a chosen node is the first
      passing node with its tuple. */
  lemma ChosenByTuple(c: Criteria, nodes: seq<XmlNode>, i: nat)
    requires i < |nodes| && c.Keyed(nodes) && c.unique
    requires forall j :: 0 <= j < |nodes| && c.Passes(nodes[j]) ==> SafeValues(c.fields, nodes[j].Ctx().value)
    ensures c.Chosen(nodes, i) <==>
              c.Passes(nodes[i]) && forall j :: 0 <= j < i && c.Passes(nodes[j]) ==>
                Differ(c.fields, nodes[j].Ctx().value, nodes[i].Ctx().value)
  {
    if c.Passes(nodes[i]) {
      var w := Values(c.fields, nodes[i].Ctx().value);
      forall j | 0 <= j < i && c.Passes(nodes[j])
        ensures c.Key(nodes[j]) != c.Key(nodes[i]) <==> Differ(c.fields, nodes[j].Ctx().value, nodes[i].Ctx().value)
      {
        DifferInValues(c.fields, nodes[j].Ctx().value, nodes[i].Ctx().value);
        if c.Key(nodes[j]) == c.Key(nodes[i]) {
          JoinedInjective(Values(c.fields, nodes[j].Ctx().value), w);
        }
      }
    }
  }
}
