/** Response::query (cpp/response.cpp:206-298): filter, de-duplicate, order and window the nodes
    of one query result. The code windows before, while or after it orders; the theorems at the
    end say that all of these are one pipeline. */
module ResponseQuery {
  import opened Wrappers
  import opened Paging
  import opened Selection
  import opened SortOrder
  import opened StrictWeakOrders

  datatype SortType = Unsorted | Reverse | Shuffle | Specific

  datatype ResponseContext = ResponseContext(contexts: seq<Context>, total: nat)

  // ---------- Lists ----------

  function First<T>(s: seq<T>, n: nat): seq<T> {
    if n < |s| then s[..n] else s
  }

  function Drop<T>(s: seq<T>, n: nat): seq<T> {
    if n < |s| then s[n..] else []
  }

  function Slice<T>(s: seq<T>, w: Window): seq<T>
    requires w.skip >= 0 && w.paginate >= 0
  {
    First(Drop(s, w.skip), w.paginate)
  }

  function Reversed<T>(s: seq<T>): seq<T> {
    if s == [] then [] else Reversed(s[1..]) + [s[0]]
  }

  lemma {:induction false} ReversedAt<T>(s: seq<T>, k: nat)
    requires k < |s|
    ensures |Reversed(s)| == |s| && Reversed(s)[k] == s[|s| - 1 - k]
  {
    if |s| > 1 {
      ReversedAt(s[1..], if k < |s| - 1 then k else 0);
    }
  }

  /** o is s backwards. */
  predicate Backwards<T(==)>(s: seq<T>, o: seq<T>) {
    |o| == |s| && forall k :: 0 <= k < |s| ==> o[k] == s[|s| - 1 - k]
  }

  lemma ReversedIsBackwards<T>(s: seq<T>)
    ensures Backwards(s, Reversed(s))
  {
    assert s == [] ==> Reversed(s) == [];
    forall k | 0 <= k < |s| ensures |Reversed(s)| == |s| && Reversed(s)[k] == s[|s| - 1 - k] {
      ReversedAt(s, k);
    }
  }

  /** A slice is what the window shows: so many items, in their order, from skip on. */
  lemma SliceIsWindow<T>(s: seq<T>, w: Window, k: int)
    requires w.skip >= 0 && w.paginate >= 0
    ensures |Slice(s, w)| == w.ShownCount(|s|)
    ensures w.Shows(k, |s|) <==> 0 <= k - w.skip < |Slice(s, w)|
    ensures w.Shows(k, |s|) ==> Slice(s, w)[k - w.skip] == s[k]
  {
  }

  /** The contexts of the nodes that have one, in order. */
  function Contexts(nodes: seq<XmlNode>): (s: seq<Context>)
    ensures |s| <= |nodes|
  {
    if nodes == [] then []
    else
      var n := |nodes| - 1;
      Contexts(nodes[..n]) + if nodes[n].Ctx().Some? then [nodes[n].Ctx().value] else []
  }

  lemma ContextsSnoc(nodes: seq<XmlNode>, x: XmlNode)
    ensures Contexts(nodes + [x]) == Contexts(nodes) + if x.Ctx().Some? then [x.Ctx().value] else []
  {
    assert (nodes + [x])[..|nodes|] == nodes;
  }

  lemma {:induction false} ContextsConcat(a: seq<XmlNode>, b: seq<XmlNode>)
    ensures Contexts(a + b) == Contexts(a) + Contexts(b)
  {
    if b == [] {
      assert a + b == a;
    } else {
      var init, last := b[..|b| - 1], b[|b| - 1];
      assert b == init + [last] && a + b == (a + init) + [last];
      ContextsConcat(a, init);
      ContextsSnoc(a + init, last);
      ContextsSnoc(init, last);
    }
  }

  predicate AllHaveContexts(nodes: seq<XmlNode>) {
    forall i :: 0 <= i < |nodes| ==> nodes[i].Ctx().Some?
  }

  lemma {:induction false} AllContexts(nodes: seq<XmlNode>)
    requires AllHaveContexts(nodes)
    ensures |Contexts(nodes)| == |nodes|
    ensures forall k :: 0 <= k < |nodes| ==> Contexts(nodes)[k] == nodes[k].Ctx().value
  {
    if nodes != [] {
      AllContexts(nodes[..|nodes| - 1]);
    }
  }

  // ---------- What one query answers ----------

  /** The outcomes that ordering s may have. Nothing is promised of a Specific order whose
      comparator is not a strict weak ordering. */
  ghost predicate Ordered(t: SortType, fields: seq<SortField>, s: seq<Context>, o: seq<Context>) {
    match t
    case Unsorted => o == s
    case Reverse => Backwards(s, o)
    case Shuffle => multiset(o) == multiset(s)
    case Specific =>
      && (NeverThrows(fields) && StrictWeakOrder(Before(fields), s) ==> SortedRearrangement(Before(fields), s, o))
      && (Comparable(fields, s) && !EndsInDescId(fields) ==>
            multiset(o) == multiset(s)
            && forall i, j :: 0 <= i < j < |o| ==> Rank(Consulted(fields), o[i], o[j]) >= 0)
  }

  /** The pipeline: select, order, then drop skip and take paginate. */
  ghost predicate IsPipeline(c: Criteria, t: SortType, fields: seq<SortField>, nodes: seq<XmlNode>, w: Window,
                             rc: ResponseContext)
    requires c.Keyed(nodes) && w.skip >= 0 && w.paginate >= 0
  {
    && rc.total == |c.Select(nodes)|
    && exists o: seq<Context> ::
         Ordered(t, fields, Contexts(c.Select(nodes)), o) && rc.contexts == Slice(o, w)
  }

  /** What the code answers, nodes without a context included: they use up room in an unfiltered
      window, but not in a filtered one. */
  ghost predicate IsAnswer(c: Criteria, t: SortType, fields: seq<SortField>, nodes: seq<XmlNode>, w: Window,
                           rc: ResponseContext)
    requires c.Keyed(nodes) && w.skip >= 0 && w.paginate >= 0
  {
    if !t.Unsorted? then IsPipeline(c, t, fields, nodes, w, rc)
    else
      && rc.total == |c.Select(nodes)|
      && rc.contexts ==
           if c.filter || c.unique then First(Contexts(Drop(c.Select(nodes), w.skip)), w.paginate)
           else Contexts(Slice(nodes, w))
  }

  predicate NonePasses(c: Criteria, nodes: seq<XmlNode>, n: nat)
    requires n <= |nodes|
  {
    forall i :: 0 <= i < n ==> !c.Passes(nodes[i])
  }

  /** The run of uniqueMatch that throws: a node passes the filter and a unique field is "". */
  predicate UniqueThrows(c: Criteria, nodes: seq<XmlNode>) {
    c.unique && "" in c.fields && !NonePasses(c, nodes, |nodes|)
  }

  // ---------- The code ----------

  /** std::random_shuffle, with the random draws as a parameter. */
  method RandomShuffle(s: seq<Context>, draw: nat -> nat) returns (r: seq<Context>)
    ensures multiset(r) == multiset(s)
  {
    r := s;
    if |s| == 0 {
      return;
    }
    for i := 1 to |s|
      invariant |r| == |s| && multiset(r) == multiset(s)
    {
      var j := draw(i) % (i + 1);
      r := r[i := r[j]][j := r[i]];
    }
  }

  /** One round of erasing: the terms before `it` stay, those from `it` on are still ahead. */
  lemma EraseStep(remaining: seq<string>, it: nat, terms: seq<string>, done: nat, text: string)
    requires it < |remaining| && done <= |terms| && remaining[it..] == terms[done..]
    ensures done < |terms|
    ensures var erased := remaining[..it] + remaining[it + 1..];
            ContainsIgnoringCase(text, remaining[it]) ==>
              && erased[it..] == terms[done + 1..]
              && erased[..it] + Unmatched(terms[done + 1..], [text]) ==
                 remaining[..it] + Unmatched(terms[done..], [text])
    ensures !ContainsIgnoringCase(text, remaining[it]) ==>
              && remaining[it + 1..] == terms[done + 1..]
              && remaining[..it + 1] + Unmatched(terms[done + 1..], [text]) ==
                 remaining[..it] + Unmatched(terms[done..], [text])
  {
    var term, rest := remaining[it], terms[done..];
    assert rest[0] == term && rest[1..] == terms[done + 1..] == remaining[it + 1..];
    assert InSomeText(term, [text]) <==> ContainsIgnoringCase([text][0], term);
    assert (remaining[..it] + remaining[it + 1..])[..it] == remaining[..it];
    assert remaining[..it + 1] == remaining[..it] + [term];
  }

  /** One round of visiting: the child's texts first, then those of the children behind it. */
  lemma VisitOne(terms: seq<string>, kids: seq<XmlNode>, i: nat, reentry: nat)
    requires i < |kids|
    ensures Unmatched(terms, VisitedTexts(kids[i..], reentry)) ==
              Unmatched(Unmatched(terms, ChildTexts(kids[i], reentry)), VisitedTexts(kids[i + 1..], reentry))
    ensures ChildTexts(kids[i], reentry) == [] ==> Unmatched(terms, ChildTexts(kids[i], reentry)) == terms
  {
    VisitedStep(kids, i, reentry);
    UnmatchedConcat(terms, ChildTexts(kids[i], reentry), VisitedTexts(kids[i + 1..], reentry));
    UnmatchedEmpty(terms, ChildTexts(kids[i], reentry));
  }

  class Response {
    const filter: bool
    const filterTerms: seq<string>
    const unique: bool
    const uniqueFields: seq<string>
    const sortType: SortType
    const sortFields: seq<SortField>
    const options: Options
    var contexts: seq<ResponseContext>
    var filterRemainingTerms: seq<string>
    var uniqueFound: set<string>

    constructor (filter: bool, filterTerms: seq<string>, unique: bool, uniqueFields: seq<string>,
                 sortType: SortType, sortFields: seq<SortField>, options: Options)
      ensures this.filter == filter && this.filterTerms == filterTerms
      ensures this.unique == unique && this.uniqueFields == uniqueFields
      ensures this.sortType == sortType && this.sortFields == sortFields && this.options == options
      ensures contexts == []
    {
      this.filter, this.filterTerms := filter, filterTerms;
      this.unique, this.uniqueFields := unique, uniqueFields;
      this.sortType, this.sortFields, this.options := sortType, sortFields, options;
      contexts, filterRemainingTerms, uniqueFound := [], [], {};
    }

    function SelectionCriteria(): Criteria {
      Criteria(filter, filterTerms, unique, uniqueFields)
    }

    /** The loop over the remaining terms for one text node, erasing as it goes. */
    method EraseTermsIn(text: string)
      modifies this`filterRemainingTerms
      ensures filterRemainingTerms == Unmatched(old(filterRemainingTerms), [text])
    {
      ghost var terms := filterRemainingTerms;
      ghost var done := 0;
      var it := 0;
      assert terms[0..] == terms;
      while it < |filterRemainingTerms|
        invariant 0 <= it <= |filterRemainingTerms| && done <= |terms|
        invariant filterRemainingTerms[it..] == terms[done..]
        invariant filterRemainingTerms[..it] + Unmatched(terms[done..], [text]) == Unmatched(terms, [text])
        decreases |terms| - done
      {
        var term := filterRemainingTerms[it];
        EraseStep(filterRemainingTerms, it, terms, done, text);
        if ContainsIgnoringCase(text, term) {
          filterRemainingTerms := filterRemainingTerms[..it] + filterRemainingTerms[it + 1..];
        } else {
          it := it + 1;
        }
        done := done + 1;
      }
      assert terms[done..] == [] && filterRemainingTerms[..it] == filterRemainingTerms;
    }

    method FilterMatchRecursive(node: XmlNode, reentry: nat)
      requires reentry <= 1
      modifies this`filterRemainingTerms
      ensures filterRemainingTerms == Unmatched(old(filterRemainingTerms), VisitedTexts(node.Kids(), reentry))
      decreases 1 - reentry
    {
      var kids := node.Kids();
      assert kids[0..] == kids;
      for i := 0 to |kids|
        invariant Unmatched(filterRemainingTerms, VisitedTexts(kids[i..], reentry)) ==
                    Unmatched(old(filterRemainingTerms), VisitedTexts(kids, reentry))
      {
        var child := kids[i];
        VisitOne(filterRemainingTerms, kids, i, reentry);
        if child.Element? {
          if reentry < 1 {
            FilterMatchRecursive(child, reentry + 1);
          }
        } else if child.Text? {
          EraseTermsIn(child.content);
        }
      }
      UnmatchedEmpty(filterRemainingTerms, []);
    }

    method FilterMatch(node: XmlNode) returns (b: bool)
      modifies this`filterRemainingTerms
      ensures b == MatchesFilter(filterTerms, node)
    {
      filterRemainingTerms := filterTerms;
      FilterMatchRecursive(node, 0);
      NothingUnmatched(filterTerms, node);
      b := |filterRemainingTerms| == 0;
    }

    method UniqueMatch(context: Context) returns (r: Result<bool, Error>)
      modifies this`uniqueFound
      ensures "" in uniqueFields ==> r == Err(EmptyDataQuery) && uniqueFound == old(uniqueFound)
      ensures "" !in uniqueFields ==>
                var key := Joined(Values(uniqueFields, context));
                r == Ok(key !in old(uniqueFound)) && uniqueFound == old(uniqueFound) + {key}
    {
      var val := "";
      ghost var values := Values(uniqueFields, context);
      assert values[0..] == values;
      for i := 0 to |uniqueFields|
        invariant "" !in uniqueFields[..i]
        invariant val + Joined(values[i..]) == Joined(values)
        invariant uniqueFound == old(uniqueFound)
      {
        assert values[i..][0] == values[i] && values[i..][1..] == values[i + 1..];
        if uniqueFields[i] == "" {
          return Err(EmptyDataQuery);
        }
        val := val + (context.GetData(uniqueFields[i]) + SEPARATOR);
      }
      assert uniqueFields[..|uniqueFields|] == uniqueFields;
      assert val == Joined(values);
      if val !in uniqueFound {
        uniqueFound := uniqueFound + {val};
        return Ok(true);
      }
      return Ok(false);
    }

    /** The short-circuited condition of line 258, asked of node i after the nodes before it. */
    method Selects(node: XmlNode, ghost nodes: seq<XmlNode>, ghost i: nat, ghost kept: seq<XmlNode>)
      returns (r: Result<bool, Error>)
      requires i < |nodes| && node == nodes[i] && SelectionCriteria().Keyed(nodes)
      requires Scanned(SelectionCriteria(), nodes, i, kept, uniqueFound)
      modifies this`filterRemainingTerms, this`uniqueFound
      ensures r.Err? <==> unique && "" in uniqueFields && SelectionCriteria().Passes(node)
      ensures r.Ok? ==>
                Scanned(SelectionCriteria(), nodes, i + 1, if r.value then kept + [node] else kept, uniqueFound)
    {
      ChosenByKeysFound(SelectionCriteria(), nodes, i);
      var matched := true;
      if filter {
        matched := FilterMatch(node);
      }
      if !matched || !unique {
        return Ok(matched);
      }
      r := UniqueMatch(node.Ctx().value);
    }

    /** The filtering loop (lines 251-270): counts every selected node, skips the first `start`
        of them, then collects contexts while skipped + included < end. */
    method CollectSelected(nodes: seq<XmlNode>, start: nat, end: nat) returns (r: Result<ResponseContext, Error>)
      requires SelectionCriteria().Keyed(nodes) && end <= |nodes|
      modifies this`filterRemainingTerms, this`uniqueFound
      ensures r.Err? <==> UniqueThrows(SelectionCriteria(), nodes)
      ensures r.Ok? ==>
                var kept := SelectionCriteria().Select(nodes);
                && r.value.total == |kept|
                && r.value.contexts == First(Contexts(Drop(kept, start)), if start < end then end - start else 0)
    {
      ghost var c := SelectionCriteria();
      var skipped, included, total := 0, 0, 0;
      var collected: seq<Context> := [];
      ghost var kept: seq<XmlNode> := [];
      uniqueFound := {};
      for i := 0 to |nodes|
        invariant Scanned(c, nodes, i, kept, uniqueFound)
        invariant Counters(total, skipped, included, collected) == CountersAfter(kept, start, end)
      {
        var node := nodes[i];
        var selected := Selects(node, nodes, i, kept);
        if selected.Err? {
          return Err(selected.error);
        }
        CountersStep(kept, node, start, end);
        if selected.value {
          kept := kept + [node];
          total := total + 1;
          if skipped < start {
            skipped := skipped + 1;
          } else if included + skipped < end {
            if node.Ctx().Some? {
              collected := collected + [node.Ctx().value];
              included := included + 1;
            }
          }
        }
      }
      return Ok(ResponseContext(collected, total));
    }

    /** The plain loop (lines 271-277). */
    method CollectPlain(nodes: seq<XmlNode>, start: nat, end: nat) returns (rc: ResponseContext)
      requires end <= |nodes|
      ensures rc.total == |nodes|
      ensures rc.contexts == Contexts(if start < end then nodes[start..end] else [])
    {
      var collected: seq<Context> := [];
      var i := start;
      while i < end
        invariant start < end ==> start <= i <= end
        invariant start < end ==> collected == Contexts(nodes[start..i])
        invariant start >= end ==> collected == []
      {
        var ctxt := nodes[i].Ctx();
        CollectStep(nodes, start, i);
        if ctxt.Some? {
          collected := collected + [ctxt.value];
        }
        i := i + 1;
      }
      rc := ResponseContext(collected, |nodes|);
    }

    method Order(s: seq<Context>, draw: nat -> nat) returns (r: Result<seq<Context>, Error>)
      ensures r.Err? ==> sortType.Specific? && !NeverThrows(sortFields)
      ensures r.Ok? ==> Ordered(sortType, sortFields, s, r.value)
      ensures sortType.Reverse? ==>
                r.Ok? && |r.value| == |s| && forall k :: 0 <= k < |s| ==> r.value[k] == s[|s| - 1 - k]
      ensures sortType.Specific? && Comparable(sortFields, s) && !EndsInDescId(sortFields) ==>
                && r.Ok? && multiset(r.value) == multiset(s)
                && forall i, j :: 0 <= i < j < |r.value| ==>
                     Rank(Consulted(sortFields), r.value[i], r.value[j]) >= 0
    {
      match sortType
      case Unsorted => return Ok(s);
      case Reverse =>
        ReversedIsBackwards(s);
        return Ok(Reversed(s));
      case Shuffle =>
        var shuffled := RandomShuffle(s, draw);
        return Ok(shuffled);
      case Specific =>
        r := StdSort(sortFields, s);
    }

    /** The erase and resize after ordering (lines 285-296). */
    method Rewindow(s: seq<Context>, w: Window) returns (r: seq<Context>)
      requires w.skip >= 0 && w.paginate >= 0
      ensures r == Slice(s, w)
    {
      var endOfErase := if |s| > w.skip then w.skip else |s|;
      r := s[endOfErase..];
      if |r| > w.paginate {
        r := r[..w.paginate];
      }
    }

    /** One query over its result nodes. The draws stand for the random numbers of a shuffle. */
    method Query(nodes: seq<XmlNode>, draw: nat -> nat) returns (r: Result<(), Error>)
      requires Defined(options) && SelectionCriteria().Keyed(nodes)
      modifies this`contexts, this`filterRemainingTerms, this`uniqueFound
      ensures UniqueThrows(SelectionCriteria(), nodes) ==> r.Err?
      ensures r.Err? ==> contexts == old(contexts)
      ensures r.Err? ==> UniqueThrows(SelectionCriteria(), nodes) || (sortType.Specific? && !NeverThrows(sortFields))
      ensures r.Ok? ==>
                && |contexts| == |old(contexts)| + 1
                && contexts[..|old(contexts)|] == old(contexts)
                && IsAnswer(SelectionCriteria(), sortType, sortFields, nodes, Adjusted(|nodes|, options),
                            contexts[|old(contexts)|])
    {
      var size := |nodes|;
      var w := AdjustWindow(size, options);
      var start, end := 0, size;
      if sortType.Unsorted? {
        start := w.skip;
        if w.paginate + start < end {
          end := w.paginate + w.skip;
        }
      }
      if end > size {
        end := size;
      }
      var answer: ResponseContext;
      if filter || unique {
        var collected := CollectSelected(nodes, start, end);
        if collected.Err? {
          return Err(collected.error);
        }
        answer := collected.value;
      } else {
        answer := CollectPlain(nodes, start, end);
      }
      Collected(SelectionCriteria(), sortType, nodes, w, start, end, answer);
      if !sortType.Unsorted? {
        var ordered := Order(answer.contexts, draw);
        if ordered.Err? {
          return Err(ordered.error);
        }
        var windowed := Rewindow(ordered.value, w);
        answer := answer.(contexts := windowed);
      }
      contexts := contexts + [answer];
      return Ok(());
    }
  }

  /** The keys that uniqueFound collects from the passing ones of the first n nodes. */
  function KeysFound(c: Criteria, nodes: seq<XmlNode>, n: nat): set<string>
    requires c.Keyed(nodes) && n <= |nodes|
  {
    if n == 0 then {}
    else KeysFound(c, nodes, n - 1) + if c.unique && c.Passes(nodes[n - 1]) then {c.Key(nodes[n - 1])} else {}
  }

  lemma {:induction false} KeyIsFound(c: Criteria, nodes: seq<XmlNode>, n: nat, key: string)
    requires c.Keyed(nodes) && n <= |nodes| && c.unique
    ensures key in KeysFound(c, nodes, n) <==> exists j :: 0 <= j < n && c.Passes(nodes[j]) && c.Key(nodes[j]) == key
  {
    if n > 0 {
      KeyIsFound(c, nodes, n - 1, key);
    }
  }

  lemma ChosenByKeysFound(c: Criteria, nodes: seq<XmlNode>, i: nat)
    requires c.Keyed(nodes) && i < |nodes|
    ensures c.Chosen(nodes, i) <==>
              c.Passes(nodes[i]) && (c.unique ==> c.Key(nodes[i]) !in KeysFound(c, nodes, i))
  {
    if c.unique && c.Passes(nodes[i]) {
      KeyIsFound(c, nodes, i, c.Key(nodes[i]));
    }
  }

  /** The loop has gone through the first n nodes without throwing, selected `kept` of them and
      found their keys. */
  ghost predicate Scanned(c: Criteria, nodes: seq<XmlNode>, n: nat, kept: seq<XmlNode>, found: set<string>)
    requires c.Keyed(nodes) && n <= |nodes|
  {
    && kept == c.SelectUpTo(nodes, n)
    && found == KeysFound(c, nodes, n)
    && (c.unique && "" in c.fields ==> NonePasses(c, nodes, n))
  }

  datatype Counters = Counters(total: nat, skipped: nat, included: nat, collected: seq<Context>)

  /** The counters of the filtering loop after the nodes in `kept` were selected. */
  function CountersAfter(kept: seq<XmlNode>, start: nat, end: nat): Counters {
    var collected := First(Contexts(Drop(kept, start)), if start < end then end - start else 0);
    Counters(|kept|, if |kept| < start then |kept| else start, |collected|, collected)
  }

  lemma DropSnoc<T>(s: seq<T>, x: T, n: nat)
    requires n <= |s|
    ensures Drop(s + [x], n) == Drop(s, n) + [x]
  {
  }

  lemma CountersStep(kept: seq<XmlNode>, x: XmlNode, start: nat, end: nat)
    ensures var c := CountersAfter(kept, start, end);
            CountersAfter(kept + [x], start, end) ==
              if c.skipped < start then c.(total := c.total + 1, skipped := c.skipped + 1)
              else if c.included + c.skipped < end && x.Ctx().Some? then
                Counters(c.total + 1, c.skipped, c.included + 1, c.collected + [x.Ctx().value])
              else c.(total := c.total + 1)
  {
    var more := kept + [x];
    if |kept| >= start {
      DropSnoc(kept, x, start);
      ContextsSnoc(Drop(kept, start), x);
    } else {
      assert Drop(more, start) == [] && Drop(kept, start) == [];
      assert Contexts(Drop(more, start)) == [];
    }
  }

  lemma {:induction false} SelectEverything(c: Criteria, nodes: seq<XmlNode>, n: nat)
    requires (c.filter ==> c.terms == []) && !c.unique && n <= |nodes|
    ensures c.SelectUpTo(nodes, n) == nodes[..n]
  {
    if n > 0 {
      SelectEverything(c, nodes, n - 1);
    }
  }

  lemma ContextsOfFirst(s: seq<XmlNode>, n: nat)
    requires |s| <= n
    ensures First(Contexts(s), n) == Contexts(s) && First(s, n) == s
  {
  }

  lemma CollectStep(nodes: seq<XmlNode>, start: nat, i: nat)
    requires start <= i < |nodes|
    ensures Contexts(nodes[start..i + 1]) ==
              Contexts(nodes[start..i]) + if nodes[i].Ctx().Some? then [nodes[i].Ctx().value] else []
  {
    ContextsSnoc(nodes[start..i], nodes[i]);
    assert nodes[start..i + 1] == nodes[start..i] + [nodes[i]];
  }

  /** What either collecting loop has gathered: the final window when nothing is to be ordered,
      everything selected otherwise. */
  lemma Collected(c: Criteria, t: SortType, nodes: seq<XmlNode>, w: Window, start: nat, end: nat, rc: ResponseContext)
    requires c.Keyed(nodes) && w.skip >= 0 && w.paginate >= 1
    requires start == (if t.Unsorted? then w.skip else 0)
    requires end == (if t.Unsorted? && w.skip + w.paginate < |nodes| then w.skip + w.paginate else |nodes|)
    requires c.filter || c.unique ==>
               && rc.total == |c.Select(nodes)|
               && rc.contexts == First(Contexts(Drop(c.Select(nodes), start)), if start < end then end - start else 0)
    requires !c.filter && !c.unique ==>
               rc.total == |nodes| && rc.contexts == Contexts(if start < end then nodes[start..end] else [])
    ensures rc.total == |c.Select(nodes)|
    ensures !t.Unsorted? ==> rc.contexts == Contexts(c.Select(nodes))
    ensures t.Unsorted? ==>
              rc.contexts == if c.filter || c.unique then First(Contexts(Drop(c.Select(nodes), w.skip)), w.paginate)
                             else Contexts(Slice(nodes, w))
  {
    var kept := c.Select(nodes);
    if !c.filter && !c.unique {
      SelectEverything(c, nodes, |nodes|);
      assert nodes[..|nodes|] == nodes[0..|nodes|] == nodes;
      if t.Unsorted? && start < end {
        assert Slice(nodes, w) == nodes[start..end];
      }
    } else {
      assert Drop(kept, 0) == kept;
      if end == |nodes| {
        ContextsOfFirst(Drop(kept, start), if start < end then end - start else 0);
        if t.Unsorted? {
          ContextsOfFirst(Drop(kept, start), w.paginate);
        }
      }
    }
  }

  // ---------- One pipeline ----------

  lemma ContextsOfDrop(nodes: seq<XmlNode>, n: nat)
    requires AllHaveContexts(nodes)
    ensures Contexts(Drop(nodes, n)) == Drop(Contexts(nodes), n)
    ensures AllHaveContexts(Drop(nodes, n))
  {
    AllContexts(nodes);
    if n < |nodes| {
      assert nodes == nodes[..n] + nodes[n..];
      ContextsConcat(nodes[..n], nodes[n..]);
      AllContexts(nodes[..n]);
    }
  }

  lemma ContextsOfPrefix(nodes: seq<XmlNode>, n: nat)
    requires AllHaveContexts(nodes)
    ensures Contexts(First(nodes, n)) == First(Contexts(nodes), n)
  {
    AllContexts(nodes);
    if n < |nodes| {
      assert nodes == nodes[..n] + nodes[n..];
      ContextsConcat(nodes[..n], nodes[n..]);
      AllContexts(nodes[..n]);
    }
  }

  lemma ContextsOfSlice(nodes: seq<XmlNode>, w: Window)
    requires AllHaveContexts(nodes) && w.skip >= 0 && w.paginate >= 0
    ensures Contexts(Slice(nodes, w)) == Slice(Contexts(nodes), w)
    ensures First(Contexts(Drop(nodes, w.skip)), w.paginate) == Slice(Contexts(nodes), w)
  {
    ContextsOfDrop(nodes, w.skip);
    ContextsOfPrefix(Drop(nodes, w.skip), w.paginate);
  }

  lemma {:induction false} SelectedContexts(c: Criteria, nodes: seq<XmlNode>, n: nat)
    requires AllHaveContexts(nodes) && n <= |nodes|
    ensures AllHaveContexts(c.SelectUpTo(nodes, n))
  {
    if n > 0 {
      SelectedContexts(c, nodes, n - 1);
    }
  }

  /** If every node has a context, the code's answer is the pipeline's, whether it windows
      before, while or after it orders. */
  lemma AllPathsArePipeline(c: Criteria, t: SortType, fields: seq<SortField>, nodes: seq<XmlNode>, w: Window,
                            rc: ResponseContext)
    requires AllHaveContexts(nodes) && w.skip >= 0 && w.paginate >= 0
    requires IsAnswer(c, t, fields, nodes, w, rc)
    ensures IsPipeline(c, t, fields, nodes, w, rc)
  {
    if t.Unsorted? {
      SelectedContexts(c, nodes, |nodes|);
      ContextsOfSlice(c.Select(nodes), w);
      if !c.filter && !c.unique {
        SelectEverything(c, nodes, |nodes|);
        assert nodes[..|nodes|] == nodes;
      }
      assert Ordered(t, fields, Contexts(c.Select(nodes)), Contexts(c.Select(nodes)));
    }
  }

  lemma EmptyFilterSelectsEverything(nodes: seq<XmlNode>)
    ensures WithoutTerms(true).Keyed(nodes) && WithoutTerms(true).Select(nodes) == nodes
    ensures WithoutTerms(false).Keyed(nodes) && WithoutTerms(false).Select(nodes) == nodes
  {
    SelectEverything(WithoutTerms(true), nodes, |nodes|);
    SelectEverything(WithoutTerms(false), nodes, |nodes|);
    assert nodes[..|nodes|] == nodes;
  }

  /** A query that filters by no terms at all, or does not filter. */
  function WithoutTerms(filter: bool): Criteria {
    Criteria(filter, [], false, [])
  }

  /** The answers that a query has with such a filter are those that it has without. */
  ghost predicate FilterIsInvisible(t: SortType, fields: seq<SortField>, nodes: seq<XmlNode>, w: Window)
    requires w.skip >= 0 && w.paginate >= 0
  {
    forall rc :: IsAnswer(WithoutTerms(true), t, fields, nodes, w, rc)
            <==> IsAnswer(WithoutTerms(false), t, fields, nodes, w, rc)
  }

  /** A filter without terms selects everything, so asking for one should change nothing. That is
      so exactly when the answer is ordered, or no node of the window lacks a context, or no node
      behind the window has one. */
  lemma EmptyFilterChangesNothing(t: SortType, fields: seq<SortField>, nodes: seq<XmlNode>, w: Window)
    requires w.skip >= 0 && w.paginate >= 0
    ensures FilterIsInvisible(t, fields, nodes, w)
       <==> var rest := Drop(nodes, w.skip);
            !t.Unsorted? || AllHaveContexts(First(rest, w.paginate)) || Contexts(Drop(rest, w.paginate)) == []
  {
    EmptyFilterSelectsEverything(nodes);
    if t.Unsorted? {
      WindowsAgree(nodes, w);
      var filtered := ResponseContext(First(Contexts(Drop(nodes, w.skip)), w.paginate), |nodes|);
      assert IsAnswer(WithoutTerms(true), t, fields, nodes, w, filtered);
    }
  }

  /** A node without a context fills a window of one, unless a filter looks past it. */
  lemma EmptyFilterWitness(c: Context)
    ensures var nodes, w := [Text("x"), Element(Some(c), [])], Window(0, 1);
            && !FilterIsInvisible(Unsorted, [], nodes, w)
            && IsAnswer(WithoutTerms(true), Unsorted, [], nodes, w, ResponseContext([c], 2))
            && IsAnswer(WithoutTerms(false), Unsorted, [], nodes, w, ResponseContext([], 2))
  {
    var x, y := Text("x"), Element(Some(c), []);
    var nodes, w := [x, y], Window(0, 1);
    assert Drop(nodes, 0) == nodes && First(nodes, 1) == [x] && Drop(nodes, 1) == [y];
    ContextsSnoc([], x);
    ContextsSnoc([], y);
    ContextsSnoc([x], y);
    assert [] + [x] == [x] && [] + [y] == [y] && [x] + [y] == nodes;
    assert Contexts([x]) == [] && Contexts([y]) == [c] && Contexts(nodes) == [c];
    EmptyFilterSelectsEverything(nodes);
    EmptyFilterChangesNothing(Unsorted, [], nodes, w);
  }

  /** The filtered and the plain window of the same nodes. */
  lemma WindowsAgree(nodes: seq<XmlNode>, w: Window)
    requires w.skip >= 0 && w.paginate >= 0
    ensures First(Contexts(Drop(nodes, w.skip)), w.paginate) == Contexts(Slice(nodes, w))
       <==> var rest := Drop(nodes, w.skip);
            AllHaveContexts(First(rest, w.paginate)) || Contexts(Drop(rest, w.paginate)) == []
  {
    var rest := Drop(nodes, w.skip);
    var inside, behind := First(rest, w.paginate), Drop(rest, w.paginate);
    assert rest == inside + behind;
    ContextsConcat(inside, behind);
    if AllHaveContexts(inside) {
      AllContexts(inside);
    } else {
      MissingContext(inside);
    }
  }

  lemma {:induction false} MissingContext(nodes: seq<XmlNode>)
    ensures |Contexts(nodes)| == |nodes| <==> AllHaveContexts(nodes)
  {
    if nodes != [] {
      var n := |nodes| - 1;
      MissingContext(nodes[..n]);
      assert AllHaveContexts(nodes) ==> AllHaveContexts(nodes[..n]);
    }
  }

  // ---------- The pages of a grouped query, put together ----------

  /** What pages 1..p show of a list, one after the other. The list may be shorter than the
      result the groups were computed from, because of a filter. */
  function ShownByPages<T>(items: seq<T>, size: int, o: Options, p: nat): seq<T>
    requires Grouped(size, o) && p <= o.groups
  {
    if p == 0 then []
    else ShownByPages(items, size, o, p - 1) + Slice(items, Adjusted(size, o.(page := p)))
  }

  lemma {:induction false} PagesSoFar<T>(items: seq<T>, size: int, o: Options, p: nat)
    requires Grouped(size, o) && size >= o.skip && p <= o.groups && |items| <= size
    ensures GroupStart(size - o.skip, o.groups, p + 1) >= 0
    ensures ShownByPages(items, size, o, p) == First(Drop(items, o.skip), GroupStart(size - o.skip, o.groups, p + 1))
  {
    var n, g := size - o.skip, o.groups;
    GroupStartStep(n, g, p + 1);
    if p > 0 {
      PagesSoFar(items, size, o, p - 1);
      GroupedPage(size, o, p);
      GroupStartStep(n, g, p);
      NextSlice(items, size, o.skip, GroupStart(n, g, p), GroupLength(n, g, p), Adjusted(size, o.(page := p)));
    }
  }

  lemma NextSlice<T>(items: seq<T>, size: int, skip: nat, from: nat, count: nat, w: Window)
    requires |items| <= size && w.skip == skip + from && w.paginate >= 1 && w.ShownCount(size) == count
    ensures First(Drop(items, skip), from) + Slice(items, w) == First(Drop(items, skip), from + count)
  {
  }

  /** Pages 1..groups together show everything from skip on, once and in order. */
  lemma GroupedPagesShowEverything<T>(items: seq<T>, size: int, o: Options)
    requires Grouped(size, o) && size >= o.skip && |items| <= size
    ensures ShownByPages(items, size, o, o.groups) == Drop(items, o.skip)
  {
    PagesSoFar(items, size, o, o.groups);
    GroupStartStep(size - o.skip, o.groups, 1);
  }
}
