/** The skip/page/limit/group arithmetic of Response::query (cpp/response.cpp:212-238): which
    stretch of the result one page shows. */
module Paging {
  import opened SinglePrecision

  /** The options as the constructor leaves them; page is -1 for last(). */
  datatype Options = Options(skip: int, page: int, paginate: int, groups: int)

  /** skip_ and paginate_ after all adjustments. */
  datatype Window = Window(skip: int, paginate: int) {
    /** Position k of a list of this many items is shown. */
    predicate Shows(k: int, size: int) {
      skip <= k < size && k < skip + paginate
    }

    /** How many of the list's items are shown. */
    function ShownCount(size: int): int {
      if skip >= size then 0 else if skip + paginate < size then paginate else size - skip
    }
  }

  /** Where the floating-point division has a divisor other than zero; elsewhere the conversion
      of its result to int is undefined. */
  predicate Defined(o: Options) {
    if o.groups != 0 then o.groups < 0 || o.page <= o.groups
    else o.page == -1 ==> o.paginate != 0
  }

  /** skip_ and paginate_ after j rounds of the grouping loop. */
  function Rounds(size: int, o: Options, j: nat): Window
    requires o.groups < 0 || j <= o.groups
  {
    if j == 0 then Window(o.skip, o.paginate)
    else
      var w := Rounds(size, o, j - 1);
      var skip := if j > 1 then w.skip + w.paginate else w.skip;
      Window(skip, CeilQuotient(size - skip, o.groups - (j - 1)))
  }

  function PageNumber(size: int, o: Options): (p: int)
    requires Defined(o)
    ensures p >= 1
  {
    var page := if o.groups == 0 && o.page == -1 then CeilQuotient(size - o.skip, o.paginate) else o.page;
    if page <= 0 then 1 else page
  }

  function Clamped(w: Window): Window {
    Window(if w.skip < 0 then 0 else w.skip, if w.paginate < 1 then 1 else w.paginate)
  }

  function Adjusted(size: int, o: Options): (w: Window)
    requires Defined(o)
    ensures w.skip >= 0 && w.paginate >= 1
  {
    var page := PageNumber(size, o);
    Clamped(if o.groups != 0 then Rounds(size, o, page)
            else Window(o.skip + (page - 1) * o.paginate, o.paginate))
  }

  method AdjustWindow(size: int, o: Options) returns (w: Window)
    requires Defined(o)
    ensures w == Adjusted(size, o)
  {
    var skip_, paginate_, page_ := o.skip, o.paginate, o.page;
    if o.groups != 0 {
      if page_ <= 0 {
        page_ := 1;
      }
      var j := 0;
      while j < page_
        invariant 0 <= j <= page_
        invariant Window(skip_, paginate_) == Rounds(size, o, j)
      {
        if j > 0 {
          skip_ := skip_ + paginate_;
        }
        paginate_ := CeilQuotient(size - skip_, o.groups - j);
        j := j + 1;
      }
    } else {
      if page_ == -1 {
        page_ := CeilQuotient(size - skip_, paginate_);
      }
      if page_ <= 0 {
        page_ := 1;
      }
      skip_ := skip_ + (page_ - 1) * paginate_;
    }
    if paginate_ < 1 {
      paginate_ := 1;
    }
    if skip_ < 0 {
      skip_ := 0;
    }
    w := Window(skip_, paginate_);
  }

  // ---------- Groups ----------

  /** Groups are requested and the counts stay within 2^24. */
  predicate Grouped(size: int, o: Options) {
    o.groups >= 1 && o.skip >= 0 && size >= 0 && -TWO_TO_24 < size - o.skip <= TWO_TO_24
  }

  /** The q-and-r split of n items into g groups: the first r groups get one item more. */
  function GroupStart(n: int, g: int, p: int): int
    requires g >= 1
  {
    (p - 1) * (n / g) + if p - 1 < n % g then p - 1 else n % g
  }

  function GroupLength(n: int, g: int, p: int): int
    requires g >= 1
  {
    n / g + if p - 1 < n % g then 1 else 0
  }

  lemma GroupStartStep(n: int, g: int, p: int)
    requires g >= 1 && n >= 0 && p >= 1
    ensures GroupStart(n, g, 1) == 0
    ensures GroupStart(n, g, p + 1) == GroupStart(n, g, p) + GroupLength(n, g, p)
    ensures GroupStart(n, g, g + 1) == n
    ensures GroupLength(n, g, p) >= 0
  {
    assert p * (n / g) == (p - 1) * (n / g) + n / g;
  }

  lemma GroupStartMonotone(n: int, g: int, p: int, p': int)
    requires g >= 1 && n >= 0 && 1 <= p <= p'
    ensures GroupStart(n, g, p) <= GroupStart(n, g, p')
    decreases p' - p
  {
    if p < p' {
      GroupStartStep(n, g, p' - 1);
      GroupStartMonotone(n, g, p, p' - 1);
    }
  }

  /** What is left for groups p..g, shared among them, gives group p its length. */
  lemma RemainderShares(n: int, g: int, p: int)
    requires n >= 0 && 1 <= p <= g
    ensures CeilDiv(n - GroupStart(n, g, p), g - (p - 1)) == GroupLength(n, g, p)
  {
    var q, r, h := n / g, n % g, g - (p - 1);
    var left := n - GroupStart(n, g, p);
    assert n == q * g + r;
    assert q * g == q * h + (p - 1) * q;
    if p - 1 < r {
      assert left == q * h + (r - (p - 1));
      assert (q + 1) * h == q * h + h;
      CeilDivUnique(left, h, q + 1);
    } else {
      assert left == q * h;
      assert (q - 1) * h == q * h - h;
      CeilDivUnique(left, h, q);
    }
  }

  /** The loop hands group p exactly its share of [skip, size). */
  lemma {:induction false} RoundsExact(size: int, o: Options, p: nat)
    requires Grouped(size, o) && size >= o.skip && 1 <= p <= o.groups
    ensures Rounds(size, o, p) ==
              Window(o.skip + GroupStart(size - o.skip, o.groups, p), GroupLength(size - o.skip, o.groups, p))
  {
    var n, g := size - o.skip, o.groups;
    GroupStartStep(n, g, p);
    if p > 1 {
      RoundsExact(size, o, p - 1);
      GroupStartStep(n, g, p - 1);
    }
    GroupStartMonotone(n, g, 1, p);
    GroupStartMonotone(n, g, p, g + 1);
    GroupStartStep(n, g, g);
    RemainderShares(n, g, p);
    CeilQuotientIsExact(n - GroupStart(n, g, p), g - (p - 1));
  }

  /** Start and length of page p; the clamp to one item only touches groups that start at the
      end, where it shows nothing. */
  lemma GroupedPage(size: int, o: Options, p: nat)
    requires Grouped(size, o) && size >= o.skip && 1 <= p <= o.groups
    ensures Adjusted(size, o.(page := p)).skip == o.skip + GroupStart(size - o.skip, o.groups, p)
    ensures Adjusted(size, o.(page := p)).ShownCount(size) == GroupLength(size - o.skip, o.groups, p)
  {
    var n, g := size - o.skip, o.groups;
    var o' := o.(page := p);
    RoundsExact(size, o', p);
    GroupStartStep(n, g, p);
    GroupStartMonotone(n, g, 1, p);
    GroupStartMonotone(n, g, p + 1, g + 1);
    GroupStartStep(n, g, g);
    if GroupLength(n, g, p) == 0 {
      assert n / g == 0 && n % g == n;
    }
  }

  /** The groups partition [skip, size): each position is shown by exactly one page. */
  lemma GroupsPartition(size: int, o: Options, k: int) returns (page: nat)
    requires Grouped(size, o) && size >= o.skip
    requires o.skip <= k < size
    ensures 1 <= page <= o.groups && Adjusted(size, o.(page := page)).Shows(k, size)
    ensures forall p :: 1 <= p <= o.groups && p != page ==> !Adjusted(size, o.(page := p)).Shows(k, size)
  {
    var n, g := size - o.skip, o.groups;
    GroupStartStep(n, g, 1);
    page := 1;
    while k - o.skip >= GroupStart(n, g, page + 1)
      invariant 1 <= page <= g
      invariant GroupStart(n, g, page) <= k - o.skip
      decreases g - page
    {
      GroupStartStep(n, g, page);
      page := page + 1;
    }
    forall p | 1 <= p <= g
      ensures Adjusted(size, o.(page := p)).Shows(k, size) <==> p == page
    {
      GroupedPage(size, o, p);
      GroupStartStep(n, g, p);
      GroupStartStep(n, g, page);
      if p < page {
        GroupStartMonotone(n, g, p + 1, page);
      } else if p > page {
        GroupStartMonotone(n, g, page + 1, p);
      }
    }
  }

  /** Group sizes never grow from one page to a later one, and differ by at most one. */
  lemma GroupSizesEven(size: int, o: Options, p: nat, p': nat)
    requires Grouped(size, o) && size >= o.skip && 1 <= p <= p' <= o.groups
    ensures var a, b := Adjusted(size, o.(page := p)).ShownCount(size), Adjusted(size, o.(page := p')).ShownCount(size);
            b <= a <= b + 1
  {
    GroupedPage(size, o, p);
    GroupedPage(size, o, p');
  }

  lemma {:induction false} RoundsPastTheEnd(size: int, o: Options, p: nat)
    requires Grouped(size, o) && size < o.skip && 1 <= p <= o.groups
    ensures size <= Rounds(size, o, p).skip <= o.skip
    ensures Rounds(size, o, p).paginate <= 0
    ensures size <= Rounds(size, o, p).skip + Rounds(size, o, p).paginate
  {
    var skip := o.skip;
    if p > 1 {
      RoundsPastTheEnd(size, o, p - 1);
      skip := Rounds(size, o, p - 1).skip + Rounds(size, o, p - 1).paginate;
    }
    assert Rounds(size, o, p).skip == skip;
    var n, h := size - skip, o.groups - (p - 1);
    CeilQuotientIsExact(n, h);
    CeilDivNonPositive(n, h);
  }

  lemma CeilDivNonPositive(n: int, h: int)
    requires n <= 0 && h >= 1
    ensures n <= CeilDiv(n, h) <= 0
  {
    CeilDivBounds(n, h);
    var c := CeilDiv(n, h);
    if c > 0 {
      IntScale(0, c - 1, h);
    } else {
      assert c * h == c + c * (h - 1);
      IntScale(c, 0, h - 1);
    }
  }

  /** Skipping past the end leaves every group empty. */
  lemma GroupsPastTheEnd(size: int, o: Options, p: nat, k: int)
    requires Grouped(size, o) && size < o.skip && 1 <= p <= o.groups
    ensures !Adjusted(size, o.(page := p)).Shows(k, size)
  {
    RoundsPastTheEnd(size, o.(page := p), p);
  }

  // ---------- Pages before the first ----------

  lemma {:induction false} RoundsOfAnyPage(size: int, o: Options, page: int, j: nat)
    requires o.groups < 0 || j <= o.groups
    ensures Rounds(size, o.(page := page), j) == Rounds(size, o, j)
  {
    if j > 0 {
      RoundsOfAnyPage(size, o, page, j - 1);
    }
  }

  /** A page number of zero or less asks for the first page, except that -1 without groups is last(). */
  lemma PagesBeforeTheFirst(size: int, o: Options)
    requires Defined(o) && o.page <= 0 && (o.page == -1 ==> o.groups != 0)
    ensures Adjusted(size, o) == Adjusted(size, o.(page := 1))
  {
    if o.groups != 0 {
      RoundsOfAnyPage(size, o, 1, 1);
    }
  }

  /** The first page begins at skip, or at the start if that is negative, and has paginate items, or
      one if that is less. */
  lemma FirstPage(size: int, skip: int, page: int, paginate: int)
    requires page <= 1 && page != -1
    ensures Adjusted(size, Options(skip, page, paginate, 0)) ==
              Window(if skip >= 0 then skip else 0, if paginate >= 1 then paginate else 1)
  {
  }

  // ---------- Plain pages ----------

  predicate Plain(o: Options) {
    o.groups == 0 && o.skip >= 0 && o.paginate >= 1
  }

  /** Plain pages partition everything from skip on. */
  lemma PlainPagesPartition(size: int, o: Options, k: int, p: nat)
    requires Plain(o) && o.skip <= k < size && p >= 1
    ensures Adjusted(size, o.(page := p)).Shows(k, size) <==> p == (k - o.skip) / o.paginate + 1
  {
    PageOf(k - o.skip, o.paginate, p);
    assert (p - 1) * o.paginate >= 0;
  }

  lemma PageOf(m: int, g: int, p: int)
    requires g >= 1
    ensures (p - 1) * g <= m < (p - 1) * g + g <==> p == m / g + 1
  {
    var q := m / g;
    assert q * g <= m < q * g + g;
    if p - 1 < q {
      IntScale(p, q, g);
      assert p * g == (p - 1) * g + g;
    } else if p - 1 > q {
      IntScale(q + 1, p - 1, g);
      assert (q + 1) * g == q * g + g;
    }
  }

  /** last() is computed from the unfiltered size. On a selection of that many items it shows
      the final one exactly when filtering has not lowered the number of pages. */
  lemma LastPage(size: int, selected: int, o: Options)
    requires Plain(o) && o.page == -1 && o.skip < selected <= size && size - o.skip <= TWO_TO_24
    ensures Adjusted(size, o).Shows(selected - 1, selected)
       <==> CeilDiv(selected - o.skip, o.paginate) == CeilDiv(size - o.skip, o.paginate)
    ensures selected == size ==> Adjusted(size, o).Shows(size - 1, size)
  {
    var n, m, g := size - o.skip, selected - o.skip, o.paginate;
    CeilQuotientIsExact(n, g);
    CeilDivLast(n, g);
    CeilDivLast(m, g);
    var p := CeilDiv(n, g);
    assert Adjusted(size, o) == Adjusted(selected, o.(page := p));
    PlainPagesPartition(selected, o, selected - 1, p);
  }

  /** Three items in pages of two, of which a filter keeps one: last() shows the empty second page. */
  lemma LastPageMissesItem()
    ensures var o := Options(0, -1, 2, 0);
            Adjusted(3, o) == Window(2, 2) && !Adjusted(3, o).Shows(0, 1) && Adjusted(3, o).ShownCount(1) == 0
  {
    CeilQuotientIsExact(3, 2);
  }

  /** The number of pages is one more than the number of full pages before the last item. */
  lemma CeilDivLast(n: int, g: int)
    requires n >= 1 && g >= 1
    ensures CeilDiv(n, g) == (n - 1) / g + 1 >= 1
  {
    var q := (n - 1) / g;
    assert q * g <= n - 1 < q * g + g;
    assert (q + 1) * g == q * g + g;
    CeilDivUnique(n, g, q + 1);
  }
}
