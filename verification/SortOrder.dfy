/** The multi-key comparator Response::sortCallback (cpp/response.cpp:300-323) and what it
    takes for it to be the strict weak ordering that std::sort asks for. */
module SortOrder {
  import opened Wrappers
  import opened NaturalOrder
  import opened StrictWeakOrders

  /** What sorting reads of a Context: its id and, per query, the answers of getData and
      getCount. Both cache their answer, so they are functions of the query. */
  datatype Context = Context(id: int, data: map<string, string>, counts: map<string, int>) {
    function GetCount(query: string): int {
      if query in counts then counts[query] else 0
    }

    function GetData(query: string): string {
      if query in data then data[query] else ""
    }
  }

  datatype SortDirection = Asc | Desc

  datatype SortField = SortField(field: string, count: bool, direction: SortDirection)

  datatype Error = EmptyDataQuery

  // ---------- The callback ----------

  /** One field's say: Some(comp) stops the loop, None moves on to the next field. */
  function FieldVote(f: SortField, lhs: Context, rhs: Context): Result<Option<bool>, Error> {
    if f.field == "id" then Ok(Some((lhs.id < rhs.id) != f.direction.Desc?))
    else if f.count then
      var l, r := lhs.GetCount(f.field), rhs.GetCount(f.field);
      if l == r then Ok(None) else Ok(Some((l < r) != f.direction.Desc?))
    else if f.field == "" then Err(EmptyDataQuery)
    else
      var c := CompareNat(lhs.GetData(f.field), rhs.GetData(f.field));
      if c == 0 then Ok(None) else Ok(Some((c > 0) != f.direction.Desc?))
  }

  function Callback(fields: seq<SortField>, lhs: Context, rhs: Context): Result<bool, Error> {
    if fields == [] then Ok(false)
    else
      match FieldVote(fields[0], lhs, rhs)
      case Err(e) => Err(e)
      case Ok(Some(comp)) => Ok(comp)
      case Ok(None) => Callback(fields[1..], lhs, rhs)
  }

  method SortCallback(fields: seq<SortField>, lhs: Context, rhs: Context) returns (r: Result<bool, Error>)
    ensures r == Callback(fields, lhs, rhs)
  {
    var comp := false;
    var i := 0;
    assert fields[0..] == fields;
    while i < |fields|
      invariant 0 <= i <= |fields|
      invariant !comp
      invariant Callback(fields[i..], lhs, rhs) == Callback(fields, lhs, rhs)
    {
      var f := fields[i];
      assert fields[i..][0] == f && fields[i..][1..] == fields[i + 1..];
      i := i + 1;
      if f.field == "id" {
        comp := lhs.id < rhs.id;
      } else if f.count {
        var lcount, rcount := lhs.GetCount(f.field), rhs.GetCount(f.field);
        if lcount == rcount {
          continue;
        }
        comp := lcount < rcount;
      } else {
        if f.field == "" {
          return Err(EmptyDataQuery);
        }
        var icomp := StrCompareNat(lhs.GetData(f.field), rhs.GetData(f.field));
        if icomp == 0 {
          continue;
        }
        comp := icomp > 0;
      }
      if f.direction == Desc {
        comp := !comp;
      }
      return Ok(comp);
    }
    return Ok(comp);
  }

  // ---------- The order the sort terms describe ----------

  function Sign(n: int): int {
    if n > 0 then 1 else if n < 0 then -1 else 0
  }

  /** 1 if lhs comes first by this field, -1 if rhs does, 0 if they tie. */
  function FieldRank(f: SortField, lhs: Context, rhs: Context): int {
    var up :=
      if f.field == "id" then Sign(rhs.id - lhs.id)
      else if f.count then Sign(rhs.GetCount(f.field) - lhs.GetCount(f.field))
      else Sign(CompareNat(lhs.GetData(f.field), rhs.GetData(f.field)));
    if f.direction.Desc? then -up else up
  }

  /** The first field that does not tie decides. */
  function Rank(fields: seq<SortField>, lhs: Context, rhs: Context): int {
    if fields == [] then 0
    else
      var r := FieldRank(fields[0], lhs, rhs);
      if r != 0 then r else Rank(fields[1..], lhs, rhs)
  }

  /** The fields the callback can consult: up to and including the first "id", which always
      decides. */
  function Consulted(fields: seq<SortField>): (c: seq<SortField>)
    ensures |c| <= |fields|
  {
    if fields == [] then []
    else if fields[0].field == "id" then fields[..1]
    else [fields[0]] + Consulted(fields[1..])
  }

  /** No consulted field is the empty data query, on which getData throws. */
  predicate NeverThrows(fields: seq<SortField>) {
    forall i :: 0 <= i < |Consulted(fields)| ==>
      Consulted(fields)[i].field == "id" || Consulted(fields)[i].count || Consulted(fields)[i].field != ""
  }

  /** The field that settles every comparison, if there is one, is DESC(id). */
  predicate EndsInDescId(fields: seq<SortField>) {
    var c := Consulted(fields);
    |c| > 0 && c[|c| - 1].field == "id" && c[|c| - 1].direction.Desc?
  }

  lemma ConsultedTail(fields: seq<SortField>)
    requires fields != [] && fields[0].field != "id"
    ensures NeverThrows(fields) ==> NeverThrows(fields[1..]) && (fields[0].count || fields[0].field != "")
    ensures |fields| > 1 ==> EndsInDescId(fields) == EndsInDescId(fields[1..])
    ensures |fields| == 1 ==> !EndsInDescId(fields)
  {
    var c := Consulted(fields);
    assert c[1..] == Consulted(fields[1..]);
    if NeverThrows(fields) {
      assert c[0] == fields[0];
      forall i | 0 <= i < |Consulted(fields[1..])|
        ensures var f := Consulted(fields[1..])[i]; f.field == "id" || f.count || f.field != ""
      {
        assert c[i + 1] == Consulted(fields[1..])[i];
      }
    }
  }

  /** What the callback answers: "comes first by the consulted fields", except that a final
      DESC(id) turns a tie into true. */
  lemma {:induction false} CallbackIsRank(fields: seq<SortField>, lhs: Context, rhs: Context)
    requires NeverThrows(fields)
    ensures Callback(fields, lhs, rhs).Ok?
    ensures Callback(fields, lhs, rhs).value <==>
              Rank(Consulted(fields), lhs, rhs) > 0
              || (EndsInDescId(fields) && Rank(Consulted(fields), lhs, rhs) == 0)
  {
    if fields != [] {
      var c := Consulted(fields);
      if fields[0].field != "id" {
        ConsultedTail(fields);
        assert c[1..] == Consulted(fields[1..]);
        CallbackIsRank(fields[1..], lhs, rhs);
      } else {
        assert c == [fields[0]] && c[1..] == [];
      }
    }
  }

  /** Comparing comes to an empty data query: all fields ahead of it tie, and none is "id". */
  predicate ReachesEmptyQuery(fields: seq<SortField>, lhs: Context, rhs: Context, k: nat) {
    && k < |fields| && fields[k].field == "" && !fields[k].count
    && forall i :: 0 <= i < k ==> fields[i].field != "id" && FieldRank(fields[i], lhs, rhs) == 0
  }

  lemma {:induction false} ThrowsExactly(fields: seq<SortField>, lhs: Context, rhs: Context)
    ensures Callback(fields, lhs, rhs).Err? <==> exists k: nat :: ReachesEmptyQuery(fields, lhs, rhs, k)
  {
    if fields != [] {
      var rest := fields[1..];
      ThrowsExactly(rest, lhs, rhs);
      if fields[0].field == "" && !fields[0].count {
        assert ReachesEmptyQuery(fields, lhs, rhs, 0);
      } else if k: nat :| ReachesEmptyQuery(fields, lhs, rhs, k) {
        assert k > 0 && ReachesEmptyQuery(rest, lhs, rhs, k - 1);
      } else if fields[0].field != "id" && FieldRank(fields[0], lhs, rhs) == 0 {
        forall k: nat ensures !ReachesEmptyQuery(rest, lhs, rhs, k) {
          assert !ReachesEmptyQuery(fields, lhs, rhs, k + 1);
        }
      }
    }
  }

  // ---------- What rank means ----------

  /** A single field: 1 means that a comes first. */
  lemma OneFieldDecides(q: string, count: bool, a: Context, b: Context)
    ensures Rank([SortField("id", count, Asc)], a, b) > 0 <==> a.id < b.id
    ensures Rank([SortField("id", count, Desc)], a, b) > 0 <==> a.id > b.id
    ensures q != "id" && q in a.counts && q in b.counts ==>
              && (Rank([SortField(q, true, Asc)], a, b) > 0 <==> a.counts[q] < b.counts[q])
              && (Rank([SortField(q, true, Desc)], a, b) > 0 <==> a.counts[q] > b.counts[q])
    ensures q != "id" && q in a.data && q in b.data ==>
              && (Rank([SortField(q, false, Asc)], a, b) > 0 <==> CompareNat(a.data[q], b.data[q]) > 0)
              && (Rank([SortField(q, false, Desc)], a, b) > 0 <==> CompareNat(a.data[q], b.data[q]) < 0)
  {
    forall f: SortField ensures Rank([f], a, b) == FieldRank(f, a, b) {
      assert [f][1..] == [];
    }
  }

  /** A field has its say only when all those before it tie. */
  lemma FieldsDecideInTurn(f: SortField, rest: seq<SortField>, a: Context, b: Context)
    ensures Rank([f] + rest, a, b) == if Rank([f], a, b) != 0 then Rank([f], a, b) else Rank(rest, a, b)
  {
    assert [f][1..] == [] && ([f] + rest)[1..] == rest;
  }

  /** Consulted are all fields, or those up to the first "id". */
  lemma {:induction false} ConsultedExactly(fields: seq<SortField>, k: nat)
    requires k <= |fields| && forall i :: 0 <= i < k ==> fields[i].field != "id"
    ensures k == |fields| ==> Consulted(fields) == fields
    ensures k < |fields| && fields[k].field == "id" ==> Consulted(fields) == fields[..k + 1]
  {
    if k > 0 {
      var rest := fields[1..];
      assert forall i :: 0 <= i < k - 1 ==> rest[i] == fields[i + 1];
      ConsultedExactly(rest, k - 1);
      assert fields == [fields[0]] + rest;
      if k < |fields| {
        assert rest[k - 1] == fields[k] && fields[..k + 1] == [fields[0]] + rest[..k];
      }
    }
  }

  // ---------- Rank is a total preorder ----------

  /** The numbers in the data values that these fields compare have at most nine fractional digits
      and are within the range of doubles. */
  predicate WithinTolerance(fields: seq<SortField>, c: Context) {
    forall i :: 0 <= i < |fields| ==> FieldWithin(fields[i], c)
  }

  predicate FieldWithin(f: SortField, c: Context) {
    f.field == "id" || f.count || Tame(c.GetData(f.field))
  }

  lemma {:induction false} RankAntisymmetric(fields: seq<SortField>, a: Context, b: Context)
    ensures Rank(fields, a, b) == -Rank(fields, b, a)
  {
    if fields != [] {
      var f := fields[0];
      CompareNatAntisymmetric(a.GetData(f.field), b.GetData(f.field));
      RankAntisymmetric(fields[1..], a, b);
    }
  }

  lemma FieldRankTransitive(f: SortField, a: Context, b: Context, c: Context)
    requires FieldWithin(f, a) && FieldWithin(f, b) && FieldWithin(f, c)
    requires FieldRank(f, a, b) >= 0 && FieldRank(f, b, c) >= 0
    ensures FieldRank(f, a, c) >= 0
    ensures FieldRank(f, a, c) == 0 <==> FieldRank(f, a, b) == 0 == FieldRank(f, b, c)
  {
    if f.field != "id" && !f.count {
      var x, y, z := a.GetData(f.field), b.GetData(f.field), c.GetData(f.field);
      if f.direction.Asc? {
        CompareNatTransitive(x, y, z);
      } else {
        CompareNatAntisymmetric(x, y);
        CompareNatAntisymmetric(y, z);
        CompareNatAntisymmetric(x, z);
        CompareNatTransitive(z, y, x);
      }
    }
  }

  lemma {:induction false} RankTransitive(fields: seq<SortField>, a: Context, b: Context, c: Context)
    requires WithinTolerance(fields, a) && WithinTolerance(fields, b) && WithinTolerance(fields, c)
    requires Rank(fields, a, b) >= 0 && Rank(fields, b, c) >= 0
    ensures Rank(fields, a, c) >= 0
    ensures Rank(fields, a, c) == 0 <==> Rank(fields, a, b) == 0 == Rank(fields, b, c)
  {
    if fields != [] {
      var f := fields[0];
      assert FieldWithin(f, a) && FieldWithin(f, b) && FieldWithin(f, c);
      FieldRankTransitive(f, a, b, c);
      if FieldRank(f, a, b) == 0 == FieldRank(f, b, c) {
        RankTransitive(fields[1..], a, b, c);
      }
    }
  }

  // ---------- Strict weak ordering ----------

  function Before(fields: seq<SortField>): (Context, Context) -> bool {
    (a, b) => Callback(fields, a, b) == Ok(true)
  }

  /** The contexts to be sorted hold only numbers that the comparison handles well, and comparing
      them never throws. */
  predicate Comparable(fields: seq<SortField>, s: seq<Context>) {
    && NeverThrows(fields)
    && (forall i :: 0 <= i < |s| ==> WithinTolerance(Consulted(fields), s[i]))
  }

  /** The callback is a strict weak ordering exactly when it does not end in DESC(id). */
  lemma CallbackIsStrictWeakOrder(fields: seq<SortField>, s: seq<Context>)
    requires Comparable(fields, s) && s != []
    ensures StrictWeakOrder(Before(fields), s) <==> !EndsInDescId(fields)
  {
    var keys, less := Consulted(fields), Before(fields);
    if EndsInDescId(fields) {
      CallbackIsRank(fields, s[0], s[0]);
      RankAntisymmetric(keys, s[0], s[0]);
      assert less(s[0], s[0]);
    } else {
      forall a, b ensures less(a, b) <==> Rank(keys, a, b) > 0 {
        CallbackIsRank(fields, a, b);
      }
      forall a, b ensures Rank(keys, a, b) == -Rank(keys, b, a) {
        RankAntisymmetric(keys, a, b);
      }
      forall a, b, c | a in s && b in s && c in s
        ensures less(a, b) && less(b, c) ==> less(a, c)
        ensures !less(a, b) && !less(b, c) ==> !less(a, c)
      {
        if Rank(keys, a, b) >= 0 && Rank(keys, b, c) >= 0 {
          RankTransitive(keys, a, b, c);
        }
        if Rank(keys, c, b) >= 0 && Rank(keys, b, a) >= 0 {
          RankTransitive(keys, c, b, a);
        }
      }
    }
  }

  // ---------- The exact reach ----------

  predicate IsData(f: SortField) {
    f.field != "id" && !f.count
  }

  predicate ComparesData(fields: seq<SortField>) {
    exists i :: 0 <= i < |Consulted(fields)| && IsData(Consulted(fields)[i])
  }

  /** The numbers in the data values that are compared have at most so many digits before and behind
      the point. */
  predicate DataWithin(fields: seq<SortField>, c: Context, whole: nat, fraction: nat) {
    forall i :: 0 <= i < |Consulted(fields)| && IsData(Consulted(fields)[i]) ==>
      WithinDigits(c.GetData(Consulted(fields)[i].field), whole, fraction)
  }

  predicate AllDataWithin(fields: seq<SortField>, s: seq<Context>, whole: nat, fraction: nat) {
    forall i :: 0 <= i < |s| ==> DataWithin(fields, s[i], whole, fraction)
  }

  /** The callback is a strict weak ordering on all lists of contexts with such data. */
  ghost predicate OrdersWithin(fields: seq<SortField>, whole: nat, fraction: nat) {
    forall s: seq<Context> :: AllDataWithin(fields, s, whole, fraction) ==> StrictWeakOrder(Before(fields), s)
  }

  lemma WithinIsComparable(fields: seq<SortField>, s: seq<Context>, whole: nat, fraction: nat)
    requires NeverThrows(fields) && AllDataWithin(fields, s, whole, fraction)
    requires !ComparesData(fields) || whole == 0 || (fraction <= 9 && whole <= 308)
    ensures Comparable(fields, s)
  {
    var keys := Consulted(fields);
    forall i | 0 <= i < |s| ensures WithinTolerance(keys, s[i]) {
      assert DataWithin(fields, s[i], whole, fraction);
      forall j | 0 <= j < |keys| ensures FieldWithin(keys[j], s[i]) {
        if IsData(keys[j]) {
          WithinIsTame(s[i].GetData(keys[j].field), whole, fraction);
        }
      }
    }
  }

  /** A context with one data value, and no more. */
  function Witness(id: int, query: string, value: string): Context {
    Context(id, map[query := value], map[])
  }

  lemma EmptyValue(whole: nat, fraction: nat)
    ensures WithinDigits("", whole, fraction) && CompareNat("", "") == 0
  {
    TextTokens("");
    CompareNatAntisymmetric("", "");
  }

  lemma WitnessWithin(fields: seq<SortField>, id: int, query: string, value: string, whole: nat, fraction: nat)
    requires WithinDigits(value, whole, fraction)
    ensures DataWithin(fields, Witness(id, query, value), whole, fraction)
  {
    EmptyValue(whole, fraction);
  }

  /** Fields that do not read the one data value tie on witnesses, but for the id. */
  lemma WitnessRank(f: SortField, query: string, x: Context, y: Context, v: string, w: string)
    requires x == Witness(x.id, query, v) && y == Witness(y.id, query, w)
    ensures f.field != "id" && f.count ==> FieldRank(f, x, y) == 0
    ensures IsData(f) && f.field != query ==> FieldRank(f, x, y) == 0
    ensures IsData(f) && f.field == query ==>
              FieldRank(f, x, y) == if f.direction.Desc? then -Sign(CompareNat(v, w)) else Sign(CompareNat(v, w))
    ensures f.field == "id" && f.direction.Asc? ==> FieldRank(f, x, y) == Sign(y.id - x.id)
  {
    EmptyValue(0, 0);
  }

  /** If the data values tie, the smaller id comes first or nothing decides. */
  lemma {:induction false} TiedWitnesses(keys: seq<SortField>, query: string, x: Context, y: Context,
                                         v: string, w: string)
    requires x == Witness(x.id, query, v) && y == Witness(y.id, query, w)
    requires CompareNat(v, w) == 0 && x.id < y.id
    requires forall i :: 0 <= i < |keys| && keys[i].field == "id" ==> keys[i].direction.Asc?
    ensures Rank(keys, x, y) >= 0
  {
    if keys != [] {
      WitnessRank(keys[0], query, x, y, v, w);
      TiedWitnesses(keys[1..], query, x, y, v, w);
    }
  }

  /** The first data field decides between witnesses, unless their values tie. */
  lemma {:induction false} DecidedWitnesses(keys: seq<SortField>, i: nat, x: Context, y: Context, v: string, w: string)
    requires i < |keys| && IsData(keys[i])
    requires forall j :: 0 <= j < i ==> keys[j].field != "id" && keys[j].count
    requires x == Witness(x.id, keys[i].field, v) && y == Witness(y.id, keys[i].field, w)
    ensures FieldRank(keys[i], x, y) != 0 ==> Rank(keys, x, y) == FieldRank(keys[i], x, y)
    decreases i
  {
    WitnessRank(keys[0], keys[i].field, x, y, v, w);
    if i > 0 {
      DecidedWitnesses(keys[1..], i - 1, x, y, v, w);
    }
  }

  lemma ConsultedIds(fields: seq<SortField>)
    requires !EndsInDescId(fields)
    ensures forall i :: 0 <= i < |Consulted(fields)| && Consulted(fields)[i].field == "id" ==>
              i == |Consulted(fields)| - 1 && Consulted(fields)[i].direction.Asc?
  {
    ConsultedIdIsLast(fields);
  }

  lemma {:induction false} ConsultedIdIsLast(fields: seq<SortField>)
    ensures forall i :: 0 <= i < |Consulted(fields)| - 1 ==> Consulted(fields)[i].field != "id"
  {
    if fields != [] && fields[0].field != "id" {
      ConsultedIdIsLast(fields[1..]);
      assert Consulted(fields)[1..] == Consulted(fields[1..]);
      forall i | 0 <= i < |Consulted(fields)| - 1 ensures Consulted(fields)[i].field != "id" {
        if i > 0 {
          assert Consulted(fields)[i] == Consulted(fields[1..])[i - 1];
        }
      }
    }
  }

  lemma FirstData(keys: seq<SortField>) returns (i: nat)
    requires exists j :: 0 <= j < |keys| && IsData(keys[j])
    ensures i < |keys| && IsData(keys[i]) && forall j :: 0 <= j < i ==> !IsData(keys[j])
  {
    i := 0;
    while !IsData(keys[i])
      invariant 0 <= i < |keys| && forall j :: 0 <= j < i ==> !IsData(keys[j])
      invariant exists j :: i <= j < |keys| && IsData(keys[j])
      decreases |keys| - i
    {
      i := i + 1;
    }
  }

  /** One pair of the witnesses: the earlier of the two, in the order of the ids, does not come
      after the other. */
  lemma WitnessPair(keys: seq<SortField>, i: nat, x: Context, y: Context, v: string, w: string)
    requires i < |keys| && IsData(keys[i])
    requires forall j :: 0 <= j < i ==> keys[j].field != "id" && keys[j].count
    requires forall j :: 0 <= j < |keys| && keys[j].field == "id" ==> keys[j].direction.Asc?
    requires x == Witness(x.id, keys[i].field, v) && y == Witness(y.id, keys[i].field, w) && x.id < y.id
    requires if keys[i].direction.Desc? then CompareNat(v, w) <= 0 else CompareNat(v, w) >= 0
    ensures Rank(keys, x, y) >= 0
  {
    WitnessRank(keys[i], keys[i].field, x, y, v, w);
    if CompareNat(v, w) == 0 {
      TiedWitnesses(keys, keys[i].field, x, y, v, w);
    } else {
      DecidedWitnesses(keys, i, x, y, v, w);
    }
  }

  /** By field f, u does not come after v, nor v after w, and yet u comes after w. */
  predicate Circle(f: SortField, u: string, v: string, w: string) {
    if f.direction.Desc? then CompareNat(u, v) <= 0 && CompareNat(v, w) <= 0 && CompareNat(u, w) > 0
    else CompareNat(u, v) >= 0 && CompareNat(v, w) >= 0 && CompareNat(u, w) < 0
  }

  /** Three contexts whose ids and data values go round in a circle. */
  lemma CircleIsNoOrder(fields: seq<SortField>, i: nat, u: string, v: string, w: string)
    requires NeverThrows(fields) && !EndsInDescId(fields)
    requires i < |Consulted(fields)| && IsData(Consulted(fields)[i])
    requires forall j :: 0 <= j < i ==> !IsData(Consulted(fields)[j])
    requires Circle(Consulted(fields)[i], u, v, w)
    ensures var q := Consulted(fields)[i].field;
            !StrictWeakOrder(Before(fields), [Witness(1, q, u), Witness(2, q, v), Witness(3, q, w)])
  {
    var keys, less, q := Consulted(fields), Before(fields), Consulted(fields)[i].field;
    var x, y, z := Witness(1, q, u), Witness(2, q, v), Witness(3, q, w);
    ConsultedIds(fields);
    WitnessPair(keys, i, x, y, u, v);
    WitnessPair(keys, i, y, z, v, w);
    CompareNatAntisymmetric(u, w);
    WitnessRank(keys[i], q, z, x, w, u);
    DecidedWitnesses(keys, i, z, x, w, u);
    RankAntisymmetric(keys, x, y);
    RankAntisymmetric(keys, y, z);
    CallbackIsRank(fields, z, y);
    CallbackIsRank(fields, y, x);
    CallbackIsRank(fields, z, x);
    var s := [x, y, z];
    assert z in s && y in s && x in s;
    assert !less(z, y) && !less(y, x) && less(z, x);
  }

  lemma WitnessesWithin(fields: seq<SortField>, q: string, u: string, v: string, w: string, whole: nat, fraction: nat)
    requires WithinDigits(u, whole, fraction) && WithinDigits(v, whole, fraction) && WithinDigits(w, whole, fraction)
    ensures AllDataWithin(fields, [Witness(1, q, u), Witness(2, q, v), Witness(3, q, w)], whole, fraction)
  {
    WitnessWithin(fields, 1, q, u, whole, fraction);
    WitnessWithin(fields, 2, q, v, whole, fraction);
    WitnessWithin(fields, 3, q, w, whole, fraction);
  }

  /** Three values that go round in a circle by f. */
  lemma SomeCircle(f: SortField, whole: nat, fraction: nat) returns (u: string, v: string, w: string)
    requires whole > 0 && (fraction > 9 || whole > 308)
    ensures Circle(f, u, v, w)
    ensures WithinDigits(u, whole, fraction) && WithinDigits(v, whole, fraction) && WithinDigits(w, whole, fraction)
  {
    u, v, w := BeyondReach(whole, fraction);
    CompareNatAntisymmetric(u, v);
    CompareNatAntisymmetric(v, w);
    CompareNatAntisymmetric(u, w);
    if f.direction.Desc? {
      u, w := w, u;
    }
  }

  lemma NoOrderBeyond(fields: seq<SortField>, whole: nat, fraction: nat) returns (s: seq<Context>)
    requires NeverThrows(fields) && !EndsInDescId(fields) && ComparesData(fields)
    requires whole > 0 && (fraction > 9 || whole > 308)
    ensures AllDataWithin(fields, s, whole, fraction) && !StrictWeakOrder(Before(fields), s)
  {
    var i := FirstData(Consulted(fields));
    var f := Consulted(fields)[i];
    var u, v, w := SomeCircle(f, whole, fraction);
    WitnessesWithin(fields, f.field, u, v, w, whole, fraction);
    CircleIsNoOrder(fields, i, u, v, w);
    s := [Witness(1, f.field, u), Witness(2, f.field, v), Witness(3, f.field, w)];
  }

  /** The callback is a strict weak ordering on all contexts with at most so many digits exactly if
      it does not end in DESC(id), and compares no data or only such as the order of strings can
      handle. */
  lemma OrdersExactly(fields: seq<SortField>, whole: nat, fraction: nat)
    requires NeverThrows(fields)
    ensures OrdersWithin(fields, whole, fraction)
       <==> && !EndsInDescId(fields)
            && (!ComparesData(fields) || whole == 0 || (fraction <= 9 && whole <= 308))
  {
    if EndsInDescId(fields) {
      var c := Witness(0, "", "");
      EmptyValue(whole, fraction);
      WitnessWithin(fields, 0, "", "", whole, fraction);
      CallbackIsRank(fields, c, c);
      RankAntisymmetric(Consulted(fields), c, c);
      assert Before(fields)(c, c) && c in [c];
      assert AllDataWithin(fields, [c], whole, fraction) && !StrictWeakOrder(Before(fields), [c]);
    } else if !ComparesData(fields) || whole == 0 || (fraction <= 9 && whole <= 308) {
      forall s: seq<Context> | AllDataWithin(fields, s, whole, fraction)
        ensures StrictWeakOrder(Before(fields), s)
      {
        WithinIsComparable(fields, s, whole, fraction);
        if s != [] {
          CallbackIsStrictWeakOrder(fields, s);
        }
      }
    } else {
      var s := NoOrderBeyond(fields, whole, fraction);
    }
  }

  /** Sorted by DESC(id), every context comes before itself. */
  lemma DescIdIsReflexive(c: Context)
    ensures Callback([SortField("id", false, Desc)], c, c) == Ok(true)
  {
  }

  /** Where x goes into a sorted list: behind the last element that it does not come before. */
  method InsertionPoint(fields: seq<SortField>, x: Context, out: seq<Context>) returns (r: Result<nat, Error>)
    ensures NeverThrows(fields) ==> r.Ok?
    ensures NeverThrows(fields) ==>
              && r.value <= |out|
              && (forall j :: r.value <= j < |out| ==> Before(fields)(x, out[j]))
              && (r.value > 0 ==> !Before(fields)(x, out[r.value - 1]))
    ensures r.Ok? ==> r.value <= |out|
  {
    var k := |out|;
    while k > 0
      invariant 0 <= k <= |out|
      invariant forall j :: k <= j < |out| ==> Before(fields)(x, out[j])
    {
      if NeverThrows(fields) {
        CallbackIsRank(fields, x, out[k - 1]);
      }
      var less := SortCallback(fields, x, out[k - 1]);
      if less.Err? {
        return Err(less.error);
      }
      if !less.value {
        break;
      }
      k := k - 1;
    }
    return Ok(k);
  }

  /** No context comes before an earlier one by the fields. */
  ghost predicate SortedByRank(fields: seq<SortField>, s: seq<Context>) {
    forall i, j :: 0 <= i < j < |s| ==> Rank(Consulted(fields), s[i], s[j]) >= 0
  }

  lemma SortedIsByRank(fields: seq<SortField>, s: seq<Context>, r: seq<Context>)
    requires NeverThrows(fields) && StrictWeakOrder(Before(fields), s) && SortedRearrangement(Before(fields), s, r)
    ensures SortedByRank(fields, r)
  {
    forall i, j | 0 <= i < j < |r| ensures Rank(Consulted(fields), r[i], r[j]) >= 0 {
      assert r[j] in multiset(s) && !Before(fields)(r[j], r[i]);
      CallbackIsRank(fields, r[j], r[i]);
      RankAntisymmetric(Consulted(fields), r[i], r[j]);
    }
  }

  /** So sorting by id puts smaller ids first. */
  lemma SortedById(direction: SortDirection, r: seq<Context>)
    requires SortedByRank([SortField("id", false, direction)], r)
    ensures forall i, j :: 0 <= i < j < |r| ==> if direction.Asc? then r[i].id <= r[j].id else r[i].id >= r[j].id
  {
    ConsultedExactly([SortField("id", false, direction)], 0);
    forall i, j | 0 <= i < j < |r| ensures if direction.Asc? then r[i].id <= r[j].id else r[i].id >= r[j].id {
      assert Rank(Consulted([SortField("id", false, direction)]), r[i], r[j]) >= 0;
      OneFieldDecides("", false, r[j], r[i]);
      RankAntisymmetric([SortField("id", false, direction)], r[i], r[j]);
    }
  }

  /** std::sort, by insertion. Its contract is the library's: with a strict weak ordering the
      result is a sorted rearrangement, in no promised order among ties; without one nothing
      is promised about it. An exception of the comparator ends the sort. */
  method StdSort(fields: seq<SortField>, s: seq<Context>) returns (r: Result<seq<Context>, Error>)
    ensures NeverThrows(fields) ==> r.Ok?
    ensures NeverThrows(fields) && StrictWeakOrder(Before(fields), s) ==>
              SortedRearrangement(Before(fields), s, r.value) && SortedByRank(fields, r.value)
    ensures Comparable(fields, s) && !EndsInDescId(fields) ==>
              && multiset(r.value) == multiset(s)
              && forall i, j :: 0 <= i < j < |r.value| ==> Rank(Consulted(fields), r.value[i], r.value[j]) >= 0
  {
    var out: seq<Context> := [];
    ghost var less := Before(fields);
    ghost var promised := NeverThrows(fields) && StrictWeakOrder(less, s);
    assert s[..0] == [] && s[..|s|] == s;
    for i := 0 to |s|
      invariant promised ==> SortedRearrangement(less, s[..i], out)
    {
      var point := InsertionPoint(fields, s[i], out);
      if point.Err? {
        return Err(point.error);
      }
      var k := point.value;
      if promised {
        InsertKeepsSorted(less, s, i, out, k);
      }
      out := out[..k] + [s[i]] + out[k..];
    }
    if promised {
      SortedIsByRank(fields, s, out);
    }
    if Comparable(fields, s) && !EndsInDescId(fields) && s != [] {
      CallbackIsStrictWeakOrder(fields, s);
    }
    return Ok(out);
  }
}
