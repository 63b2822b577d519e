/** The abstract value of the LRU cache: its pairs, most recent first, and what each cache
    operation means on them. */
module RecencyList {
  import opened Wrappers

  ghost predicate DistinctKeys<K, V>(c: seq<(K, V)>) {
    forall i, j :: 0 <= i < j < |c| ==> c[i].0 != c[j].0
  }

  function Find<K(==), V>(c: seq<(K, V)>, k: K): Option<V> {
    if c == [] then None else if c[0].0 == k then Some(c[0].1) else Find(c[1..], k)
  }

  function Without<K(==), V>(c: seq<(K, V)>, k: K): seq<(K, V)> {
    if c == [] then [] else (if c[0].0 == k then [] else [c[0]]) + Without(c[1..], k)
  }

  function ToFront<K(==), V>(c: seq<(K, V)>, k: K): seq<(K, V)> {
    match Find(c, k)
    case None => c
    case Some(v) => [(k, v)] + Without(c, k)
  }

  function Total<K, V>(size: V -> nat, c: seq<(K, V)>): nat {
    if c == [] then 0 else size(c[0].1) + Total(size, c[1..])
  }

  /** Dropping pairs from the back until the rest fits. */
  function Fit<K, V>(size: V -> nat, max: nat, c: seq<(K, V)>): seq<(K, V)> {
    if Total(size, c) <= max then c else Fit(size, max, c[..|c| - 1])
  }

  function Inserted<K(==), V>(size: V -> nat, max: nat, c: seq<(K, V)>, k: K, v: V): seq<(K, V)> {
    Fit(size, max, [(k, v)] + Without(c, k))
  }

  lemma {:induction false} WithoutAbsent<K, V>(c: seq<(K, V)>, k: K)
    requires forall i :: 0 <= i < |c| ==> c[i].0 != k
    ensures Without(c, k) == c && Find(c, k) == None
  {
    if c != [] {
      WithoutAbsent(c[1..], k);
    }
  }

  lemma {:induction false} WithoutTwice<K, V>(c: seq<(K, V)>, k: K)
    ensures Without(Without(c, k), k) == Without(c, k)
  {
    if c != [] {
      WithoutTwice(c[1..], k);
      if c[0].0 == k {
        assert Without(c, k) == Without(c[1..], k);
      } else {
        assert Without(c, k)[1..] == Without(c[1..], k);
      }
    }
  }

  /** Touching a key before removing it makes no difference. */
  lemma WithoutToFront<K, V>(c: seq<(K, V)>, k: K)
    ensures Without(ToFront(c, k), k) == Without(c, k)
  {
    WithoutTwice(c, k);
    if Find(c, k).Some? {
      assert ToFront(c, k)[1..] == Without(c, k);
    }
  }

  /** With distinct keys, removing a key cuts out its one position. */
  lemma {:induction false} WithoutAt<K, V>(c: seq<(K, V)>, i: nat)
    requires DistinctKeys(c) && i < |c|
    ensures Without(c, c[i].0) == c[..i] + c[i + 1..]
    ensures Find(c, c[i].0) == Some(c[i].1)
  {
    var k := c[i].0;
    if i == 0 {
      WithoutAbsent(c[1..], k);
    } else {
      assert c[1..][i - 1] == c[i];
      WithoutAt(c[1..], i - 1);
      assert c[..i] + c[i + 1..] == [c[0]] + (c[1..][..i - 1] + c[1..][i..]);
    }
  }

  /** Touching a key leaves the order alone exactly if the key is unknown or already first. */
  lemma ToFrontUnchanged<K, V>(c: seq<(K, V)>, k: K)
    requires DistinctKeys(c)
    ensures ToFront(c, k) == c <==> Find(c, k).None? || (c != [] && c[0].0 == k)
  {
    if c != [] && c[0].0 == k {
      WithoutAt(c, 0);
      assert c == [c[0]] + c[1..];
    }
  }

  /** A touched pair comes to the front; the others keep their order. */
  lemma ToFrontAt<K, V>(c: seq<(K, V)>, i: nat)
    requires DistinctKeys(c) && i < |c|
    ensures ToFront(c, c[i].0) == [c[i]] + c[..i] + c[i + 1..]
  {
    WithoutAt(c, i);
  }

  /** The older of two pairs, touched. */
  lemma TouchSwapsTwo()
    ensures ToFront([(1, "a"), (2, "b")], 2) == [(2, "b"), (1, "a")]
  {
    var c, empty: seq<(int, string)> := [(1, "a"), (2, "b")], [];
    assert c[1..] == [(2, "b")] && c[1..][1..] == empty;
    assert Without(c[1..], 2) == Without(empty, 2) == empty;
    assert Without(c, 2) == [c[0]] + empty == [(1, "a")];
    assert Find(c, 2) == Find(c[1..], 2) == Some("b");
  }

  lemma {:induction false} TotalConcat<K, V>(size: V -> nat, a: seq<(K, V)>, b: seq<(K, V)>)
    ensures Total(size, a + b) == Total(size, a) + Total(size, b)
  {
    if a == [] {
      assert a + b == b;
    } else {
      assert (a + b)[1..] == a[1..] + b;
      TotalConcat(size, a[1..], b);
    }
  }

  lemma TotalCons<K, V>(size: V -> nat, x: (K, V), c: seq<(K, V)>)
    ensures Total(size, [x] + c) == size(x.1) + Total(size, c)
  {
    assert ([x] + c)[1..] == c;
  }

  lemma TotalAt<K, V>(size: V -> nat, c: seq<(K, V)>, i: nat)
    requires i < |c|
    ensures Total(size, c) == Total(size, c[..i] + c[i + 1..]) + size(c[i].1)
  {
    TotalConcat(size, c[..i], c[i + 1..]);
    TotalConcat(size, c[..i], c[i..]);
    assert c == c[..i] + c[i..] && c[i..][1..] == c[i + 1..];
  }

  /** What eviction keeps is the longest prefix that fits. */
  lemma {:induction false} FitIsLongestPrefix<K, V>(size: V -> nat, max: nat, c: seq<(K, V)>)
    ensures Fit(size, max, c) <= c && Total(size, Fit(size, max, c)) <= max
    ensures forall n :: 0 <= n <= |c| && Total(size, c[..n]) <= max ==> n <= |Fit(size, max, c)|
  {
    if Total(size, c) > max {
      var shorter := c[..|c| - 1];
      FitIsLongestPrefix(size, max, shorter);
      assert c[..|c|] == c;
      assert forall n :: 0 <= n < |c| ==> c[..n] == shorter[..n];
    }
  }

  /** Inserting puts the pair in front of the others and keeps as many as fit, from the front. */
  lemma InsertedAt<K, V>(size: V -> nat, max: nat, c: seq<(K, V)>, k: K, v: V, i: nat)
    requires DistinctKeys(c) && i <= |c| && if i < |c| then c[i].0 == k else forall j :: 0 <= j < |c| ==> c[j].0 != k
    ensures var all := [(k, v)] + if i < |c| then c[..i] + c[i + 1..] else c;
            var r := Inserted(size, max, c, k, v);
            r <= all && Total(size, r) <= max && forall n :: |r| < n <= |all| ==> Total(size, all[..n]) > max
  {
    if i < |c| {
      WithoutAt(c, i);
    } else {
      WithoutAbsent(c, k);
    }
    FitIsLongestPrefix(size, max, [(k, v)] + Without(c, k));
  }

  /** A pair larger than the whole cache does not survive its own insertion. */
  lemma OversizedInsertEmptiesCache<K, V>(size: V -> nat, max: nat, c: seq<(K, V)>, k: K, v: V)
    ensures size(v) > max <==> Inserted(size, max, c, k, v) == []
  {
    var all := [(k, v)] + Without(c, k);
    FitIsLongestPrefix(size, max, all);
    assert all[..1] == [(k, v)] && all[..1][1..] == [];
    if Fit(size, max, all) != [] {
      var f := Fit(size, max, all);
      assert f[0] == all[0];
    }
  }
}
