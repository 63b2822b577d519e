/** Strict weak orderings, as std::sort asks for them, and insertion into a sorted list. */
module StrictWeakOrders {

  ghost predicate StrictWeakOrder<T(!new)>(less: (T, T) -> bool, s: seq<T>) {
    && (forall a :: a in s ==> !less(a, a))
    && (forall a, b, c :: a in s && b in s && c in s && less(a, b) && less(b, c) ==> less(a, c))
    && (forall a, b, c :: a in s && b in s && c in s && !less(a, b) && !less(b, c) ==> !less(a, c))
  }

  ghost predicate Sorted<T(!new)>(less: (T, T) -> bool, s: seq<T>) {
    forall i, j :: 0 <= i < j < |s| ==> !less(s[j], s[i])
  }

  ghost predicate SortedRearrangement<T(!new)>(less: (T, T) -> bool, s: seq<T>, r: seq<T>) {
    multiset(r) == multiset(s) && Sorted(less, r)
  }

  lemma InsertedIsSorted<T(!new)>(less: (T, T) -> bool, x: T, out: seq<T>, k: nat)
    requires k <= |out| && Sorted(less, out)
    requires forall j :: 0 <= j < k ==> !less(x, out[j])
    requires forall j :: k <= j < |out| ==> !less(out[j], x)
    ensures Sorted(less, out[..k] + [x] + out[k..])
  {
    var r := out[..k] + [x] + out[k..];
    forall i, j | 0 <= i < j < |r| ensures !less(r[j], r[i]) {
      assert r[i] == if i < k then out[i] else if i == k then x else out[i - 1];
      assert r[j] == if j < k then out[j] else if j == k then x else out[j - 1];
    }
  }

  lemma InsertedMultiset<T>(s: seq<T>, i: nat, out: seq<T>, k: nat)
    requires i < |s| && k <= |out| && multiset(out) == multiset(s[..i])
    ensures multiset(out[..k] + [s[i]] + out[k..]) == multiset(s[..i + 1])
    ensures forall j :: 0 <= j < |out| ==> out[j] in s
  {
    assert out == out[..k] + out[k..];
    assert s[..i + 1] == s[..i] + [s[i]];
    forall j | 0 <= j < |out| ensures out[j] in s {
      assert out[j] in multiset(s[..i]);
    }
  }

  /** Inserting s[i] behind an element it does not come before, ahead of those it does. */
  lemma InsertKeepsSorted<T(!new)>(less: (T, T) -> bool, s: seq<T>, i: nat, out: seq<T>, k: nat)
    requires StrictWeakOrder(less, s) && i < |s| && k <= |out|
    requires SortedRearrangement(less, s[..i], out)
    requires k > 0 ==> !less(s[i], out[k - 1])
    requires forall j :: k <= j < |out| ==> less(s[i], out[j])
    ensures SortedRearrangement(less, s[..i + 1], out[..k] + [s[i]] + out[k..])
  {
    InsertedMultiset(s, i, out, k);
    var x := s[i];
    forall j | 0 <= j < k ensures !less(x, out[j]) {
      assert out[j] in s && out[k - 1] in s;
    }
    forall j | k <= j < |out| ensures !less(out[j], x) {
      assert out[j] in s;
    }
    InsertedIsSorted(less, x, out, k);
  }
}
