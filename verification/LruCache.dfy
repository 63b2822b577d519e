/** The LRU cache of cpp/lru_cache.h: a list of pairs, an index from keys to list nodes and a
    running size. The per-cache mutex makes each operation one step. */
module LruCache {
  import opened Wrappers
  import opened LinkedList
  import opened RecencyList

  /** The values that list nodes hold. */
  ghost function Items<T>(chain: seq<Node<T>>): (s: seq<T>)
    requires forall i :: 0 <= i < |chain| ==> chain[i].value.Some?
    ensures |s| == |chain|
    ensures forall i :: 0 <= i < |chain| ==> s[i] == chain[i].value.value
  {
    seq(|chain|, i requires 0 <= i < |chain| => chain[i].value.value)
  }

  lemma ItemsErased<T>(chain: seq<Node<T>>, k: nat)
    requires k < |chain| && forall i :: 0 <= i < |chain| ==> chain[i].value.Some?
    ensures Items(chain[..k] + chain[k + 1..]) == Items(chain)[..k] + Items(chain)[k + 1..]
  {
  }

  lemma ItemsAttached<T>(chain: seq<Node<T>>, l: Node<T>)
    requires l.value.Some? && forall i :: 0 <= i < |chain| ==> chain[i].value.Some?
    ensures Items([l] + chain) == [l.value.value] + Items(chain)
  {
  }

  /** Every list node is what the index has for its key, and the index has nothing else. */
  ghost predicate Indexed<K(!new), V(!new)>(chain: seq<Node<(K, V)>>, index: map<K, Node<(K, V)>>) {
    && (forall i :: 0 <= i < |chain| ==>
          chain[i].value.Some? && chain[i].value.value.0 in index && index[chain[i].value.value.0] == chain[i])
    && (forall k :: k in index ==> IsNodeOf(chain, index[k], k))
  }

  ghost predicate IsNodeOf<K, V>(chain: seq<Node<(K, V)>>, l: Node<(K, V)>, key: K) {
    exists i :: 0 <= i < |chain| && chain[i] == l && l.value.Some? && l.value.value.0 == key
  }

  lemma IndexedErased<K(!new), V(!new)>(chain: seq<Node<(K, V)>>, index: map<K, Node<(K, V)>>, p: nat)
    requires Indexed(chain, index) && p < |chain|
    requires forall i, j :: 0 <= i < j < |chain| ==> chain[i] != chain[j]
    ensures Indexed(chain[..p] + chain[p + 1..], index - {chain[p].value.value.0})
  {
    var rest, key := chain[..p] + chain[p + 1..], chain[p].value.value.0;
    forall i | 0 <= i < |rest| ensures rest[i].value.Some? && rest[i].value.value.0 != key {
      assert rest[i] == chain[if i < p then i else i + 1];
    }
    forall k | k in index && k != key
      ensures IsNodeOf(rest, index[k], k)
    {
      assert IsNodeOf(chain, index[k], k);
      var i :| 0 <= i < |chain| && chain[i] == index[k];
      assert rest[if i < p then i else i - 1] == chain[i];
    }
  }

  lemma IndexedAttached<K(!new), V(!new)>(chain: seq<Node<(K, V)>>, index: map<K, Node<(K, V)>>, l: Node<(K, V)>)
    requires Indexed(chain, index) && l.value.Some? && l.value.value.0 !in index
    ensures Indexed([l] + chain, index[l.value.value.0 := l])
  {
    var all, key := [l] + chain, l.value.value.0;
    forall k | k in index
      ensures IsNodeOf(all, index[k], k)
    {
      assert IsNodeOf(chain, index[k], k);
      var i :| 0 <= i < |chain| && chain[i] == index[k];
      assert all[i + 1] == chain[i];
    }
    assert all[0] == l;
  }

  /** Moving a node to the front leaves the index right and moves its pair to the front. */
  lemma Spliced<K(!new), V(!new)>(chain: seq<Node<(K, V)>>, index: map<K, Node<(K, V)>>, p: nat)
    requires Indexed(chain, index) && p < |chain|
    requires forall i, j :: 0 <= i < j < |chain| ==> chain[i] != chain[j]
    ensures Indexed([chain[p]] + chain[..p] + chain[p + 1..], index)
    ensures Items([chain[p]] + chain[..p] + chain[p + 1..]) ==
              [Items(chain)[p]] + (Items(chain)[..p] + Items(chain)[p + 1..])
  {
    var l, rest := chain[p], chain[..p] + chain[p + 1..];
    var key := l.value.value.0;
    ItemsErased(chain, p);
    IndexedErased(chain, index, p);
    ItemsAttached(rest, l);
    IndexedAttached(rest, index - {key}, l);
    assert (index - {key})[key := l] == index;
    assert [l] + rest == [l] + chain[..p] + chain[p + 1..];
  }

  /** Attaching a node for a new key. */
  lemma Pushed<K(!new), V(!new)>(chain: seq<Node<(K, V)>>, index: map<K, Node<(K, V)>>, l: Node<(K, V)>, size: V -> nat)
    requires Indexed(chain, index) && l.value.Some? && l.value.value.0 !in index
    ensures Indexed([l] + chain, index[l.value.value.0 := l])
    ensures Items([l] + chain) == [l.value.value] + Items(chain)
    ensures Total(size, Items([l] + chain)) == size(l.value.value.1) + Total(size, Items(chain))
  {
    ItemsAttached(chain, l);
    IndexedAttached(chain, index, l);
    TotalCons(size, l.value.value, Items(chain));
  }

  lemma IndexedKeysDistinct<K(!new), V(!new)>(chain: seq<Node<(K, V)>>, index: map<K, Node<(K, V)>>)
    requires Indexed(chain, index)
    requires forall i, j :: 0 <= i < j < |chain| ==> chain[i] != chain[j]
    ensures DistinctKeys(Items(chain))
  {
  }

  lemma IndexedFront<K(!new), V(!new)>(chain: seq<Node<(K, V)>>, index: map<K, Node<(K, V)>>, key: K)
    requires Indexed(chain, index) && chain != [] && chain[0].value.value.0 == key
    ensures index[key] == chain[0]
  {
  }

  class Cache<K(==, !new), V(!new)> {
    const list: List<(K, V)>
    const maxSize: nat
    const sizeOf: V -> nat
    var index: map<K, Node<(K, V)>>
    var currSize: int

    ghost function Repr(): set<object>
      reads this, list
    {
      {this, list, list.end} + set l | l in list.chain
    }

    /** The list, the index and the size counter agree. */
    ghost predicate Consistent()
      reads this, list, list.end, list.chain
    {
      && list.Valid()
      && Indexed(list.chain, index)
      && currSize == Total(sizeOf, Items(list.chain))
    }

    ghost predicate Valid()
      reads this, list, list.end, list.chain
    {
      Consistent() && currSize <= maxSize
    }

    /** The cached pairs, most recent first. */
    ghost function Contents(): seq<(K, V)>
      reads this, list, list.end, list.chain
      requires Consistent()
    {
      Items(list.chain)
    }

    constructor (size: nat, sizeOf: V -> nat)
      ensures Valid() && Contents() == []
      ensures maxSize == size && this.sizeOf == sizeOf
      ensures fresh(list) && fresh(list.end)
    {
      list := new List();
      maxSize := size;
      this.sizeOf := sizeOf;
      index := map[];
      currSize := 0;
    }

    lemma DistinctNodes()
      requires Consistent()
      ensures forall i, j :: 0 <= i < j < |list.chain| ==> list.chain[i] != list.chain[j]
      ensures DistinctKeys(Contents())
    {
      forall i, j | 0 <= i < j < |list.chain| ensures list.chain[i] != list.chain[j] {
        assert Nth(list.end, list.chain, i) != Nth(list.end, list.chain, j);
      }
      IndexedKeysDistinct(list.chain, index);
    }

    /** Where a key's node sits in the list. */
    lemma PositionOf(key: K) returns (p: nat)
      requires Consistent() && key in index
      ensures p < |list.chain| && list.chain[p] == index[key] && Contents()[p].0 == key
      ensures Without(Contents(), key) == Contents()[..p] + Contents()[p + 1..]
      ensures Find(Contents(), key) == Some(Contents()[p].1)
      ensures Total(sizeOf, Contents()) == Total(sizeOf, Without(Contents(), key)) + sizeOf(Contents()[p].1)
    {
      DistinctNodes();
      assert IsNodeOf(list.chain, index[key], key);
      p :| 0 <= p < |list.chain| && list.chain[p] == index[key];
      WithoutAt(Contents(), p);
      TotalAt(sizeOf, Contents(), p);
    }

    lemma Absent(key: K)
      requires Consistent()
      ensures key !in index ==> Without(Contents(), key) == Contents() && Find(Contents(), key) == None
      ensures key in index <==> Find(Contents(), key).Some?
    {
      if key !in index {
        WithoutAbsent(Contents(), key);
      } else {
        var p := PositionOf(key);
      }
    }

    method Clear()
      requires Valid()
      modifies this, list, list.end
      ensures Valid() && Contents() == []
    {
      list.Clear();
      index := map[];
      currSize := 0;
    }

    method Exists(key: K) returns (b: bool)
      requires Valid()
      ensures b <==> Find(Contents(), key).Some?
    {
      Absent(key);
      b := key in index;
    }

    /** _remove */
    method RemoveEntry(key: K)
      requires Consistent() && key in index
      modifies Repr()
      ensures Consistent() && Contents() == Without(old(Contents()), key)
      ensures index == old(index) - {key}
      ensures Repr() <= old(Repr())
    {
      ghost var p := PositionOf(key);
      DistinctNodes();
      ghost var chain := list.chain;
      ItemsErased(chain, p);
      IndexedErased(chain, index, p);
      currSize := currSize - sizeOf(index[key].value.value.1);
      list.Erase(index[key], p);
      index := index - {key};
      assert list.chain == chain[..p] + chain[p + 1..];
    }

    /** _touch: moves the node of a known key to the front and says whether there was one. */
    method TouchEntry(key: K) returns (found: bool)
      requires Consistent()
      modifies Repr()
      ensures Consistent() && Contents() == ToFront(old(Contents()), key)
      ensures index == old(index) && currSize == old(currSize) && found == (key in index)
      ensures Repr() <= old(Repr())
    {
      Absent(key);
      found := key in index;
      if found {
        ghost var p := PositionOf(key);
        DistinctNodes();
        Spliced(list.chain, index, p);
        list.SpliceToFront(index[key], p);
      }
    }

    method Remove(key: K)
      requires Valid()
      modifies Repr()
      ensures Valid() && Contents() == Without(old(Contents()), key)
      ensures Repr() <= old(Repr())
    {
      Absent(key);
      if key !in index {
        return;
      }
      ghost var p := PositionOf(key);
      RemoveEntry(key);
    }

    method Touch(key: K)
      requires Valid()
      modifies Repr()
      ensures Valid() && Contents() == ToFront(old(Contents()), key)
      ensures Repr() <= old(Repr())
    {
      var _ := TouchEntry(key);
    }

    /** A pointer to the cached data, or null. It touches the key whatever its flag says, so with
        touch == false the order is left alone only if the key is unknown or already first. */
    method FetchPtr(key: K, touch: bool) returns (r: Option<Node<(K, V)>>)
      requires Valid()
      modifies Repr()
      ensures Valid() && Contents() == ToFront(old(Contents()), key)
      ensures r.None? <==> Find(old(Contents()), key).None?
      ensures r.Some? ==> list.chain != [] && r.value == list.chain[0]
                          && r.value.value == Some((key, Find(old(Contents()), key).value))
      ensures !touch ==>
                (Contents() == old(Contents())
                 <==> r.None? || (old(Contents()) != [] && old(Contents())[0].0 == key))
      ensures Repr() <= old(Repr())
    {
      Absent(key);
      DistinctNodes();
      ToFrontUnchanged(Contents(), key);
      if key !in index {
        return None;
      }
      ghost var p := PositionOf(key);
      var _ := TouchEntry(key);
      IndexedFront(list.chain, index, key);
      return Some(index[key]);
    }

    /** A copy of the cached data; None stands for an empty Data object. */
    method Fetch(key: K, touchData: bool) returns (r: Option<V>)
      requires Valid()
      modifies Repr()
      ensures r == Find(old(Contents()), key)
      ensures Valid() && Contents() == if touchData then ToFront(old(Contents()), key) else old(Contents())
      ensures Repr() <= old(Repr())
    {
      Absent(key);
      if key !in index {
        return None;
      }
      ghost var p := PositionOf(key);
      r := Some(index[key].value.value.1);
      if touchData {
        var _ := TouchEntry(key);
      }
    }

    method Insert(key: K, data: V)
      requires Valid()
      modifies Repr()
      ensures Valid() && Contents() == Inserted(sizeOf, maxSize, old(Contents()), key, data)
      ensures fresh(Repr() - old(Repr()))
    {
      DropEntry(key);
      PushEntry(key, data);
      EvictOverflow();
    }

    /** The first half of insert: touch the key, and if it was there remove it. */
    method DropEntry(key: K)
      requires Consistent()
      modifies Repr()
      ensures Consistent() && Contents() == Without(old(Contents()), key) && key !in index
      ensures Repr() <= old(Repr())
    {
      Absent(key);
      WithoutToFront(Contents(), key);
      var found := TouchEntry(key);
      if found {
        RemoveEntry(key);
      }
    }

    /** The actual insert at the head of the list. */
    method PushEntry(key: K, data: V)
      requires Consistent() && key !in index
      modifies Repr()
      ensures Consistent() && Contents() == [(key, data)] + old(Contents())
      ensures fresh(Repr() - old(Repr()))
    {
      ghost var chain, before := list.chain, index;
      var liter := list.PushFront((key, data));
      index := index[key := liter];
      currSize := currSize + sizeOf(data);
      Pushed(chain, before, liter, sizeOf);
    }

    /** The eviction loop. */
    method EvictOverflow()
      requires Consistent()
      modifies Repr()
      ensures Valid() && Contents() == Fit(sizeOf, maxSize, old(Contents()))
      ensures Repr() <= old(Repr())
    {
      while currSize > maxSize
        invariant Consistent()
        invariant Fit(sizeOf, maxSize, Contents()) == Fit(sizeOf, maxSize, old(Contents()))
        invariant Repr() <= old(Repr())
        decreases |list.chain|
      {
        ghost var last := |list.chain| - 1;
        assert Nth(list.end, list.chain, last + 1).prev == Nth(list.end, list.chain, last);
        var liter := list.end.prev;
        EvictLast(last);
        RemoveEntry(liter.value.value.0);
      }
    }

    lemma EvictLast(last: int)
      requires Consistent() && last == |list.chain| - 1 && currSize > 0
      ensures last >= 0 && list.chain[last].value.value.0 in index
      ensures Without(Contents(), list.chain[last].value.value.0) == Contents()[..last]
    {
      DistinctNodes();
      WithoutAt(Contents(), last);
    }

    method GetAllKeys() returns (keys: seq<K>)
      requires Valid()
      ensures |keys| == |Contents()|
      ensures forall i :: 0 <= i < |keys| ==> keys[i] == Contents()[i].0
    {
      keys := [];
      var liter := list.end.next;
      assert Nth(list.end, list.chain, -1) == list.end;
      assert forall i :: 0 <= i < |list.chain| ==> Nth(list.end, list.chain, i) != Nth(list.end, list.chain, -1);
      while liter != list.end
        invariant |keys| <= |list.chain| && liter == Nth(list.end, list.chain, |keys|)
        invariant forall i :: 0 <= i < |keys| ==> keys[i] == Contents()[i].0
        decreases |list.chain| - |keys|
      {
        keys := keys + [liter.value.value.0];
        liter := liter.next;
      }
    }
  }
}
