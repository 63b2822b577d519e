/** std::list as the LRU cache uses it: a ring of nodes through a sentinel, whose nodes keep
    their identity while they are moved. */
module LinkedList {
  import opened Wrappers

  class Node<T> {
    const value: Option<T>
    var next: Node<T>
    var prev: Node<T>

    constructor Sentinel()
      ensures value == None && next == this && prev == this
    {
      value := None;
      next, prev := this, this;
    }

    constructor (x: T)
      ensures value == Some(x)
    {
      value := Some(x);
      next, prev := this, this;
    }
  }

  /** Walking a ring: positions -1 and |c| are the sentinel. */
  ghost function Nth<T>(end: Node<T>, c: seq<Node<T>>, i: int): Node<T> {
    if 0 <= i < |c| then c[i] else end
  }

  ghost predicate Distinct<T>(end: Node<T>, c: seq<Node<T>>) {
    forall i, j :: -1 <= i < j < |c| ==> Nth(end, c, i) != Nth(end, c, j)
  }

  lemma ErasedNth<T>(end: Node<T>, c: seq<Node<T>>, k: nat, i: int)
    requires k < |c| && -1 <= i < |c|
    ensures Nth(end, c[..k] + c[k + 1..], i) == Nth(end, c, if i < k then i else i + 1)
  {
  }

  lemma ErasedDistinct<T>(end: Node<T>, c: seq<Node<T>>, k: nat)
    requires k < |c| && Distinct(end, c)
    ensures Distinct(end, c[..k] + c[k + 1..])
  {
    var r := c[..k] + c[k + 1..];
    forall i, j | -1 <= i < j < |r| ensures Nth(end, r, i) != Nth(end, r, j) {
      ErasedNth(end, c, k, i);
      ErasedNth(end, c, k, j);
    }
  }

  lemma AttachedNth<T>(end: Node<T>, c: seq<Node<T>>, l: Node<T>, i: int)
    requires -1 <= i <= |c|
    ensures Nth(end, [l] + c, i + 1) == if i == -1 then l else Nth(end, c, i)
  {
  }

  lemma AttachedDistinct<T>(end: Node<T>, c: seq<Node<T>>, l: Node<T>)
    requires Distinct(end, c) && l !in c && l != end
    ensures Distinct(end, [l] + c)
  {
    var r := [l] + c;
    forall i, j | -1 <= i < j < |r| ensures Nth(end, r, i) != Nth(end, r, j) {
      if i >= 0 {
        AttachedNth(end, c, l, i - 1);
        assert i > 0 ==> Nth(end, c, i - 1) != Nth(end, c, j - 1);
      } else {
        assert Nth(end, c, -1) == end && (j > 0 ==> Nth(end, c, -1) != Nth(end, c, j - 1));
      }
      AttachedNth(end, c, l, j - 1);
    }
  }

  class List<T> {
    const end: Node<T>
    ghost var chain: seq<Node<T>>

    ghost predicate Valid()
      reads this, end, chain
    {
      && Distinct(end, chain)
      && (forall i :: 0 <= i < |chain| ==> chain[i].value.Some?)
      && (forall i :: -1 <= i < |chain| ==> Nth(end, chain, i).next == Nth(end, chain, i + 1))
      && (forall i :: 0 <= i <= |chain| ==> Nth(end, chain, i).prev == Nth(end, chain, i - 1))
    }

    constructor ()
      ensures Valid() && chain == [] && fresh(end)
    {
      end := new Node.Sentinel();
      chain := [];
    }

    method Clear()
      requires Valid()
      modifies this, end
      ensures Valid() && chain == []
    {
      end.next, end.prev := end, end;
      chain := [];
    }

    method Attach(l: Node<T>)
      requires Valid() && l !in chain && l != end && l.value.Some?
      modifies this, end, chain, l
      ensures Valid() && chain == [l] + old(chain)
    {
      ghost var c := chain;
      var first := end.next;
      assert Nth(end, c, -1) == end == Nth(end, c, |c|) && first == Nth(end, c, 0);
      l.next, l.prev := first, end;
      first.prev := l;
      end.next := l;
      chain := [l] + chain;
      AttachedDistinct(end, c, l);
      forall i | -1 <= i <= |c| ensures Nth(end, chain, i).next == Nth(end, chain, i + 1) {
        AttachedNth(end, c, l, i);
        if i >= 0 {
          AttachedNth(end, c, l, i - 1);
          assert i > 0 ==> Nth(end, c, i - 1) != end;
        }
      }
      forall i | 0 <= i <= |c| + 1 ensures Nth(end, chain, i).prev == Nth(end, chain, i - 1) {
        AttachedNth(end, c, l, i - 1);
        if i > 0 {
          AttachedNth(end, c, l, i - 2);
        }
      }
    }

    method PushFront(x: T) returns (l: Node<T>)
      requires Valid()
      modifies this, end, chain
      ensures Valid() && fresh(l) && l.value == Some(x) && chain == [l] + old(chain)
    {
      l := new Node(x);
      Attach(l);
    }

    /** Takes the node at position k out of the ring. */
    method Erase(l: Node<T>, ghost k: nat)
      requires Valid() && k < |chain| && chain[k] == l
      modifies this, end, chain
      ensures Valid() && chain == old(chain)[..k] + old(chain)[k + 1..]
    {
      ghost var c := chain;
      var p, n := l.prev, l.next;
      assert l == Nth(end, c, k) && p == Nth(end, c, k - 1) && n == Nth(end, c, k + 1);
      p.next := n;
      n.prev := p;
      chain := c[..k] + c[k + 1..];
      ErasedDistinct(end, c, k);
      forall i | -1 <= i < |chain| ensures Nth(end, chain, i).next == Nth(end, chain, i + 1) {
        ErasedNth(end, c, k, i);
        ErasedNth(end, c, k, i + 1);
      }
      forall i | 0 <= i <= |chain| ensures Nth(end, chain, i).prev == Nth(end, chain, i - 1) {
        ErasedNth(end, c, k, i);
        ErasedNth(end, c, k, i - 1);
      }
    }

    /** splice(begin(), *this, l): moves the node to the front. */
    method SpliceToFront(l: Node<T>, ghost k: nat)
      requires Valid() && k < |chain| && chain[k] == l
      modifies this, end, chain
      ensures Valid() && chain == [l] + old(chain)[..k] + old(chain)[k + 1..]
    {
      assert l == Nth(end, chain, k) != Nth(end, chain, -1);
      Erase(l, k);
      ErasedNotIn(end, old(chain), k);
      Attach(l);
    }
  }

  lemma ErasedNotIn<T>(end: Node<T>, c: seq<Node<T>>, k: nat)
    requires k < |c| && Distinct(end, c)
    ensures c[k] !in c[..k] + c[k + 1..]
  {
    forall i | 0 <= i < |c| && i != k ensures c[i] != c[k] {
      assert Nth(end, c, i) == c[i] && Nth(end, c, k) == c[k];
    }
  }
}
