/**
 * The pool of singly linked lists of src/common/LinkedListPool.h. All items
 * of all lists live in one vector; an item holds the index of the next item,
 * and index 0 is a reserved item that stands for "no item". A list is the
 * pair of its first and last index, an iterator is an index. Lists are split
 * and concatenated by rewriting `next` fields, never by copying items.
 *
 * An iterator's pointer to its pool is left out: every iterator here
 * belongs to the one pool at hand.
 */
module LinkedListPool {
  import opened Common

  datatype Item<T> = Item(next: nat, value: T)

  /** A list: its first and last item; `head == 0` is the empty list. */
  datatype List = List(head: nat, tail: nat)

  datatype ListIterator = ListIterator(index: nat)

  /** `List::isEmpty`. */
  predicate IsEmpty(l: List) { l.head == 0 }

  /** `ListIterator::operator bool`: the iterator points at an item. */
  predicate IsValidIterator(it: ListIterator) { it.index != 0 }

  /** The item at index 0 is the sentinel, and every `next` stays inside the vector. */
  ghost predicate PoolInv<T>(data: seq<Item<T>>)
  {
    |data| >= 1 && data[0].next == 0 && forall i :: 0 <= i < |data| ==> data[i].next < |data|
  }

  /**
   * `p` is the chain of items of `l`: the empty chain for the empty list,
   * otherwise distinct real items from `l.head` to `l.tail`, each linked to
   * the following one.
   */
  ghost predicate ChainOf<T>(data: seq<Item<T>>, l: List, p: seq<nat>)
  {
    (l.head == 0 <==> p == []) &&
    (p != [] ==> p[0] == l.head && p[|p| - 1] == l.tail) &&
    (forall i :: 0 <= i < |p| ==> 0 < p[i] < |data|) &&
    (forall i :: 0 <= i < |p| - 1 ==> data[p[i]].next == p[i + 1]) &&
    Distinct(p)
  }

  /** The values of the chain's items, in list order. */
  ghost function Values<T>(data: seq<Item<T>>, p: seq<nat>): (vs: seq<T>)
    requires forall i :: 0 <= i < |p| ==> p[i] < |data|
    ensures |vs| == |p|
  {
    seq(|p|, i requires 0 <= i < |p| => data[p[i]].value)
  }

  /** The index reached from `index` after k increments of an iterator. */
  ghost function Walk<T>(data: seq<Item<T>>, index: nat, k: nat): (r: nat)
    requires PoolInv(data) && index < |data|
    ensures r < |data|
    decreases k
  {
    if k == 0 then index else Walk(data, data[index].next, k - 1)
  }

  /**
   * Incrementing an iterator from the head of a list visits its items in
   * order, all valid, and after the last one arrives at `end(list)`.
   */
  lemma {:induction false} WalkFollowsChain<T>(data: seq<Item<T>>, l: List, p: seq<nat>, k: nat)
    requires PoolInv(data) && ChainOf(data, l, p) && l.head < |data| && k <= |p|
    ensures k < |p| ==> Walk(data, l.head, k) == p[k] && IsValidIterator(ListIterator(p[k]))
    ensures p != [] && k == |p| ==> Walk(data, l.head, k) == data[l.tail].next
  {
    var j := 0;
    while j < k
      invariant 0 <= j <= k
      invariant j < |p| ==> Walk(data, l.head, j) == p[j]
      invariant p != [] && j == |p| ==> Walk(data, l.head, j) == data[l.tail].next
    {
      WalkStep(data, l.head, j);
      j := j + 1;
    }
  }

  lemma {:induction false} WalkStep<T>(data: seq<Item<T>>, index: nat, k: nat)
    requires PoolInv(data) && index < |data|
    ensures Walk(data, index, k + 1) == data[Walk(data, index, k)].next
    decreases k
  {
    if k > 0 {
      WalkStep(data, data[index].next, k - 1);
    }
  }

  /** Adding an item to the vector keeps every list's chain. */
  lemma {:induction false} ChainGrows<T>(data: seq<Item<T>>, x: Item<T>, l: List, p: seq<nat>)
    requires ChainOf(data, l, p)
    ensures ChainOf(data + [x], l, p) && Values(data + [x], p) == Values(data, p)
  {
    assert forall i :: 0 <= i < |p| ==> (data + [x])[p[i]] == data[p[i]];
  }

  /** `splitTail`: the list starting at an item of the chain is the rest of the chain. */
  lemma {:induction false} SplitTailChain<T>(data: seq<Item<T>>, l: List, p: seq<nat>, j: int)
    requires ChainOf(data, l, p) && 0 <= j < |p|
    ensures ChainOf(data, List(p[j], l.tail), p[j..])
  {
    var q := p[j..];
    assert forall a, b :: 0 <= a < b < |q| ==> q[a] == p[j + a] && q[b] == p[j + b];
  }

  /**
   * Linking the tail of one list to the head of another, when their chains
   * share no item, gives the list of both chains.
   */
  lemma {:induction false} AppendChain<T>(data: seq<Item<T>>, a: List, pa: seq<nat>, b: List, pb: seq<nat>)
    requires ChainOf(data, a, pa) && ChainOf(data, b, pb) && pa != [] && pb != [] && Distinct(pa + pb)
    ensures var data' := data[a.tail := data[a.tail].(next := b.head)];
      ChainOf(data', List(a.head, b.tail), pa + pb) &&
      Values(data', pa + pb) == Values(data, pa) + Values(data, pb)
  {
    var data' := data[a.tail := data[a.tail].(next := b.head)];
    var q := pa + pb;
    forall i | 0 <= i < |q| - 1
      ensures data'[q[i]].next == q[i + 1]
    {
      if i < |pa| - 1 {
        assert q[i] == pa[i] && q[i + 1] == pa[i + 1];
        assert pa[i] != pa[|pa| - 1];
      } else if i == |pa| - 1 {
        assert q[i] == a.tail && q[i + 1] == pb[0];
      } else {
        assert q[i] == pb[i - |pa|] && q[i + 1] == pb[i - |pa| + 1];
        assert q[i] != q[|pa| - 1];
      }
    }
    forall i | 0 <= i < |q|
      ensures data'[q[i]].value == data[q[i]].value
    {
    }
    assert Values(data', q) == Values(data, pa) + Values(data, pb);
  }

  /** Ending a chain before its j-th item gives the list of the first j items. */
  lemma {:induction false} SplitHeadChain<T>(data: seq<Item<T>>, l: List, p: seq<nat>, j: int)
    requires ChainOf(data, l, p) && 0 < j <= |p|
    ensures var data' := data[p[j - 1] := data[p[j - 1]].(next := 0)];
      ChainOf(data', List(l.head, p[j - 1]), p[..j]) &&
      Values(data', p[..j]) == Values(data, p)[..j]
  {
    var data' := data[p[j - 1] := data[p[j - 1]].(next := 0)];
    var x := p[..j];
    forall i | 0 <= i < |x| - 1
      ensures data'[x[i]].next == x[i + 1]
    {
      assert x[i] == p[i] != p[j - 1];
    }
    assert forall a, b :: 0 <= a < b < |x| ==> x[a] == p[a] && x[b] == p[b];
    forall i | 0 <= i < |x|
      ensures data'[x[i]].value == data[x[i]].value
    {
    }
  }

  /** The items from the j-th on, cut off by `SplitHeadChain`, still form their own list. */
  lemma {:induction false} SplitHeadRest<T>(data: seq<Item<T>>, l: List, p: seq<nat>, j: int)
    requires ChainOf(data, l, p) && 0 < j < |p|
    ensures var data' := data[p[j - 1] := data[p[j - 1]].(next := 0)];
      ChainOf(data', List(p[j], l.tail), p[j..]) &&
      Values(data', p[j..]) == Values(data, p)[j..]
  {
    var data' := data[p[j - 1] := data[p[j - 1]].(next := 0)];
    var y := p[j..];
    forall i | 0 <= i < |y| - 1
      ensures data'[y[i]].next == y[i + 1]
    {
      assert y[i] == p[j + i] != p[j - 1];
    }
    assert forall a, b :: 0 <= a < b < |y| ==> y[a] == p[j + a] && y[b] == p[j + b];
    forall i | 0 <= i < |y|
      ensures data'[y[i]].value == data[y[i]].value
    {
      assert y[i] == p[j + i];
    }
  }

  class LinkedListPool<T> {
    /** `data`: index 0 is the sentinel. */
    var data: seq<Item<T>>

    ghost predicate Valid()
      reads this
    {
      PoolInv(data)
    }

    /**
     * `LinkedListPool(initialCapacity)`: only the sentinel, holding the
     * value-initialised `T` given here. The capacity only reserves memory.
     */
    constructor (initialCapacity: nat, sentinel: T)
      ensures Valid() && data == [Item(0, sentinel)]
    {
      data := [Item(0, sentinel)];
    }

    /** `makeList`: one new item at the end of the vector, linked to nothing; the other items are unchanged. */
    method MakeList(value: T) returns (l: List)
      requires Valid()
      modifies this
      ensures Valid()
      ensures data == old(data) + [Item(0, value)]
      ensures l == List(|old(data)|, |old(data)|) && ChainOf(data, l, [|old(data)|])
      ensures Values(data, [|old(data)|]) == [value]
    {
      var position := |data|;
      data := data + [Item(0, value)];
      l := List(position, position);
    }

    /**
     * `splitTail`: the suffix starting at `head`; no item changes. When
     * `head` is an item of the list's chain `p`, the result is the list of
     * the rest of the chain from that item, with the same values.
     */
    method SplitTail(l: List, head: ListIterator, ghost p: seq<nat>) returns (r: List)
      ensures r.head == head.index && r.tail == l.tail
      ensures ChainOf(data, l, p) && head.index in p ==>
        var j := IndexOf(p, head.index);
        0 <= j < |p| && ChainOf(data, r, p[j..]) && Values(data, p[j..]) == Values(data, p)[j..]
    {
      r := List(head.index, l.tail);
      if ChainOf(data, l, p) && head.index in p {
        var j := IndexOf(p, head.index);
        SplitTailChain(data, l, p, j);
        assert p[j] == head.index;
      }
    }

    /**
     * `splitHead`: the prefix ending before `end`. An invalid `end` keeps
     * the list, `end` at the head gives the empty list, and otherwise the
     * item before `end` is found by walking from the head and its link is
     * cut. `end` must lie within the list or be `end(list)`.
     */
    method SplitHead(l: List, end: ListIterator, ghost p: seq<nat>) returns (r: List)
      requires Valid() && ChainOf(data, l, p)
      requires end.index == 0 || end.index in p || (p != [] && end.index == data[l.tail].next)
      modifies this
      ensures Valid()
      ensures end.index == 0 ==> r == l && data == old(data)
      ensures end.index != 0 && end.index == l.head ==> r == List(0, 0) && data == old(data)
      ensures end.index != 0 && end.index != l.head ==>
        var j := if end.index in p then IndexOf(p, end.index) else |p|;
        0 < j <= |p| && r == List(l.head, p[j - 1]) &&
        data == old(data)[p[j - 1] := old(data)[p[j - 1]].(next := 0)] &&
        ChainOf(data, r, p[..j]) && Values(data, p[..j]) == Values(old(data), p)[..j]
    {
      if end.index == 0 {
        return l;
      }
      if end.index == l.head {
        return List(0, 0);
      }
      ghost var j := if end.index in p then IndexOf(p, end.index) else |p|;
      var last := l.head;
      ghost var i := 0;
      while data[last].next != end.index
        invariant 0 <= i < j && last == p[i]
        invariant end.index !in p[..i + 1]
        decreases j - i
      {
        if i + 1 < |p| {
          assert data[p[i]].next == p[i + 1];
          assert p[..i + 2] == p[..i + 1] + [p[i + 1]];
        }
        last := data[last].next;
        i := i + 1;
      }
      if i + 1 < |p| {
        assert data[p[i]].next == p[i + 1];
      }
      assert i + 1 == j;
      SplitHeadChain(data, l, p, j);
      data := data[last := data[last].(next := 0)];
      r := List(l.head, last);
    }

    /** `head(list)`: an iterator at the first item. */
    function Head(l: List): ListIterator
    {
      ListIterator(l.head)
    }

    /** `end(list)`: the iterator one step past the last item. */
    function End(l: List): ListIterator
      requires l.tail < |data|
      reads this
    {
      ListIterator(data[l.tail].next)
    }

    /** `ListIterator::operator++`: follows the `next` link. */
    function Increment(it: ListIterator): ListIterator
      requires it.index < |data|
      reads this
    {
      ListIterator(data[it.index].next)
    }

    /** `ListIterator::operator*`. */
    function Value(it: ListIterator): T
      requires it.index < |data|
      reads this
    {
      data[it.index].value
    }

    /**
     * `append`: an empty first list gives the second, an empty second gives
     * the first, and otherwise the first list's tail is linked to the
     * second's head and nothing else changes. Both lists must be lists of
     * this pool; their items must be disjoint for the result to be a list.
     */
    method Append(head: List, tail: List, ghost ph: seq<nat>, ghost pt: seq<nat>) returns (r: List)
      requires Valid() && ChainOf(data, head, ph) && ChainOf(data, tail, pt)
      modifies this
      ensures Valid()
      ensures IsEmpty(head) ==> r == tail && data == old(data)
      ensures !IsEmpty(head) && IsEmpty(tail) ==> r == head && data == old(data)
      ensures !IsEmpty(head) && !IsEmpty(tail) ==>
        r == List(head.head, tail.tail) && data == old(data)[head.tail := old(data)[head.tail].(next := tail.head)]
      ensures Distinct(ph + pt) ==> ChainOf(data, r, ph + pt) && Values(data, ph + pt) == Values(old(data), ph) + Values(old(data), pt)
    {
      if ph == [] {
        assert ph + pt == pt;
      } else if pt == [] {
        assert ph + pt == ph;
      } else if Distinct(ph + pt) {
        AppendChain(data, head, ph, tail, pt);
      }
      if IsEmpty(head) {
        return tail;
      }
      if IsEmpty(tail) {
        return head;
      }
      var result := List(head.head, tail.tail);
      data := data[head.tail := data[head.tail].(next := tail.head)];
      r := result;
    }
  }

  /** Iterating a pool's list with `Increment` is the `Walk` of `WalkFollowsChain`. */
  lemma {:induction false} IncrementIsWalk<T>(pool: LinkedListPool<T>, it: ListIterator, k: nat)
    requires PoolInv(pool.data) && it.index < |pool.data|
    ensures pool.Increment(ListIterator(Walk(pool.data, it.index, k))).index == Walk(pool.data, it.index, k + 1)
  {
    WalkStep(pool.data, it.index, k);
  }
}
