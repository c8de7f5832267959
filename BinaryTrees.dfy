/**
 * The bottom-up segment trees of src/common/BinaryTrees.h. A tree over
 * `size` positions keeps `2 * size` nodes in one vector: the leaves are the
 * nodes `size .. 2 * size - 1` (position p at node `size + p`), node 0 is
 * unused and every inner node i in `1 .. size - 1` has the children `2i` and
 * `2i + 1`.
 *
 * A query walks two bounds `l < r` upwards one level at a time. At level t
 * node x stands for the node range `[x * 2^t, (x + 1) * 2^t)`, and every
 * node a query touches has this whole range among the leaves; this holds for
 * any `size`, not only for powers of two, and is what the proofs rest on.
 * The shifts and bit tests of the source are written as `/ 2`, `% 2` and
 * `* 2` on naturals; `size_t` wrap-around cannot happen for the sizes a
 * vector can hold and is not modelled.
 */
module BinaryTrees {
  import opened Common

  // ---------------------------------------------------------------- node ranges

  /**
   * The first node of the range node x stands for at level t: `x * 2^t`,
   * written as t doublings so that no multiplication reaches the solver.
   * The range ends where the one of `x + 1` starts.
   */
  ghost function Lo(x: nat, t: nat): (lo: nat)
    ensures lo >= x
    decreases t
  {
    if t == 0 then x else Lo(2 * x, t - 1)
  }

  lemma {:induction false} LoMono(x: nat, y: nat, t: nat)
    requires x <= y
    ensures Lo(x, t) <= Lo(y, t)
    decreases t
  {
    if t > 0 {
      LoMono(2 * x, 2 * y, t - 1);
    }
  }

  /** Above the leaves a range starts at twice its node or later. */
  lemma {:induction false} LoGrows(x: nat, t: nat)
    ensures Lo(x, t) >= x
    ensures t >= 1 ==> Lo(x, t) >= 2 * x
    decreases t
  {
    if t > 0 {
      LoGrows(2 * x, t - 1);
    }
  }

  /** A node whose range at a level above the leaves ends within the leaves is an inner node. */
  lemma {:induction false} AboveLeavesIsInner(x: nat, t: nat, size: nat)
    requires t >= 1 && Lo(x + 1, t) <= 2 * size
    ensures x < size
  {
    LoGrows(x + 1, t);
  }

  /** `updateFromChildren` of the combine `f` holds at inner node i. */
  ghost predicate Combined(s: seq<int>, i: int, f: (int, int) -> int)
    requires 1 <= i && 2 * i + 1 < |s|
  {
    s[i] == f(s[2 * i], s[2 * i + 1])
  }

  /** One step of `buildInnerNodes`: recomputing node i keeps every node above it combined. */
  lemma {:induction false} BuildStep(s: seq<int>, s': seq<int>, size: nat, i: int, f: (int, int) -> int)
    requires |s| == 2 * size && 1 <= i < size && s' == s[i := f(s[2 * i], s[2 * i + 1])]
    requires forall j :: i < j < size ==> Combined(s, j, f)
    ensures forall j :: i <= j < size ==> Combined(s', j, f)
  {
    forall j | i <= j < size
      ensures Combined(s', j, f)
    {
      if j > i {
        assert Combined(s, j, f);
        assert s'[j] == s[j] && s'[2 * j] == s[2 * j] && s'[2 * j + 1] == s[2 * j + 1];
      }
    }
  }

  /** Writing a leaf leaves only its parent possibly uncombined. */
  lemma {:induction false} LeafWrite(s: seq<int>, s': seq<int>, size: nat, w: int, f: (int, int) -> int)
    requires |s| == 2 * size && size <= w < 2 * size && |s'| == |s| && forall k :: 0 <= k < |s| && k != w ==> s'[k] == s[k]
    requires forall j :: 1 <= j < size ==> Combined(s, j, f)
    ensures forall j :: 1 <= j < size && j != w / 2 ==> Combined(s', j, f)
  {
    forall j | 1 <= j < size && j != w / 2
      ensures Combined(s', j, f)
    {
      assert Combined(s, j, f);
      assert s'[j] == s[j] && s'[2 * j] == s[2 * j] && s'[2 * j + 1] == s[2 * j + 1];
    }
  }

  /** Recomputing the one uncombined node w moves the gap to w's parent. */
  lemma {:induction false} FixStep(s: seq<int>, s': seq<int>, size: nat, w: int, f: (int, int) -> int)
    requires |s| == 2 * size && 1 <= w < size && s' == s[w := f(s[2 * w], s[2 * w + 1])]
    requires forall j :: 1 <= j < size && j != w ==> Combined(s, j, f)
    ensures forall j :: 1 <= j < size && j != w / 2 ==> Combined(s', j, f)
  {
    forall j | 1 <= j < size && j != w / 2
      ensures Combined(s', j, f)
    {
      if j != w {
        assert Combined(s, j, f);
        assert s'[j] == s[j] && s'[2 * j] == s[2 * j] && s'[2 * j + 1] == s[2 * j + 1];
      }
    }
  }

  // ---------------------------------------------------------------- SegmentTreeBase

  /**
   * `buildInnerNodes`: every inner node, from `size - 1` down to 1, is
   * recomputed from its children; the leaves are not touched. The loop
   * starts at `size - 1` as a signed number, so an empty tree runs it zero
   * times (see `BuildStartAsWritten` for the unsigned start of the source).
   */
  method BuildInnerNodes(nodes: array<int>, size: nat, f: (int, int) -> int)
    requires nodes.Length == 2 * size
    modifies nodes
    ensures forall i :: 1 <= i < size ==> Combined(nodes[..], i, f)
    ensures nodes[size..] == old(nodes[size..])
  {
    var i: int := size - 1;
    while i > 0
      invariant -1 <= i < size
      invariant forall j :: i < j < size && j >= 1 ==> Combined(nodes[..], j, f)
      invariant nodes[size..] == old(nodes[size..])
    {
      ghost var before := nodes[..];
      nodes[i] := f(nodes[2 * i], nodes[2 * i + 1]);
      BuildStep(before, nodes[..], size, i, f);
      i := i - 1;
    }
  }

  /** The first index `buildInnerNodes` visits, as the unsigned `size_t` it is in the source. */
  function BuildStartAsWritten(size: nat): (i: u64)
    requires size < U64_MODULUS
    ensures size >= 1 ==> i == size - 1
  {
    Wrap64(size - 1)
  }

  /** For an empty tree the source's loop starts at `SIZE_MAX`, far outside the empty node vector. */
  lemma {:induction false} BuildStartEmptyTree()
    ensures BuildStartAsWritten(0) == RVA_MAX && BuildStartAsWritten(0) > 0 && BuildStartAsWritten(0) >= 2 * 0
  {
  }

  // ---------------------------------------------------------------- PointSetMinTree

  function MinOf(a: int, b: int): int { if a <= b then a else b }

  ghost predicate MinInv(s: seq<int>, size: nat)
  {
    |s| == 2 * size && forall i :: 1 <= i < size ==> Combined(s, i, MinOf)
  }

  /**
   * Under the min invariant a node holds the minimum of its range: no leaf
   * of the range is smaller, and one of them holds the node's value.
   */
  lemma {:induction false} NodeMin(s: seq<int>, size: nat, x: nat, t: nat)
    requires MinInv(s, size) && x >= 1 && size <= Lo(x, t) && Lo(x + 1, t) <= 2 * size
    ensures forall k :: Lo(x, t) <= k < Lo(x + 1, t) ==> s[x] <= s[k]
    ensures exists k :: Lo(x, t) <= k < Lo(x + 1, t) && s[k] == s[x]
    decreases t
  {
    if t == 0 {
      assert s[Lo(x, t)] == s[x];
    } else {
      AboveLeavesIsInner(x, t, size);
      assert Combined(s, x, MinOf);
      assert Lo(2 * x + 2, t - 1) == Lo(x + 1, t);
      LoMono(2 * x + 1, 2 * x + 2, t - 1);
      NodeMin(s, size, 2 * x, t - 1);
      NodeMin(s, size, 2 * x + 1, t - 1);
      LoMono(2 * x, 2 * x + 1, t - 1);
    }
  }

  /** No node in `[a, b)` holds a value below v. */
  ghost predicate NoneBelow(s: seq<int>, a: int, b: int, v: int)
    requires 0 <= a && b <= |s|
  {
    forall k :: a <= k < b ==> AtLeast(s, k, v)
  }

  /** Node k holds v or more. */
  ghost predicate AtLeast(s: seq<int>, k: int, v: int)
    requires 0 <= k < |s|
  {
    s[k] >= v
  }

  // The state of the first loop of `rightMostLessThan` between iterations:
  // the nodes of `[left, right)` outside `[Lo(l, t), Lo(r, t))` are done;
  // none below v lies right of that window, and g (0 for none yet) is the
  // rightmost good node found left of it.

  ghost predicate RightFound(s: seq<int>, size: nat, v: int, right: nat, g: nat, tg: nat)
  {
    |s| == 2 * size && right <= 2 * size && g >= 1 &&
    size <= Lo(g, tg) && Lo(g + 1, tg) <= right && s[g] < v && NoneBelow(s, Lo(g + 1, tg), right, v)
  }

  ghost predicate RightState(s: seq<int>, size: nat, v: int, left: nat, right: nat, l: nat, r: nat, t: nat, g: nat, tg: nat)
  {
    |s| == 2 * size && size <= left && right <= 2 * size &&
    1 <= l <= r && left <= Lo(l, t) <= Lo(r, t) <= right &&
    NoneBelow(s, Lo(r, t), right, v) &&
    (g == 0 ==> NoneBelow(s, left, Lo(l, t), v)) &&
    (g != 0 ==> RightFound(s, size, v, Lo(l, t), g, tg) && left <= Lo(g, tg))
  }

  lemma {:induction false} RightStepLeft(s: seq<int>, size: nat, v: int, left: nat, right: nat, l: nat, r: nat, t: nat, g: nat, tg: nat, g': nat, tg': nat)
    requires MinInv(s, size) && RightState(s, size, v, left, right, l, r, t, g, tg) && l % 2 == 1 && l < r
    requires if s[l] < v then g' == l && tg' == t else g' == g && tg' == tg
    ensures RightState(s, size, v, left, right, l + 1, r, t, g', tg')
  {
    LoMono(l + 1, r, t);
    NodeMin(s, size, l, t);
  }

  lemma {:induction false} RightStepRight(s: seq<int>, size: nat, v: int, left: nat, right: nat, l: nat, r: nat, t: nat, g: nat, tg: nat)
    requires MinInv(s, size) && RightState(s, size, v, left, right, l, r, t, g, tg) && r % 2 == 1 && l < r
    ensures s[r - 1] < v ==> RightFound(s, size, v, right, r - 1, t)
    ensures s[r - 1] >= v ==> RightState(s, size, v, left, right, l, r - 1, t, g, tg)
  {
    LoMono(l, r - 1, t);
    assert Lo(r - 1 + 1, t) == Lo(r, t);
    NodeMin(s, size, r - 1, t);
  }

  lemma {:induction false} RightLevelUp(s: seq<int>, size: nat, v: int, left: nat, right: nat, l: nat, r: nat, t: nat, g: nat, tg: nat)
    requires RightState(s, size, v, left, right, l, r, t, g, tg) && l % 2 == 0 && r % 2 == 0
    ensures RightState(s, size, v, left, right, l / 2, r / 2, t + 1, g, tg)
  {
    assert Lo(l / 2, t + 1) == Lo(l, t) && Lo(r / 2, t + 1) == Lo(r, t);
  }

  lemma {:induction false} RightExit(s: seq<int>, size: nat, v: int, left: nat, right: nat, l: nat, r: nat, t: nat, g: nat, tg: nat)
    requires RightState(s, size, v, left, right, l, r, t, g, tg) && l >= r
    ensures g == 0 ==> NoneBelow(s, left, right, v)
    ensures g != 0 ==> RightFound(s, size, v, right, g, tg) && left <= Lo(g, tg)
  {
  }

  // The same for `leftMostLessThan`, mirrored: g is the leftmost good node
  // found right of the window.

  ghost predicate LeftFound(s: seq<int>, size: nat, v: int, left: nat, g: nat, tg: nat)
  {
    |s| == 2 * size && size <= left && g >= 1 &&
    left <= Lo(g, tg) <= Lo(g + 1, tg) <= 2 * size && s[g] < v && NoneBelow(s, left, Lo(g, tg), v)
  }

  ghost predicate LeftState(s: seq<int>, size: nat, v: int, left: nat, right: nat, l: nat, r: nat, t: nat, g: nat, tg: nat)
  {
    |s| == 2 * size && size <= left && right == 2 * size &&
    l <= r && (l < r ==> 1 <= l) && left <= Lo(l, t) <= Lo(r, t) <= right &&
    NoneBelow(s, left, Lo(l, t), v) &&
    (g == 0 ==> NoneBelow(s, Lo(r, t), right, v)) &&
    (g != 0 ==> LeftFound(s, size, v, Lo(r, t), g, tg))
  }

  lemma {:induction false} LeftStepLeft(s: seq<int>, size: nat, v: int, left: nat, right: nat, l: nat, r: nat, t: nat, g: nat, tg: nat)
    requires MinInv(s, size) && LeftState(s, size, v, left, right, l, r, t, g, tg) && l % 2 == 1 && l < r
    ensures s[l] < v ==> LeftFound(s, size, v, left, l, t)
    ensures s[l] >= v ==> LeftState(s, size, v, left, right, l + 1, r, t, g, tg)
  {
    LoMono(l + 1, r, t);
    LoMono(l, l + 1, t);
    NodeMin(s, size, l, t);
  }

  lemma {:induction false} LeftStepRight(s: seq<int>, size: nat, v: int, left: nat, right: nat, l: nat, r: nat, t: nat, g: nat, tg: nat)
    requires MinInv(s, size) && LeftState(s, size, v, left, right, l, r, t, g, tg) && r % 2 == 1 && l < r
    ensures s[r - 1] < v ==> LeftState(s, size, v, left, right, l, r - 1, t, r - 1, t)
    ensures s[r - 1] >= v ==> LeftState(s, size, v, left, right, l, r - 1, t, g, tg)
  {
    LoMono(l, r - 1, t);
    LoMono(r - 1, r, t);
    assert Lo(r - 1 + 1, t) == Lo(r, t);
    NodeMin(s, size, r - 1, t);
  }

  lemma {:induction false} LeftLevelUp(s: seq<int>, size: nat, v: int, left: nat, right: nat, l: nat, r: nat, t: nat, g: nat, tg: nat)
    requires LeftState(s, size, v, left, right, l, r, t, g, tg) && l % 2 == 0 && r % 2 == 0
    ensures LeftState(s, size, v, left, right, l / 2, r / 2, t + 1, g, tg)
  {
    assert Lo(l / 2, t + 1) == Lo(l, t) && Lo(r / 2, t + 1) == Lo(r, t);
    LoMono(l / 2, r / 2, t + 1);
  }

  lemma {:induction false} LeftExit(s: seq<int>, size: nat, v: int, left: nat, right: nat, l: nat, r: nat, t: nat, g: nat, tg: nat)
    requires LeftState(s, size, v, left, right, l, r, t, g, tg) && l >= r
    ensures g == 0 ==> NoneBelow(s, left, right, v)
    ensures g != 0 ==> LeftFound(s, size, v, left, g, tg)
  {
  }

  class PointSetMinTree {
    /** The number of leaves, also the index of the leftmost leaf. */
    const size: nat
    const nodes: array<int>

    ghost predicate Valid()
      reads this, nodes
    {
      MinInv(nodes[..], size)
    }

    /** `valueAtPoint`: the leaf of a position. */
    function ValueAtPoint(pos: nat): int
      requires pos < size && nodes.Length == 2 * size
      reads this, nodes
    {
      nodes[size + pos]
    }

    /** The values at all positions. */
    ghost function Leaves(): (vs: seq<int>)
      requires nodes.Length == 2 * size
      reads this, nodes
      ensures |vs| == size
    {
      nodes[size..]
    }

    /** `SegmentTreeBase(size)`: a vector of `2 * size` value-initialised nodes, all 0. */
    constructor (size: nat)
      ensures this.size == size && Valid() && fresh(nodes)
      ensures forall q :: 0 <= q < size ==> ValueAtPoint(q) == 0
    {
      this.size := size;
      nodes := new int[2 * size](_ => 0);
    }

    /** `SegmentTreeBase(size, initialValue)`: every leaf holds the value, the inner nodes are built from them. */
    constructor Filled(size: nat, initialValue: int)
      ensures this.size == size && Valid() && fresh(nodes)
      ensures forall q :: 0 <= q < size ==> ValueAtPoint(q) == initialValue
    {
      this.size := size;
      var a := new int[2 * size](i => if i >= size then initialValue else 0);
      BuildInnerNodes(a, size, MinOf);
      assert forall q :: 0 <= q < size ==> a[size + q] == a[size..][q];
      nodes := a;
    }

    /** `set`: the leaf takes the value and its ancestors are recomputed, from the parent up to the root. */
    method Set(index: nat, value: int)
      requires Valid() && index < size
      modifies nodes
      ensures Valid()
      ensures Leaves() == old(Leaves())[index := value]
    {
      var pos := size + index;
      ghost var before := nodes[..];
      nodes[pos] := value;
      LeafWrite(before, nodes[..], size, pos, MinOf);
      while pos > 1
        invariant 1 <= pos < 2 * size
        invariant forall i :: 1 <= i < size && i != pos / 2 ==> Combined(nodes[..], i, MinOf)
        invariant nodes[size..] == old(nodes[size..])[index := value]
        decreases pos
      {
        var parent := pos / 2;
        var sibling := if pos % 2 == 0 then pos + 1 else pos - 1;
        assert MinOf(nodes[pos], nodes[sibling]) == MinOf(nodes[2 * parent], nodes[2 * parent + 1]);
        ghost var before := nodes[..];
        nodes[parent] := MinOf(nodes[pos], nodes[sibling]);
        FixStep(before, nodes[..], size, parent, MinOf);
        pos := parent;
      }
    }

    /**
     * `rightMostLessThan`: the largest position `q <= position` whose value
     * is below `value`, or -1 when there is none.
     */
    method RightMostLessThan(position: nat, value: int) returns (res: int)
      requires Valid() && position < size
      ensures res == -1 <==> forall q :: 0 <= q <= position ==> ValueAtPoint(q) >= value
      ensures res != -1 ==>
        0 <= res <= position && ValueAtPoint(res) < value &&
        forall q :: res < q <= position ==> ValueAtPoint(q) >= value
    {
      var s := nodes[..];
      var goodSubtree, tg := SearchRight(s, size, position, value);
      if goodSubtree == 0 {
        assert forall q :: 0 <= q <= position ==> ValueAtPoint(q) == s[size + q] && (AtLeast(s, size + q, value) <==> s[size + q] >= value);
        return -1;
      }
      var leaf := DescendRight(s, size, goodSubtree, tg, value, size + position + 1);
      res := leaf - size;
      assert ValueAtPoint(res) < value;
      assert forall q :: res < q <= position ==> ValueAtPoint(q) == s[size + q] && (AtLeast(s, size + q, value) <==> s[size + q] >= value);
    }

    /**
     * `leftMostLessThan`: the smallest position q with `position <= q < size`
     * whose value is below `value`, or -1 when there is none.
     */
    method LeftMostLessThan(position: nat, value: int) returns (res: int)
      requires Valid() && position <= size
      ensures res == -1 <==> forall q :: position <= q < size ==> ValueAtPoint(q) >= value
      ensures res != -1 ==>
        position <= res < size && ValueAtPoint(res) < value &&
        forall q :: position <= q < res ==> ValueAtPoint(q) >= value
    {
      var s := nodes[..];
      var goodSubtree, tg := SearchLeft(s, size, position, value);
      if goodSubtree == 0 {
        assert forall q :: position <= q < size ==> ValueAtPoint(q) == s[size + q] && (AtLeast(s, size + q, value) <==> s[size + q] >= value);
        return -1;
      }
      var leaf := DescendLeft(s, size, goodSubtree, tg, value, size + position);
      res := leaf - size;
      assert ValueAtPoint(res) < value;
      assert forall q :: position <= q < res ==> ValueAtPoint(q) == s[size + q] && (AtLeast(s, size + q, value) <==> s[size + q] >= value);
    }
  }

  // ---------------------------------------------------------------- the loops of the two searches

  /** Halving two even bounds inside `[l0, r0)` narrows the window. */
  lemma {:induction false} GapShrinks(l0: nat, r0: nat, l: nat, r: nat)
    requires l0 <= l <= r <= r0 && l0 < r0 && l % 2 == 0 && r % 2 == 0
    ensures r / 2 - l / 2 < r0 - l0
  {
  }

  /** One pass of the first loop of `rightMostLessThan`: the odd bounds are handled, then both move up a level. */
  method RightLevel(s: seq<int>, size: nat, value: int, ghost left: nat, ghost right: nat, l: nat, r: nat, ghost t: nat, g: nat, ghost tg: nat)
    returns (l': nat, r': nat, g': nat, ghost tg': nat, found: bool)
    requires MinInv(s, size) && RightState(s, size, value, left, right, l, r, t, g, tg) && l < r
    ensures found ==> RightFound(s, size, value, right, g', tg')
    ensures !found ==> RightState(s, size, value, left, right, l', r', t + 1, g', tg') && r' - l' < r - l
  {
    l', g', tg' := RightLeftBound(s, size, value, left, right, l, r, t, g, tg);
    r', g', tg', found := RightRightBound(s, size, value, left, right, l', r, t, g', tg');
    if !found {
      RightLevelUp(s, size, value, left, right, l', r', t, g', tg');
      GapShrinks(l, r, l', r');
      l', r' := l' / 2, r' / 2;
    }
  }

  /** The left bound's step: an odd `l` that is good becomes the candidate, and `l` moves right. */
  method RightLeftBound(s: seq<int>, size: nat, value: int, ghost left: nat, ghost right: nat, l: nat, r: nat, ghost t: nat,
                        g: nat, ghost tg: nat) returns (l': nat, g': nat, ghost tg': nat)
    requires MinInv(s, size) && RightState(s, size, value, left, right, l, r, t, g, tg) && l < r
    ensures l' == l + l % 2 && RightState(s, size, value, left, right, l', r, t, g', tg')
  {
    l', g', tg' := l, g, tg;
    if l % 2 == 1 {
      if s[l] < value {
        // a good subtree, but there may be one further right
        g', tg' := l, t;
      }
      RightStepLeft(s, size, value, left, right, l, r, t, g, tg, g', tg');
      l' := l + 1;
    }
  }

  /** The right bound's step: an odd `r` moves left, and the search stops if the node it passes is good. */
  method RightRightBound(s: seq<int>, size: nat, value: int, ghost left: nat, ghost right: nat, l: nat, r: nat, ghost t: nat,
                         g: nat, ghost tg: nat) returns (r': nat, g': nat, ghost tg': nat, found: bool)
    requires MinInv(s, size) && RightState(s, size, value, left, right, l, r, t, g, tg) && l % 2 == 0
    ensures found ==> RightFound(s, size, value, right, g', tg')
    ensures !found ==> r' == r - r % 2 && RightState(s, size, value, left, right, l, r', t, g', tg')
  {
    r', g', tg', found := r, g, tg, false;
    if r % 2 == 1 {
      RightStepRight(s, size, value, left, right, l, r, t, g, tg);
      r' := r - 1;
      if s[r'] < value {
        g', tg', found := r', t, true;
      }
    }
  }

  /**
   * The first loop of `rightMostLessThan` over the leaves of positions
   * `0 .. position`: 0 when no value there is below `value`, and otherwise a
   * node whose range holds the rightmost such value.
   */
  method SearchRight(s: seq<int>, size: nat, position: nat, value: int) returns (goodSubtree: nat, ghost tg: nat)
    requires MinInv(s, size) && position < size
    ensures goodSubtree == 0 ==> NoneBelow(s, size, size + position + 1, value)
    ensures goodSubtree != 0 ==> RightFound(s, size, value, size + position + 1, goodSubtree, tg)
  {
    ghost var left, right := size, size + position + 1;
    goodSubtree, tg := 0, 0;
    var l: nat, r: nat := size, size + position + 1;
    ghost var t := 0;
    while l < r
      invariant RightState(s, size, value, left, right, l, r, t, goodSubtree, tg)
      decreases r - l
    {
      var found;
      l, r, goodSubtree, tg, found := RightLevel(s, size, value, left, right, l, r, t, goodSubtree, tg);
      if found {
        return;
      }
      t := t + 1;
    }
    RightExit(s, size, value, left, right, l, r, t, goodSubtree, tg);
  }

  /** A good node above the leaves is inner, and the child the descent of `rightMostLessThan` takes is good. */
  lemma {:induction false} RightDescendStep(s: seq<int>, size: nat, v: int, right: nat, g: nat, t: nat, child: nat)
    requires MinInv(s, size) && RightFound(s, size, v, right, g, t) && g < size
    requires child == if s[2 * g + 1] < v then 2 * g + 1 else 2 * g
    ensures t >= 1 && RightFound(s, size, v, right, child, t - 1)
  {
    assert Combined(s, g, MinOf);
    assert Lo(2 * g + 2, t - 1) == Lo(g + 1, t);
    LoMono(2 * g, 2 * g + 1, t - 1);
    if s[2 * g + 1] >= v {
      NodeMin(s, size, 2 * g + 1, t - 1);
    }
  }

  /** A found node is a leaf exactly at level 0. */
  lemma {:induction false} FoundLevel(size: nat, g: nat, t: nat)
    requires g >= 1 && size <= Lo(g, t) && Lo(g + 1, t) <= 2 * size
    ensures t >= 1 ==> g < size
    ensures t == 0 ==> Lo(g, t) == g && Lo(g + 1, t) == g + 1 && g >= size
  {
    if t >= 1 {
      AboveLeavesIsInner(g, t, size);
    }
  }

  /** The second loop of `rightMostLessThan`: down to the rightmost leaf below `value`, taking the right child when it has one. */
  method DescendRight(s: seq<int>, size: nat, goodSubtree: nat, ghost tg: nat, value: int, ghost right: nat) returns (leaf: nat)
    requires MinInv(s, size) && RightFound(s, size, value, right, goodSubtree, tg)
    ensures size <= leaf < right && s[leaf] < value && NoneBelow(s, leaf + 1, right, value)
  {
    var g: nat := goodSubtree;
    ghost var t: nat := tg;
    FoundLevel(size, g, t);
    while g < size
      invariant RightFound(s, size, value, right, g, t) && (t >= 1 ==> g < size) && (t == 0 ==> g >= size)
      decreases t
    {
      var child := 2 * g + 1;
      if !(s[child] < value) {
        child := child - 1;
      }
      RightDescendStep(s, size, value, right, g, t, child);
      g, t := child, t - 1;
      FoundLevel(size, g, t);
    }
    FoundLevel(size, g, t);
    leaf := g;
  }

  /** One pass of the first loop of `leftMostLessThan`. */
  method LeftLevel(s: seq<int>, size: nat, value: int, ghost left: nat, ghost right: nat, l: nat, r: nat, ghost t: nat, g: nat, ghost tg: nat)
    returns (l': nat, r': nat, g': nat, ghost tg': nat, found: bool)
    requires MinInv(s, size) && LeftState(s, size, value, left, right, l, r, t, g, tg) && l < r
    ensures found ==> LeftFound(s, size, value, left, g', tg')
    ensures !found ==> LeftState(s, size, value, left, right, l', r', t + 1, g', tg') && r' - l' < r - l
  {
    l', found := LeftLeftBound(s, size, value, left, right, l, r, t, g, tg);
    if found {
      r', g', tg' := r, l, t;
    } else {
      r', g', tg' := LeftRightBound(s, size, value, left, right, l', r, t, g, tg);
      LeftLevelUp(s, size, value, left, right, l', r', t, g', tg');
      GapShrinks(l, r, l', r');
      l', r' := l' / 2, r' / 2;
    }
  }

  /** The left bound's step: an odd `l` moves right, and the search stops if the node it passes is good. */
  method LeftLeftBound(s: seq<int>, size: nat, value: int, ghost left: nat, ghost right: nat, l: nat, r: nat, ghost t: nat,
                       g: nat, ghost tg: nat) returns (l': nat, found: bool)
    requires MinInv(s, size) && LeftState(s, size, value, left, right, l, r, t, g, tg) && l < r
    ensures found ==> l % 2 == 1 && LeftFound(s, size, value, left, l, t)
    ensures !found ==> l' == l + l % 2 && LeftState(s, size, value, left, right, l', r, t, g, tg)
  {
    l', found := l, false;
    if l % 2 == 1 {
      LeftStepLeft(s, size, value, left, right, l, r, t, g, tg);
      found := s[l] < value;
      l' := l + 1;
    }
  }

  /** The right bound's step: an odd `r` moves left, and the node it passes becomes the candidate if it is good. */
  method LeftRightBound(s: seq<int>, size: nat, value: int, ghost left: nat, ghost right: nat, l: nat, r: nat, ghost t: nat,
                        g: nat, ghost tg: nat) returns (r': nat, g': nat, ghost tg': nat)
    requires MinInv(s, size) && LeftState(s, size, value, left, right, l, r, t, g, tg) && l % 2 == 0
    ensures r' == r - r % 2 && LeftState(s, size, value, left, right, l, r', t, g', tg')
  {
    r', g', tg' := r, g, tg;
    if r % 2 == 1 {
      LeftStepRight(s, size, value, left, right, l, r, t, g, tg);
      r' := r - 1;
      if s[r'] < value {
        // a good subtree, but there may be one further left
        g', tg' := r', t;
      }
    }
  }

  /**
   * The first loop of `leftMostLessThan` over the leaves of positions
   * `position .. size - 1`: 0 when no value there is below `value`, and
   * otherwise a node whose range holds the leftmost such value.
   */
  method SearchLeft(s: seq<int>, size: nat, position: nat, value: int) returns (goodSubtree: nat, ghost tg: nat)
    requires MinInv(s, size) && position <= size
    ensures goodSubtree == 0 ==> NoneBelow(s, size + position, 2 * size, value)
    ensures goodSubtree != 0 ==> LeftFound(s, size, value, size + position, goodSubtree, tg)
  {
    ghost var left, right := size + position, 2 * size;
    goodSubtree, tg := 0, 0;
    var l: nat, r: nat := size + position, 2 * size;
    ghost var t := 0;
    while l < r
      invariant LeftState(s, size, value, left, right, l, r, t, goodSubtree, tg)
      decreases r - l
    {
      var found;
      l, r, goodSubtree, tg, found := LeftLevel(s, size, value, left, right, l, r, t, goodSubtree, tg);
      if found {
        return;
      }
      t := t + 1;
    }
    LeftExit(s, size, value, left, right, l, r, t, goodSubtree, tg);
  }

  /** The child the descent of `leftMostLessThan` takes is good. */
  lemma {:induction false} LeftDescendStep(s: seq<int>, size: nat, v: int, left: nat, g: nat, t: nat, child: nat)
    requires MinInv(s, size) && LeftFound(s, size, v, left, g, t) && g < size
    requires child == if s[2 * g] < v then 2 * g else 2 * g + 1
    ensures t >= 1 && LeftFound(s, size, v, left, child, t - 1)
  {
    FoundLevel(size, g, t);
    assert Combined(s, g, MinOf);
    assert Lo(2 * g + 2, t - 1) == Lo(g + 1, t);
    LoMono(2 * g + 1, 2 * g + 2, t - 1);
    LoMono(2 * g, 2 * g + 1, t - 1);
    if s[2 * g] >= v {
      NodeMin(s, size, 2 * g, t - 1);
    }
  }

  /** The second loop of `leftMostLessThan`: down to the leftmost leaf below `value`, taking the left child when it has one. */
  method DescendLeft(s: seq<int>, size: nat, goodSubtree: nat, ghost tg: nat, value: int, ghost left: nat) returns (leaf: nat)
    requires MinInv(s, size) && LeftFound(s, size, value, left, goodSubtree, tg)
    ensures left <= leaf < 2 * size && s[leaf] < value && NoneBelow(s, left, leaf, value)
  {
    var g: nat := goodSubtree;
    ghost var t: nat := tg;
    FoundLevel(size, g, t);
    while g < size
      invariant LeftFound(s, size, value, left, g, t) && (t >= 1 ==> g < size) && (t == 0 ==> g >= size)
      decreases t
    {
      var child := 2 * g;
      if !(s[child] < value) {
        child := child + 1;
      }
      LeftDescendStep(s, size, value, left, g, t, child);
      g, t := child, t - 1;
      FoundLevel(size, g, t);
    }
    FoundLevel(size, g, t);
    leaf := g;
  }
}
