/**
 * The lazy segment tree of src/common/BinaryTrees.h (`LazySegmentTreeBase`
 * and its one instance `RangeAssignMaxTree`). The node layout is the one of
 * module BinaryTrees: leaves at `size .. 2 * size - 1`, inner node i with
 * children `2i` and `2i + 1`. Besides its node value every inner node has a
 * promise flag (a `uint8_t` that only ever holds 0 or 1, here a `bool`). A
 * node with its promise set stands for "every position below me holds my
 * value": the topmost such strict ancestor of a leaf decides what that
 * position logically holds, and a leaf without one holds its own node value.
 *
 * `p >> i` is `Up(p, i)`, `p >> 1` is `p / 2`, `p & 1` is `p % 2`, and
 * `p & ~1`, `p | 1` are the two children `2 * (p / 2)`, `2 * (p / 2) + 1`
 * of p's parent.
 */
module LazySegmentTrees {
  import opened Common
  import opened BinaryTrees

  // ---------------------------------------------------------------- ancestors

  /** `x >> k`: x halved k times. */
  function Up(x: nat, k: nat): (u: nat)
    ensures u <= x
    decreases k
  {
    if k == 0 then x else Up(x, k - 1) / 2
  }

  /** Halving k times stays below c exactly when x stays below c doubled k times. */
  lemma {:induction false} UpLo(x: nat, k: nat, c: nat)
    ensures Up(x, k) < c <==> x < Lo(c, k)
    decreases k
  {
    if k > 0 {
      UpLo(x, k - 1, 2 * c);
    }
  }

  /** x halved k times is node a exactly when x lies in a's range at level k. */
  lemma {:induction false} UpIs(x: nat, k: nat, a: nat)
    ensures Up(x, k) == a <==> Lo(a, k) <= x < Lo(a + 1, k)
  {
    UpLo(x, k, a);
    UpLo(x, k, a + 1);
  }

  lemma {:induction false} UpShift(x: nat, k: nat)
    ensures Up(x / 2, k) == Up(x, k + 1)
    decreases k
  {
    if k > 0 {
      UpShift(x, k - 1);
    }
  }

  lemma {:induction false} UpMono(x: nat, i: nat, j: nat)
    requires i <= j
    ensures Up(x, j) <= Up(x, i)
    decreases j - i
  {
    if i < j {
      UpMono(x, i, j - 1);
    }
  }

  lemma {:induction false} LoDouble(x: nat, t: nat)
    ensures Lo(2 * x, t) == 2 * Lo(x, t)
    decreases t
  {
    if t > 0 {
      LoDouble(2 * x, t - 1);
    }
  }

  lemma {:induction false} LoAdd(x: nat, a: nat, b: nat)
    ensures Lo(x, a + b) == Lo(Lo(x, a), b)
    decreases a
  {
    if a > 0 {
      LoAdd(2 * x, a - 1, b);
    }
  }

  /** A range at a higher level starts at least twice as far out. */
  lemma {:induction false} LoHigher(x: nat, t: nat, j: nat)
    requires t < j
    ensures Lo(x, j) >= 2 * Lo(x, t)
  {
    LoAdd(x, t, j - t);
    assert t + (j - t) == j;
    LoGrows(Lo(x, t), j - t);
  }

  lemma {:induction false} LoStrict(x: nat, t: nat)
    ensures Lo(x, t) < Lo(x + 1, t)
    decreases t
  {
    if t > 0 {
      LoStrict(2 * x, t - 1);
      LoMono(2 * x + 1, 2 * x + 2, t - 1);
    }
  }

  /** a is a strict ancestor of node k. */
  ghost predicate IsAnc(a: nat, k: nat)
    decreases k
  {
    k > 1 && (k / 2 == a || IsAnc(a, k / 2))
  }

  lemma {:induction false} AncBelow(a: nat, k: nat)
    requires IsAnc(a, k)
    ensures a <= k / 2
    decreases k
  {
    if k / 2 != a {
      AncBelow(a, k / 2);
    }
  }

  lemma {:induction false} AncTrans(a: nat, b: nat, k: nat)
    requires IsAnc(a, b) && IsAnc(b, k)
    ensures IsAnc(a, k)
    decreases k
  {
    if k / 2 != b {
      AncTrans(a, b, k / 2);
    }
  }

  /** `k >> j`, for j >= 1 and a result that is a node, is a strict ancestor of k. */
  lemma {:induction false} AncOfUp(k: nat, j: nat)
    requires j >= 1 && Up(k, j) >= 1
    ensures IsAnc(Up(k, j), k)
    decreases j
  {
    if j > 1 {
      AncOfUp(k, j - 1);
      assert IsAnc(Up(k, j), Up(k, j - 1));
      AncTrans(Up(k, j), Up(k, j - 1), k);
    }
  }

  /** Every strict ancestor of k is `k >> j` for some j >= 1. */
  lemma {:induction false} UpOfAnc(a: nat, k: nat) returns (j: nat)
    requires IsAnc(a, k)
    ensures j >= 1 && Up(k, j) == a
    decreases k
  {
    if k / 2 == a {
      j := 1;
    } else {
      var j' := UpOfAnc(a, k / 2);
      UpShift(k, j');
      j := j' + 1;
    }
  }

  /** Below a's children, an ancestor relation runs through one of them. */
  lemma {:induction false} AncChild(a: nat, k: nat)
    requires IsAnc(a, k) && k != 2 * a && k != 2 * a + 1
    ensures IsAnc(2 * a, k) || IsAnc(2 * a + 1, k)
    decreases k
  {
    var m := k / 2;
    assert m != a;
    if m != 2 * a && m != 2 * a + 1 {
      AncChild(a, m);
      if IsAnc(2 * a, m) {
        AncTrans(2 * a, m, k);
      } else {
        AncTrans(2 * a + 1, m, k);
      }
    }
  }

  /**
   * For a node x whose level-t range (t >= 1) lies among the leaves, x is a
   * strict ancestor of a leaf exactly when the leaf is in that range.
   */
  lemma {:induction false} AncIsRange(size: nat, x: nat, t: nat, k: nat)
    requires t >= 1 && x >= 1 && size <= Lo(x, t) && Lo(x + 1, t) <= 2 * size
    requires size <= k < 2 * size
    ensures IsAnc(x, k) <==> Lo(x, t) <= k < Lo(x + 1, t)
  {
    if Lo(x, t) <= k < Lo(x + 1, t) {
      UpIs(k, t, x);
      AncOfUp(k, t);
    }
    if IsAnc(x, k) {
      var j := UpOfAnc(x, k);
      UpIs(k, j, x);
      if j > t {
        LoHigher(x, t, j);
      } else if j < t {
        LoHigher(x + 1, j, t);
      }
    }
  }

  /** No node whose level-t range lies among the leaves is `p >> j` for j > t. */
  lemma {:induction false} NotHigherOnPath(size: nat, x: nat, t: nat, p: nat, j: nat)
    requires size <= Lo(x, t) && p < 2 * size && t < j
    ensures Up(p, j) != x
  {
    UpIs(p, j, x);
    LoHigher(x, t, j);
  }

  // ---------------------------------------------------------------- logical values

  /**
   * The value promised to node x by its topmost strict ancestor with a set
   * promise, if there is one.
   */
  ghost function Above(n: seq<int>, pr: seq<bool>, x: nat): Option<int>
    requires |n| == 2 * |pr| && x < |n|
    decreases x
  {
    if x <= 1 then None
    else
      var a := Above(n, pr, x / 2);
      if a.Some? then a else if pr[x / 2] then Some(n[x / 2]) else None
  }

  /** What node x logically holds: the promise above it, else its own value. */
  ghost function Eff(n: seq<int>, pr: seq<bool>, x: nat): int
    requires |n| == 2 * |pr| && x < |n|
  {
    var a := Above(n, pr, x);
    if a.Some? then a.value else n[x]
  }

  /** Two states agree on whatever decides the promise above node k. */
  ghost predicate AgreeAbove(n: seq<int>, pr: seq<bool>, n': seq<int>, pr': seq<bool>, k: nat)
    requires |n| == 2 * |pr| && |n'| == |n| && |pr'| == |pr|
  {
    forall a :: 0 <= a < |pr| && IsAnc(a, k) ==> pr[a] == pr'[a] && (pr[a] ==> n[a] == n'[a])
  }

  lemma {:induction false} AboveFrame(n: seq<int>, pr: seq<bool>, n': seq<int>, pr': seq<bool>, k: nat)
    requires |n| == 2 * |pr| && |n'| == |n| && |pr'| == |pr| && k < |n|
    requires AgreeAbove(n, pr, n', pr', k)
    ensures Above(n, pr, k) == Above(n', pr', k)
    decreases k
  {
    if k > 1 {
      assert IsAnc(k / 2, k);
      forall a | 0 <= a < |pr| && IsAnc(a, k / 2)
        ensures pr[a] == pr'[a] && (pr[a] ==> n[a] == n'[a])
      {
        assert IsAnc(a, k);
      }
      AboveFrame(n, pr, n', pr', k / 2);
    }
  }

  /** A node with nothing pending above it and a set promise decides everything below it. */
  lemma {:induction false} TopPending(n: seq<int>, pr: seq<bool>, a: nat, k: nat)
    requires |n| == 2 * |pr| && a < |pr| && k < |n|
    requires Above(n, pr, a) == None && pr[a] && IsAnc(a, k)
    ensures Above(n, pr, k) == Some(n[a])
    decreases k
  {
    if k / 2 != a {
      TopPending(n, pr, a, k / 2);
    }
  }

  /** A node all of whose clear path nodes above it are free of promises has none above it. */
  lemma {:induction false} ClearAbove(n: seq<int>, pr: seq<bool>, p: nat, i: nat)
    requires |n| == 2 * |pr| && p < |n|
    requires forall j :: i < j && 1 <= Up(p, j) < |pr| ==> !pr[Up(p, j)]
    ensures Above(n, pr, Up(p, i)) == None
    decreases Up(p, i)
  {
    if Up(p, i) > 1 {
      assert Up(p, i + 1) == Up(p, i) / 2;
      ClearAbove(n, pr, p, i + 1);
    }
  }

  /** One step of `Above`: a child sees what its parent sees, or its parent's promise. */
  lemma {:induction false} AboveChild(n: seq<int>, pr: seq<bool>, x: nat, c: nat)
    requires |n| == 2 * |pr| && c < |n| && c > 1 && c / 2 == x
    ensures Above(n, pr, c) == (if Above(n, pr, x).Some? then Above(n, pr, x) else if pr[x] then Some(n[x]) else None)
  {
  }

  // ---------------------------------------------------------------- the invariant

  function MaxOf(a: int, b: int): int { if a >= b then a else b }

  /**
   * The lazy tree's invariant: node 0's promise is never set, and every
   * inner node without a promise holds the maximum of its children.
   */
  ghost predicate LazyInv(n: seq<int>, pr: seq<bool>, size: nat)
  {
    |n| == 2 * size && |pr| == size && (size > 0 ==> !pr[0])
    && forall i :: 1 <= i < size && !pr[i] ==> Combined(n, i, MaxOf)
  }

  /** Below a node with nothing pending above it and a set promise, every position holds its value. */
  lemma {:induction false} PendingRange(n: seq<int>, pr: seq<bool>, size: nat, x: nat, t: nat)
    requires |n| == 2 * size && |pr| == size && x >= 1 && t >= 1
    requires size <= Lo(x, t) && Lo(x + 1, t) <= 2 * size
    requires x < size && Above(n, pr, x) == None && pr[x]
    ensures forall k :: Lo(x, t) <= k < Lo(x + 1, t) ==> Eff(n, pr, k) == n[x]
  {
    forall k | Lo(x, t) <= k < Lo(x + 1, t)
      ensures Eff(n, pr, k) == n[x]
    {
      AncIsRange(size, x, t, k);
      TopPending(n, pr, x, k);
    }
  }

  /**
   * A node with nothing pending above it holds the maximum of what the
   * positions in its range logically hold, and one of them holds exactly it.
   */
  lemma {:induction false} NodeMax(n: seq<int>, pr: seq<bool>, size: nat, x: nat, t: nat)
    requires LazyInv(n, pr, size) && x >= 1 && size <= Lo(x, t) && Lo(x + 1, t) <= 2 * size
    requires Above(n, pr, x) == None
    ensures forall k :: Lo(x, t) <= k < Lo(x + 1, t) ==> Eff(n, pr, k) <= n[x]
    ensures exists k :: Lo(x, t) <= k < Lo(x + 1, t) && Eff(n, pr, k) == n[x]
    decreases t
  {
    LoStrict(x, t);
    if t == 0 {
      assert Eff(n, pr, x) == n[x];
    } else {
      AboveLeavesIsInner(x, t, size);
      if pr[x] {
        PendingRange(n, pr, size, x, t);
        assert Eff(n, pr, Lo(x, t)) == n[x];
      } else {
        ChildrenMax(n, pr, size, x, t);
      }
    }
  }

  /** The case of `NodeMax` for a node without a promise: its children's ranges split its own. */
  lemma {:induction false} ChildrenMax(n: seq<int>, pr: seq<bool>, size: nat, x: nat, t: nat)
    requires LazyInv(n, pr, size) && x >= 1 && t >= 1 && size <= Lo(x, t) && Lo(x + 1, t) <= 2 * size
    requires x < size && Above(n, pr, x) == None && !pr[x]
    ensures forall k :: Lo(x, t) <= k < Lo(x + 1, t) ==> Eff(n, pr, k) <= n[x]
    ensures exists k :: Lo(x, t) <= k < Lo(x + 1, t) && Eff(n, pr, k) == n[x]
    decreases t, 0
  {
    assert Combined(n, x, MaxOf);
    assert n[x] == MaxOf(n[2 * x], n[2 * x + 1]);
    assert Lo(2 * x, t - 1) == Lo(x, t);
    AboveChild(n, pr, x, 2 * x);
    AboveChild(n, pr, x, 2 * x + 1);
    assert Lo(2 * x + 2, t - 1) == Lo(x + 1, t);
    LoMono(2 * x + 1, 2 * x + 2, t - 1);
    LoMono(2 * x, 2 * x + 1, t - 1);
    NodeMax(n, pr, size, 2 * x, t - 1);
    NodeMax(n, pr, size, 2 * x + 1, t - 1);
    if n[2 * x] >= n[2 * x + 1] {
      var k :| Lo(2 * x, t - 1) <= k < Lo(2 * x + 1, t - 1) && Eff(n, pr, k) == n[2 * x];
      assert Lo(x, t) <= k < Lo(x + 1, t) && Eff(n, pr, k) == n[x];
    } else {
      var k :| Lo(2 * x + 1, t - 1) <= k < Lo(2 * x + 2, t - 1) && Eff(n, pr, k) == n[2 * x + 1];
      assert Lo(x, t) <= k < Lo(x + 1, t) && Eff(n, pr, k) == n[x];
    }
  }

  // ---------------------------------------------------------------- pushDown

  /** The node vector after `pushDown(x)`. */
  ghost function PushNodes(n: seq<int>, pr: seq<bool>, x: nat): seq<int>
    requires |n| == 2 * |pr| && x < |pr|
  {
    if pr[x] then n[2 * x := n[x]][2 * x + 1 := n[x]] else n
  }

  /** The promise vector after `pushDown(x)`: the children that are inner nodes take x's promise. */
  ghost function PushPromise(pr: seq<bool>, x: nat): seq<bool>
    requires x < |pr|
  {
    if pr[x] then
      var p1 := if 2 * x < |pr| then pr[2 * x := pr[x]] else pr;
      var p2 := if 2 * x + 1 < |pr| then p1[2 * x + 1 := pr[x]] else p1;
      p2[x := false]
    else pr
  }

  /** Path nodes `p >> j` for j > t hold no promise. */
  ghost predicate ClearPath(pr: seq<bool>, p: nat, t: nat)
  {
    forall j :: t < j && 1 <= Up(p, j) < |pr| ==> !pr[Up(p, j)]
  }

  /** `pushDown` keeps the invariant. */
  lemma {:induction false} PushInv(n: seq<int>, pr: seq<bool>, size: nat, x: nat)
    requires LazyInv(n, pr, size) && x < size
    ensures LazyInv(PushNodes(n, pr, x), PushPromise(pr, x), size)
  {
    var n', pr' := PushNodes(n, pr, x), PushPromise(pr, x);
    if pr[x] {
      assert x >= 1;
      forall i | 1 <= i < size && !pr'[i]
        ensures Combined(n', i, MaxOf)
      {
        if i != x {
          assert i != 2 * x && i != 2 * x + 1;
          assert Combined(n, i, MaxOf);
          assert n'[i] == n[i] && n'[2 * i] == n[2 * i] && n'[2 * i + 1] == n[2 * i + 1];
        }
      }
    }
  }

  /** `pushDown` keeps every clear path clear, and clears the node it pushes. */
  lemma {:induction false} PushKeepsClear(pr: seq<bool>, x: nat, p: nat, t: nat)
    requires x < |pr| && !pr[0] && ClearPath(pr, p, t)
    ensures ClearPath(PushPromise(pr, x), p, t) && !PushPromise(pr, x)[x]
  {
    var pr' := PushPromise(pr, x);
    if pr[x] {
      forall j | t < j && 1 <= Up(p, j) < |pr|
        ensures !pr'[Up(p, j)]
      {
        assert Up(p, j + 1) == Up(p, j) / 2;
      }
    }
  }

  /** `pushDown` of a node with nothing pending above it changes no position's logical value. */
  lemma {:induction false} PushEff(n: seq<int>, pr: seq<bool>, size: nat, x: nat, k: nat)
    requires LazyInv(n, pr, size) && x < size && Above(n, pr, x) == None && size <= k < 2 * size
    ensures Eff(PushNodes(n, pr, x), PushPromise(pr, x), k) == Eff(n, pr, k)
  {
    var n', pr' := PushNodes(n, pr, x), PushPromise(pr, x);
    if pr[x] {
      assert x >= 1;
      assert IsAnc(x, 2 * x) && IsAnc(x, 2 * x + 1);
      if !IsAnc(x, k) {
        forall a | 0 <= a < size && IsAnc(a, k)
          ensures pr[a] == pr'[a] && (pr[a] ==> n[a] == n'[a])
        {
          if a == 2 * x || a == 2 * x + 1 {
            AncTrans(x, a, k);
          }
        }
        AboveFrame(n, pr, n', pr', k);
      } else {
        TopPending(n, pr, x, k);
        forall a | 0 <= a < size && IsAnc(a, x)
          ensures pr[a] == pr'[a] && (pr[a] ==> n[a] == n'[a])
        {
          AncBelow(a, x);
        }
        AboveFrame(n, pr, n', pr', x);
        if k == 2 * x || k == 2 * x + 1 {
          AboveChild(n', pr', x, k);
        } else {
          AncChild(x, k);
          var c := if IsAnc(2 * x, k) then 2 * x else 2 * x + 1;
          AncBelow(c, k);
          AboveChild(n', pr', x, c);
          TopPending(n', pr', c, k);
        }
      }
    }
  }

  // ---------------------------------------------------------------- setRange

  /** Writing a node without a promise changes no position's logical value. */
  lemma {:induction false} WriteFree(n: seq<int>, pr: seq<bool>, size: nat, x: nat, w: int, k: nat)
    requires |n| == 2 * size && |pr| == size && x < size && !pr[x] && size <= k < 2 * size
    ensures Eff(n[x := w], pr, k) == Eff(n, pr, k)
  {
    AboveFrame(n, pr, n[x := w], pr, k);
  }

  /**
   * Assigning v to a node with nothing pending above it, by writing it and
   * setting its promise when it is an inner node, makes exactly the
   * positions of its range hold v.
   */
  lemma {:induction false} AssignNode(n: seq<int>, pr: seq<bool>, size: nat, x: nat, t: nat, v: int, k: nat)
    requires |n| == 2 * size && |pr| == size && x >= 1 && size <= Lo(x, t) && Lo(x + 1, t) <= 2 * size
    requires Above(n, pr, x) == None && size <= k < 2 * size
    ensures x < size ==> Eff(n[x := v], pr[x := true], k) == if Lo(x, t) <= k < Lo(x + 1, t) then v else Eff(n, pr, k)
    ensures x >= size ==> Eff(n[x := v], pr, k) == if Lo(x, t) <= k < Lo(x + 1, t) then v else Eff(n, pr, k)
  {
    if t == 0 {
      forall a | 0 <= a < size && IsAnc(a, k)
        ensures a != x
      {
        AncBelow(a, k);
      }
      AboveFrame(n, pr, n[x := v], pr, k);
    } else {
      AboveLeavesIsInner(x, t, size);
      var n', pr' := n[x := v], pr[x := true];
      AncIsRange(size, x, t, k);
      forall a | 0 <= a < size && IsAnc(a, x)
        ensures a != x
      {
        AncBelow(a, x);
      }
      AboveFrame(n, pr, n', pr', x);
      if IsAnc(x, k) {
        TopPending(n', pr', x, k);
      } else {
        AboveFrame(n, pr, n', pr', k);
      }
    }
  }

  /** Inner nodes without a promise and off the paths to the leaves a and b hold the maximum of their children. */
  ghost predicate BrokenOnly(n: seq<int>, pr: seq<bool>, size: nat, a: nat, b: nat)
  {
    |n| == 2 * size && |pr| == size &&
    forall i :: 1 <= i < size && !pr[i] && !IsAnc(i, a) && !IsAnc(i, b) ==> Combined(n, i, MaxOf)
  }

  /** Assigning a node whose parent lies on one of the two paths keeps the nodes off the paths combined. */
  lemma {:induction false} AssignBroken(n: seq<int>, pr: seq<bool>, size: nat, x: nat, a: nat, b: nat, v: int)
    requires |n| == 2 * size && |pr| == size && 1 <= x < 2 * size && BrokenOnly(n, pr, size, a, b)
    requires x == 1 || IsAnc(x / 2, a) || IsAnc(x / 2, b)
    ensures x < size ==> BrokenOnly(n[x := v], pr[x := true], size, a, b)
    ensures x >= size ==> BrokenOnly(n[x := v], pr, size, a, b)
  {
    var n' := n[x := v];
    var pr' := if x < size then pr[x := true] else pr;
    forall i | 1 <= i < size && !pr'[i] && !IsAnc(i, a) && !IsAnc(i, b)
      ensures Combined(n', i, MaxOf)
    {
      assert i != x && 2 * i != x && 2 * i + 1 != x;
      assert Combined(n, i, MaxOf);
      assert n'[i] == n[i] && n'[2 * i] == n[2 * i] && n'[2 * i + 1] == n[2 * i + 1];
    }
  }

  /** What `setRange`'s loop keeps, with the assigned positions `[left, lo)` and `[hi, right)`. */
  ghost predicate AssignCore(n: seq<int>, pr: seq<bool>, n1: seq<int>, pr1: seq<bool>, size: nat, v: int,
                             left: nat, right: nat, lo: nat, hi: nat, t: nat)
  {
    AssignShape(n, pr, n1, pr1, size, left, right, lo, hi)
    && PathsClear(pr, left, right, t)
    && BrokenOnly(n, pr, size, left, right - 1)
    && Assigned(n, pr, n1, pr1, size, v, left, right, lo, hi)
  }

  ghost predicate AssignShape(n: seq<int>, pr: seq<bool>, n1: seq<int>, pr1: seq<bool>, size: nat,
                              left: nat, right: nat, lo: nat, hi: nat)
  {
    |n| == 2 * size && |pr| == size && |n1| == 2 * size && |pr1| == size && size >= 1
    && size <= left <= right <= 2 * size && left <= lo <= hi <= right && !pr[0]
  }

  /** The paths to `left` (unless the range is empty) and to `right - 1` hold no promise above level t. */
  ghost predicate PathsClear(pr: seq<bool>, left: nat, right: nat, t: nat)
  {
    right >= 1 && (left < right ==> ClearPath(pr, left, t)) && ClearPath(pr, right - 1, t)
  }

  /** The positions `[left, lo)` and `[hi, right)` hold v, the others what they held in `n1`, `pr1`. */
  ghost predicate Assigned(n: seq<int>, pr: seq<bool>, n1: seq<int>, pr1: seq<bool>, size: nat, v: int,
                           left: nat, right: nat, lo: nat, hi: nat)
  {
    |n| == 2 * size && |pr| == size && |n1| == 2 * size && |pr1| == size
    && forall k :: size <= k < 2 * size ==>
         Eff(n, pr, k) == if left <= k < lo || hi <= k < right then v else Eff(n1, pr1, k)
  }

  /** `AssignCore` at the bounds `l < r` of level t, with their place relative to the two paths. */
  ghost predicate AssignState(n: seq<int>, pr: seq<bool>, n1: seq<int>, pr1: seq<bool>, size: nat, v: int,
                              left: nat, right: nat, l: nat, r: nat, t: nat)
  {
    1 <= l <= r && size >= 1 && right >= 1
    && AssignCore(n, pr, n1, pr1, size, v, left, right, Lo(l, t), Lo(r, t), t)
    && (l == Up(left, t) || l == Up(left, t) + 1)
    && (r == Up(right - 1, t) + 1 || r == Up(right - 1, t))
  }

  /** A node whose parent is `p >> (t + 1)` on a path clear above level t has nothing pending above it. */
  lemma {:induction false} NothingAbove(n: seq<int>, pr: seq<bool>, size: nat, x: nat, p: nat, t: nat)
    requires |n| == 2 * size && |pr| == size && 1 <= x < 2 * size && p < 2 * size && ClearPath(pr, p, t)
    requires x == 1 || x / 2 == Up(p, t + 1)
    ensures Above(n, pr, x) == None
    ensures x > 1 ==> IsAnc(x / 2, p)
  {
    if x > 1 {
      UpMono(p, 1, t + 1);
      ClearAbove(n, pr, p, t + 1);
      AboveChild(n, pr, x / 2, x);
      AncOfUp(p, t + 1);
    }
  }

  /** Setting the promise of a node whose level-t range lies among the leaves keeps a path clear above level t. */
  lemma {:induction false} AssignClear(pr: seq<bool>, size: nat, x: nat, p: nat, t: nat)
    requires |pr| == size && x < size && size <= Lo(x, t) && p < 2 * size && ClearPath(pr, p, t)
    ensures ClearPath(pr[x := true], p, t)
  {
    forall j | t < j && 1 <= Up(p, j) < size
      ensures !pr[x := true][Up(p, j)]
    {
      NotHigherOnPath(size, x, t, p, j);
    }
  }

  /** The bookkeeping part of a write in `setRange`'s loop: invariant, node 0 and the paths. */
  lemma {:induction false} AssignFrame(n: seq<int>, pr: seq<bool>, size: nat, x: nat, t: nat, left: nat, last: nat, v: int)
    requires |n| == 2 * size && |pr| == size && 1 <= x && size <= Lo(x, t) && Lo(x + 1, t) <= 2 * size
    requires left < 2 * size && last < 2 * size && !pr[0]
    requires ClearPath(pr, left, t) && ClearPath(pr, last, t) && BrokenOnly(n, pr, size, left, last)
    requires x == 1 || IsAnc(x / 2, left) || IsAnc(x / 2, last)
    ensures var pr' := if x < size then pr[x := true] else pr;
      !pr'[0] && ClearPath(pr', left, t) && ClearPath(pr', last, t) && BrokenOnly(n[x := v], pr', size, left, last)
  {
    AssignBroken(n, pr, size, x, left, last, v);
    if x < size {
      AssignClear(pr, size, x, left, t);
      AssignClear(pr, size, x, last, t);
    }
  }

  /** The left bound's write: node l joins the assigned positions. */
  lemma {:induction false} AssignLeft(n: seq<int>, pr: seq<bool>, n1: seq<int>, pr1: seq<bool>, size: nat, v: int,
                                      left: nat, right: nat, l: nat, hi: nat, t: nat, n': seq<int>, pr': seq<bool>)
    requires AssignCore(n, pr, n1, pr1, size, v, left, right, Lo(l, t), hi, t)
    requires l % 2 == 1 && Lo(l + 1, t) <= hi && right >= 1
    requires l == Up(left, t) || l == Up(left, t) + 1
    requires n' == n[l := v] && pr' == if l < size then pr[l := true] else pr
    ensures AssignCore(n', pr', n1, pr1, size, v, left, right, Lo(l + 1, t), hi, t)
  {
    LoStrict(l, t);
    LoMono(l + 1, l + 1, t);
    NothingAbove(n, pr, size, l, left, t);
    AssignFrame(n, pr, size, l, t, left, right - 1, v);
    forall k | size <= k < 2 * size
      ensures Eff(n', pr', k) == if left <= k < Lo(l + 1, t) || hi <= k < right then v else Eff(n1, pr1, k)
    {
      AssignNode(n, pr, size, l, t, v, k);
    }
  }

  /** The right bound's write: node r - 1 joins the assigned positions. */
  lemma {:induction false} AssignRight(n: seq<int>, pr: seq<bool>, n1: seq<int>, pr1: seq<bool>, size: nat, v: int,
                                       left: nat, right: nat, lo: nat, r: nat, t: nat, n': seq<int>, pr': seq<bool>)
    requires AssignCore(n, pr, n1, pr1, size, v, left, right, lo, Lo(r, t), t)
    requires r % 2 == 1 && r >= 2 && lo <= Lo(r - 1, t) && right >= 1
    requires r == Up(right - 1, t) + 1 || r == Up(right - 1, t)
    requires n' == n[r - 1 := v] && pr' == if r - 1 < size then pr[r - 1 := true] else pr
    ensures AssignCore(n', pr', n1, pr1, size, v, left, right, lo, Lo(r - 1, t), t)
  {
    var x := r - 1;
    LoStrict(x, t);
    NothingAbove(n, pr, size, x, right - 1, t);
    AssignFrame(n, pr, size, x, t, left, right - 1, v);
    forall k | size <= k < 2 * size
      ensures Eff(n', pr', k) == if left <= k < lo || Lo(x, t) <= k < right then v else Eff(n1, pr1, k)
    {
      AssignNode(n, pr, size, x, t, v, k);
    }
  }

  /** How the bounds move up a level: `l` rounds up to even, `r` rounds down, then both halve. */
  lemma {:induction false} BoundsUp(left: nat, last: nat, l: nat, r: nat, t: nat)
    requires 1 <= l < r
    requires l == Up(left, t) || l == Up(left, t) + 1
    requires r == Up(last, t) + 1 || r == Up(last, t)
    ensures var la, rb := l + l % 2, r - r % 2;
      la <= rb && 1 <= la / 2 && rb / 2 - la / 2 < r - l && (r % 2 == 1 ==> la <= r - 1 && r >= 2)
      && Lo(la / 2, t + 1) == Lo(la, t) && Lo(rb / 2, t + 1) == Lo(rb, t)
      && (la / 2 == Up(left, t + 1) || la / 2 == Up(left, t + 1) + 1)
      && (rb / 2 == Up(last, t + 1) + 1 || rb / 2 == Up(last, t + 1))
  {
    var la, rb := l + l % 2, r - r % 2;
    assert Lo(la / 2, t + 1) == Lo(2 * (la / 2), t);
    assert Lo(rb / 2, t + 1) == Lo(2 * (rb / 2), t);
  }

  /** Closing a level of `setRange`'s loop: the bounds move up and the paths stay clear one level higher. */
  lemma {:induction false} AssignUp(n: seq<int>, pr: seq<bool>, n1: seq<int>, pr1: seq<bool>, size: nat, v: int,
                                    left: nat, right: nat, l: nat, r: nat, t: nat, la: nat, rb: nat)
    requires 1 <= l < r && right >= 1 && la == l + l % 2 && rb == r - r % 2
    requires l == Up(left, t) || l == Up(left, t) + 1
    requires r == Up(right - 1, t) + 1 || r == Up(right - 1, t)
    requires AssignCore(n, pr, n1, pr1, size, v, left, right, Lo(la, t), Lo(rb, t), t)
    ensures AssignState(n, pr, n1, pr1, size, v, left, right, la / 2, rb / 2, t + 1)
  {
    BoundsUp(left, right - 1, l, r, t);
  }

  /** `setRange`'s loop starts with nothing assigned and the paths to both ends clear. */
  lemma {:induction false} AssignStart(n: seq<int>, pr: seq<bool>, size: nat, v: int, left: nat, right: nat)
    requires LazyInv(n, pr, size) && size >= 1 && size <= left <= right <= 2 * size
    requires (left < right ==> ClearPath(pr, left, 0)) && ClearPath(pr, right - 1, 0)
    ensures AssignState(n, pr, n, pr, size, v, left, right, left, right, 0)
  {
  }

  /** Assigning v to `[left, right)` as a list of the positions it covers. */
  lemma {:induction false} AssignDone(n: seq<int>, pr: seq<bool>, n1: seq<int>, pr1: seq<bool>, size: nat, v: int,
                                      left: nat, right: nat, l: nat, t: nat)
    requires AssignCore(n, pr, n1, pr1, size, v, left, right, Lo(l, t), Lo(l, t), t)
    ensures forall k :: size <= k < 2 * size ==> Eff(n, pr, k) == if left <= k < right then v else Eff(n1, pr1, k)
  {
  }

  // ---------------------------------------------------------------- updateUntilRoot

  /** A step of `updateUntilRoot` at a parent without a promise: it is recomputed and the gap moves up. */
  lemma {:induction false} UpdateStep(n: seq<int>, pr: seq<bool>, size: nat, q: nat, other: nat, n': seq<int>)
    requires |n| == 2 * size && |pr| == size && 1 < q < 2 * size && !pr[q / 2]
    requires BrokenOnly(n, pr, size, q, other)
    requires n' == n[q / 2 := MaxOf(n[2 * (q / 2)], n[2 * (q / 2) + 1])]
    ensures BrokenOnly(n', pr, size, q / 2, other)
    ensures forall k :: size <= k < 2 * size ==> Eff(n', pr, k) == Eff(n, pr, k)
  {
    var w := q / 2;
    forall i | 1 <= i < size && !pr[i] && !IsAnc(i, w) && !IsAnc(i, other)
      ensures Combined(n', i, MaxOf)
    {
      if i != w {
        assert !IsAnc(i, q);
        assert 2 * i != w && 2 * i + 1 != w;
        assert Combined(n, i, MaxOf);
        assert n'[i] == n[i] && n'[2 * i] == n[2 * i] && n'[2 * i + 1] == n[2 * i + 1];
      }
    }
    forall k | size <= k < 2 * size
      ensures Eff(n', pr, k) == Eff(n, pr, k)
    {
      WriteFree(n, pr, size, w, MaxOf(n[2 * w], n[2 * w + 1]), k);
    }
  }

  /** A step of `updateUntilRoot` at a parent with a promise: nothing is written and the gap moves up. */
  lemma {:induction false} UpdateSkip(n: seq<int>, pr: seq<bool>, size: nat, q: nat, other: nat)
    requires |n| == 2 * size && |pr| == size && 1 < q < 2 * size && pr[q / 2]
    requires BrokenOnly(n, pr, size, q, other)
    ensures BrokenOnly(n, pr, size, q / 2, other)
  {
    forall i | 1 <= i < size && !pr[i] && !IsAnc(i, q / 2) && !IsAnc(i, other)
      ensures Combined(n, i, MaxOf)
    {
      assert !IsAnc(i, q);
    }
  }

  // ---------------------------------------------------------------- rangeOperation

  /** What `rangeOperation`'s loop relies on throughout: the tree is valid and both ends' paths are clear. */
  ghost predicate QueryFrame(n: seq<int>, pr: seq<bool>, size: nat, left: nat, right: nat)
  {
    LazyInv(n, pr, size) && size >= 1 && right >= 1
    && size <= left <= right <= 2 * size
    && (left < right ==> ClearPath(pr, left, 0)) && ClearPath(pr, right - 1, 0)
  }

  /** Where `rangeOperation`'s bounds are at level t: next to the ancestors of both ends. */
  ghost predicate QueryBounds(left: nat, right: nat, l: nat, r: nat, t: nat)
  {
    1 <= l <= r && 1 <= right && left <= Lo(l, t) <= Lo(r, t) <= right
    && (l == Up(left, t) || l == Up(left, t) + 1)
    && (r == Up(right - 1, t) + 1 || r == Up(right - 1, t))
  }

  /** `result` is `init` folded with the maximum over the positions `[left, lo)` and `[hi, right)`. */
  ghost predicate Folded(n: seq<int>, pr: seq<bool>, init: int, left: nat, lo: nat, hi: nat, right: nat, result: int)
    requires |n| == 2 * |pr| && left <= lo <= hi <= right <= |n|
  {
    result >= init
    && (forall k :: (left <= k < lo || hi <= k < right) ==> Eff(n, pr, k) <= result)
    && (result == init || exists k :: (left <= k < lo || hi <= k < right) && Eff(n, pr, k) == result)
  }

  /** Folding in node x, whose range is next to the folded positions, folds in its range. */
  lemma {:induction false} FoldNode(n: seq<int>, pr: seq<bool>, size: nat, init: int, left: nat, lo: nat, hi: nat,
                                    right: nat, result: int, x: nat, t: nat)
    requires LazyInv(n, pr, size) && right <= 2 * size && x >= 1 && size <= Lo(x, t) && Lo(x + 1, t) <= 2 * size
    requires left <= lo <= hi <= right && Lo(x, t) < Lo(x + 1, t)
    requires Above(n, pr, x) == None && Folded(n, pr, init, left, lo, hi, right, result)
    requires (Lo(x, t) == lo && Lo(x + 1, t) <= hi) || (Lo(x + 1, t) == hi && lo <= Lo(x, t))
    ensures Lo(x, t) == lo && Lo(x + 1, t) <= hi ==>
      Folded(n, pr, init, left, Lo(x + 1, t), hi, right, MaxOf(result, n[x]))
    ensures Lo(x + 1, t) == hi && lo <= Lo(x, t) ==>
      Folded(n, pr, init, left, lo, Lo(x, t), right, MaxOf(result, n[x]))
  {
    NodeMax(n, pr, size, x, t);
    var lo', hi' := if Lo(x, t) == lo then Lo(x + 1, t) else lo, if Lo(x, t) == lo then hi else Lo(x, t);
    var result' := MaxOf(result, n[x]);
    if n[x] >= result {
      var k :| Lo(x, t) <= k < Lo(x + 1, t) && Eff(n, pr, k) == n[x];
      assert (left <= k < lo' || hi' <= k < right) && Eff(n, pr, k) == result';
    } else if result != init {
      var k :| (left <= k < lo || hi <= k < right) && Eff(n, pr, k) == result;
      assert (left <= k < lo' || hi' <= k < right) && Eff(n, pr, k) == result';
    }
    assert Folded(n, pr, init, left, lo', hi', right, result');
  }

  /** The state `rangeOperation`'s loop keeps at level t. */
  ghost predicate QueryState(n: seq<int>, pr: seq<bool>, size: nat, init: int, left: nat, right: nat,
                             l: nat, r: nat, t: nat, result: int)
  {
    QueryFrame(n, pr, size, left, right) && QueryBounds(left, right, l, r, t)
    && Folded(n, pr, init, left, Lo(l, t), Lo(r, t), right, result)
  }

  /** An odd left bound is a right child, whose parent lies on the left end's path one level up. */
  lemma {:induction false} OddLeftParent(left: nat, l: nat, t: nat)
    requires l % 2 == 1 && (l == Up(left, t) || l == Up(left, t) + 1)
    ensures l / 2 == Up(left, t + 1)
  {
  }

  /** An odd right bound has a left sibling whose parent lies on the right end's path one level up. */
  lemma {:induction false} OddRightParent(last: nat, r: nat, t: nat)
    requires r % 2 == 1 && (r == Up(last, t) + 1 || r == Up(last, t))
    ensures (r - 1) / 2 == Up(last, t + 1)
  {
  }

  /** The left bound's step of a query level for an odd bound: its node is folded in. */
  lemma {:induction false} FoldLeftStep(n: seq<int>, pr: seq<bool>, size: nat, init: int, left: nat, right: nat,
                                        l: nat, r: nat, t: nat, result: int)
    requires l % 2 == 1 && l < r && QueryFrame(n, pr, size, left, right) && QueryBounds(left, right, l, r, t)
    requires Folded(n, pr, init, left, Lo(l, t), Lo(r, t), right, result)
    ensures l < |n| && left <= Lo(l + 1, t) <= Lo(r, t)
    ensures Folded(n, pr, init, left, Lo(l + 1, t), Lo(r, t), right, MaxOf(result, n[l]))
  {
    LoStrict(l, t);
    LoMono(l + 1, r, t);
    OddLeftParent(left, l, t);
    NothingAbove(n, pr, size, l, left, t);
    FoldNode(n, pr, size, init, left, Lo(l, t), Lo(r, t), right, result, l, t);
  }

  /** The right bound's step of a query level for an odd bound `x + 1`: its left sibling `x` is folded in. */
  lemma {:induction false} FoldRightStep(n: seq<int>, pr: seq<bool>, size: nat, init: int, left: nat, right: nat,
                                         l: nat, x: nat, t: nat, result: int)
    requires QueryFrame(n, pr, size, left, right)
    requires x % 2 == 0 && l <= x && x >= 1 && left <= Lo(l, t) <= Lo(x + 1, t) <= right
    requires x + 1 == Up(right - 1, t) + 1 || x + 1 == Up(right - 1, t)
    requires Folded(n, pr, init, left, Lo(l, t), Lo(x + 1, t), right, result)
    ensures x < |n| && Lo(l, t) <= Lo(x, t) <= right
    ensures Folded(n, pr, init, left, Lo(l, t), Lo(x, t), right, MaxOf(result, n[x]))
  {
    RightSibling(n, pr, size, left, right, l, x, t);
    FoldNode(n, pr, size, init, left, Lo(l, t), Lo(x + 1, t), right, result, x, t);
  }

  /** The left sibling `x` of an odd right bound is next to the folded positions, with nothing pending above it. */
  lemma {:induction false} RightSibling(n: seq<int>, pr: seq<bool>, size: nat, left: nat, right: nat, l: nat, x: nat, t: nat)
    requires QueryFrame(n, pr, size, left, right)
    requires x % 2 == 0 && l <= x && x >= 1 && left <= Lo(l, t) <= Lo(x + 1, t) <= right
    requires x + 1 == Up(right - 1, t) + 1 || x + 1 == Up(right - 1, t)
    ensures 1 <= x < |n| && Lo(l, t) <= Lo(x, t) < Lo(x + 1, t) <= 2 * size && size <= Lo(x, t)
    ensures Above(n, pr, x) == None
  {
    LoStrict(x, t);
    LoMono(l, x, t);
    OddRightParent(right - 1, x + 1, t);
    NothingAbove(n, pr, size, x, right - 1, t);
  }

  /** Before `rangeOperation`'s loop nothing is folded in yet. */
  lemma {:induction false} FoldedNone(n: seq<int>, pr: seq<bool>, init: int, left: nat, right: nat)
    requires |n| == 2 * |pr| && left <= right <= |n|
    ensures Folded(n, pr, init, left, left, right, right, init)
  {
  }

  /** When the two folded parts meet, every position of the range is folded in. */
  lemma {:induction false} FoldedAll(n: seq<int>, pr: seq<bool>, init: int, left: nat, mid: nat, right: nat, result: int)
    requires |n| == 2 * |pr| && left <= mid <= right <= |n|
    requires Folded(n, pr, init, left, mid, mid, right, result)
    ensures result >= init
    ensures forall k :: left <= k < right ==> Eff(n, pr, k) <= result
    ensures result == init || exists k :: left <= k < right && Eff(n, pr, k) == result
  {
  }

  /** Closing a level of `rangeOperation`'s loop: the rounded bounds halve and cover the same positions. */
  lemma {:induction false} QueryUp(left: nat, right: nat, l: nat, r: nat, t: nat, la: nat, rb: nat)
    requires l < r && QueryBounds(left, right, l, r, t)
    requires la == l + l % 2 && rb == r - r % 2
    ensures QueryBounds(left, right, la / 2, rb / 2, t + 1) && rb / 2 - la / 2 < r - l
    ensures Lo(la / 2, t + 1) == Lo(la, t) && Lo(rb / 2, t + 1) == Lo(rb, t)
  {
    BoundsUp(left, right - 1, l, r, t);
    LoMono(l, la, t);
    LoMono(la, rb, t);
    LoMono(rb, r, t);
  }

  /** Without any promise nothing is pending anywhere. */
  lemma {:induction false} NoPromiseNoAbove(n: seq<int>, pr: seq<bool>, k: nat)
    requires |n| == 2 * |pr| && k < |n| && forall i :: 0 <= i < |pr| ==> !pr[i]
    ensures Above(n, pr, k) == None
    decreases k
  {
    if k > 1 {
      NoPromiseNoAbove(n, pr, k / 2);
    }
  }

  /** With `size < 2^h`, every node's path passes the root by level h. */
  lemma {:induction false} PathEnds(size: nat, h: nat, p: nat, j: nat)
    requires size < Lo(1, h) && p < 2 * size && h < j
    ensures Up(p, j) == 0
  {
    LoDouble(1, h);
    assert Lo(1, h + 1) == Lo(2, h);
    LoAdd(1, h + 1, j - (h + 1));
    assert h + 1 + (j - (h + 1)) == j;
    LoGrows(Lo(1, h + 1), j - (h + 1));
    UpLo(p, j, 1);
  }

  /** A path clear above level i whose node at level i is clear is clear above level i - 1. */
  lemma {:induction false} ClearLower(pr: seq<bool>, p: nat, i: nat)
    requires i >= 1 && ClearPath(pr, p, i) && (1 <= Up(p, i) < |pr| ==> !pr[Up(p, i)])
    ensures ClearPath(pr, p, i - 1)
  {
  }

  /**
   * `RangeAssignMaxTree`: a lazy segment tree over `size` positions whose
   * `setRange` assigns one value to a range of positions and whose
   * `rangeMaximum` asks for the maximum over a range. `h` is the bit length
   * of `size`, the number of levels `pushDownFromRoot` walks.
   */
  class RangeAssignMaxTree {
    const size: nat
    const h: nat
    const nodes: array<int>
    const promise: array<bool>

    ghost predicate Valid()
      reads this, nodes, promise
    {
      nodes.Length == 2 * size && promise.Length == size && size >= 1 && size < Lo(1, h)
      && LazyInv(nodes[..], promise[..], size)
    }

    /** The value position q logically holds. */
    ghost function Logical(q: nat): int
      requires Valid() && q < size
      reads this, nodes, promise
    {
      Eff(nodes[..], promise[..], size + q)
    }

    /** The tree over `size` positions that all hold `initialValue`. */
    constructor (size: nat, initialValue: int)
      requires size >= 1
      ensures Valid() && this.size == size
      ensures forall q :: 0 <= q < size ==> Logical(q) == initialValue
    {
      var bits: nat := 0;
      var v: nat := size;
      while v != 0
        invariant v == Up(size, bits)
        decreases v
      {
        v := v / 2;
        bits := bits + 1;
      }
      UpLo(size, bits, 1);
      this.size := size;
      this.h := bits;
      this.nodes := new int[2 * size](_ => 0);
      this.promise := new bool[size](_ => false);
      new;
      var i := size;
      while i < 2 * size
        invariant size <= i <= 2 * size
        invariant forall k :: size <= k < i ==> nodes[k] == initialValue
        invariant forall k :: 0 <= k < size ==> !promise[k]
      {
        nodes[i] := initialValue;
        i := i + 1;
      }
      ghost var leaves := nodes[size..];
      BuildInnerNodes(nodes, size, MaxOf);
      forall q | 0 <= q < size
        ensures Logical(q) == initialValue
      {
        assert nodes[size + q] == nodes[size..][q] == leaves[q];
        NoPromiseNoAbove(nodes[..], promise[..], size + q);
      }
    }

    /** `pushDown(x)`: a promise at x moves to its children. */
    method PushDown(x: nat)
      requires Valid() && x < size && Above(nodes[..], promise[..], x) == None
      modifies nodes, promise
      ensures Valid()
      ensures nodes[..] == PushNodes(old(nodes[..]), old(promise[..]), x)
      ensures promise[..] == PushPromise(old(promise[..]), x)
    {
      ghost var n, pr := nodes[..], promise[..];
      PushInv(n, pr, size, x);
      if promise[x] {
        var left := 2 * x;
        var right := 2 * x + 1;
        nodes[right] := nodes[x];
        nodes[left] := nodes[right];
        if left < size {
          promise[left] := promise[x];
        }
        if right < size {
          promise[right] := promise[x];
        }
        promise[x] := false;
      }
    }

    /**
     * `pushDownFromRoot(p)`: the promises on p's strict ancestors, from the
     * root down, move towards p. No position's value changes, the path to p
     * ends up clear, and a path that was clear stays clear.
     */
    method PushDownFromRoot(p: nat)
      requires Valid() && p < 2 * size
      modifies nodes, promise
      ensures Valid() && ClearPath(promise[..], p, 0)
      ensures forall k :: size <= k < 2 * size ==> Eff(nodes[..], promise[..], k) == old(Eff(nodes[..], promise[..], k))
      ensures forall p1 :: ClearPath(old(promise[..]), p1, 0) ==> ClearPath(promise[..], p1, 0)
    {
      forall j | h < j
        ensures Up(p, j) == 0
      {
        PathEnds(size, h, p, j);
      }
      var i := h;
      while i > 0
        invariant 0 <= i <= h && Valid() && ClearPath(promise[..], p, i)
        invariant forall k :: size <= k < 2 * size ==> Eff(nodes[..], promise[..], k) == old(Eff(nodes[..], promise[..], k))
        invariant forall p1 :: ClearPath(old(promise[..]), p1, 0) ==> ClearPath(promise[..], p1, 0)
      {
        var x := Up(p, i);
        UpMono(p, 1, i);
        ClearAbove(nodes[..], promise[..], p, i);
        ghost var n, pr := nodes[..], promise[..];
        PushDown(x);
        PushKeepsClear(pr, x, p, i);
        ClearLower(promise[..], p, i);
        forall p1 | ClearPath(old(promise[..]), p1, 0)
          ensures ClearPath(promise[..], p1, 0)
        {
          PushKeepsClear(pr, x, p1, 0);
        }
        forall k | size <= k < 2 * size
          ensures Eff(nodes[..], promise[..], k) == Eff(n, pr, k)
        {
          PushEff(n, pr, size, x, k);
        }
        i := i - 1;
      }
    }

    /**
     * `updateUntilRoot(p)`: every strict ancestor of p without a promise,
     * from the bottom up, is recomputed from its children. Nodes off p's
     * path and off the path to `other` were combined before; afterwards so
     * are the ones on p's path. No position's value changes.
     */
    method UpdateUntilRoot(p: nat, ghost other: nat)
      requires nodes.Length == 2 * size && promise.Length == size && size >= 1 && p < 2 * size
      requires BrokenOnly(nodes[..], promise[..], size, p, other)
      modifies nodes
      ensures BrokenOnly(nodes[..], promise[..], size, other, other)
      ensures forall k :: size <= k < 2 * size ==> Eff(nodes[..], promise[..], k) == old(Eff(nodes[..], promise[..], k))
    {
      var q: nat := p;
      while q > 1
        invariant q < 2 * size
        invariant BrokenOnly(nodes[..], promise[..], size, q, other)
        invariant forall k :: size <= k < 2 * size ==> Eff(nodes[..], promise[..], k) == old(Eff(nodes[..], promise[..], k))
        decreases q
      {
        var parent := q / 2;
        if !promise[parent] {
          ghost var n := nodes[..];
          nodes[parent] := MaxOf(nodes[2 * parent], nodes[2 * parent + 1]);
          UpdateStep(n, promise[..], size, q, other, nodes[..]);
        } else {
          UpdateSkip(nodes[..], promise[..], size, q, other);
        }
        q := parent;
      }
      forall i | 1 <= i < size && !promise[i] && !IsAnc(i, other)
        ensures Combined(nodes[..], i, MaxOf)
      {
        assert !IsAnc(i, q);
      }
    }

    /** `setRange(l, r, value)`: the positions `[l, r)` hold `value`, all others keep what they held. */
    method SetRange(l: nat, r: nat, value: int)
      requires Valid() && l <= r <= size
      modifies nodes, promise
      ensures Valid()
      ensures forall q :: 0 <= q < size ==> Logical(q) == if l <= q < r then value else old(Logical(q))
    {
      ghost var n0, pr0 := nodes[..], promise[..];
      var left := size + l;
      var right := size + r;
      if left < 2 * size {
        PushDownFromRoot(left);
      }
      PushDownFromRoot(right - 1);
      ghost var n1, pr1 := nodes[..], promise[..];
      AssignStart(n1, pr1, size, value, left, right);
      AssignLevels(left, right, value);
      ghost var n2, pr2 := nodes[..], promise[..];
      if left < 2 * size {
        UpdateUntilRoot(left, right - 1);
      } else {
        assert BrokenOnly(nodes[..], promise[..], size, right - 1, right - 1);
      }
      UpdateUntilRoot(right - 1, 0);
      forall q | 0 <= q < size
        ensures Logical(q) == if l <= q < r then value else old(Logical(q))
      {
        assert Eff(n2, pr2, size + q) == if left <= size + q < right then value else Eff(n1, pr1, size + q);
      }
    }

    /**
     * For the empty range at the end, `l == r == size`, the source still
     * pushes down to (and `setRange` climbs from) leaf index `size + l`, one
     * past the last node. `pushDownFromRoot` reads `promise[left >> i]` for
     * `i` from `h` down to 1: every level above the last stays inside the
     * promise vector, and the last one reads `promise[size]`, one past its
     * end; `updateUntilRoot` reads that same entry first. The model skips
     * that path.
     */
    lemma {:induction false} EmptyEndRangeLeavesTree()
      requires Valid()
      ensures var left := size + size;
        left == nodes.Length && h >= 1
        && (forall i :: 1 < i <= h ==> Up(left, i) < promise.Length)
        && Up(left, 1) == promise.Length
    {
      var left := size + size;
      UpLo(size, h, 1);
      forall i | 1 < i <= h
        ensures Up(left, i) < promise.Length
      {
        UpMono(left, 2, i);
      }
    }

    /**
     * The loop of `setRange`: the bounds of `[left, right)` climb level by
     * level and each node that exactly covers a piece of the range is
     * assigned `value`, with a promise if it is an inner node.
     */
    method AssignLevels(left: nat, right: nat, value: int)
      requires AssignState(nodes[..], promise[..], nodes[..], promise[..], size, value, left, right, left, right, 0)
      modifies nodes, promise
      ensures !promise[..][0] && BrokenOnly(nodes[..], promise[..], size, left, right - 1)
      ensures forall k :: size <= k < 2 * size ==>
        Eff(nodes[..], promise[..], k) == if left <= k < right then value else old(Eff(nodes[..], promise[..], k))
      ensures left == right ==> nodes[..] == old(nodes[..]) && promise[..] == old(promise[..])
    {
      ghost var n1, pr1 := nodes[..], promise[..];
      var lb: nat, rb: nat := left, right;
      ghost var t: nat := 0;
      while lb < rb
        invariant AssignState(nodes[..], promise[..], n1, pr1, size, value, left, right, lb, rb, t)
        invariant left == right ==> lb == rb && nodes[..] == n1 && promise[..] == pr1
        decreases rb - lb
      {
        lb, rb := AssignLevel(lb, rb, value, left, right, t, n1, pr1);
        t := t + 1;
      }
      AssignDone(nodes[..], promise[..], n1, pr1, size, value, left, right, lb, t);
    }

    /** One level of `setRange`'s loop. */
    method AssignLevel(lb: nat, rb: nat, value: int, ghost left: nat, ghost right: nat, ghost t: nat,
                       ghost n1: seq<int>, ghost pr1: seq<bool>) returns (lb': nat, rb': nat)
      requires lb < rb && AssignState(nodes[..], promise[..], n1, pr1, size, value, left, right, lb, rb, t)
      modifies nodes, promise
      ensures AssignState(nodes[..], promise[..], n1, pr1, size, value, left, right, lb', rb', t + 1)
      ensures rb' - lb' < rb - lb
    {
      BoundsUp(left, right - 1, lb, rb, t);
      var l := AssignLeftNode(lb, rb, value, left, right, t, n1, pr1);
      var r := AssignRightNode(l, rb, value, left, right, t, n1, pr1);
      AssignUp(nodes[..], promise[..], n1, pr1, size, value, left, right, lb, rb, t, l, r);
      lb', rb' := l / 2, r / 2;
    }

    /** The left bound's step in `setRange`'s loop: an odd `l` is assigned and moves right. */
    method AssignLeftNode(l: nat, r: nat, value: int, ghost left: nat, ghost right: nat, ghost t: nat,
                          ghost n1: seq<int>, ghost pr1: seq<bool>) returns (l': nat)
      requires l < r && AssignState(nodes[..], promise[..], n1, pr1, size, value, left, right, l, r, t)
      modifies nodes, promise
      ensures l' == l + l % 2
      ensures AssignCore(nodes[..], promise[..], n1, pr1, size, value, left, right, Lo(l', t), Lo(r, t), t)
    {
      ghost var n, pr := nodes[..], promise[..];
      l' := l;
      if l % 2 == 1 {
        LoStrict(l, t);
        LoMono(l + 1, r, t);
        nodes[l] := value;
        if l < size {
          promise[l] := true;
        }
        AssignLeft(n, pr, n1, pr1, size, value, left, right, l, Lo(r, t), t, nodes[..], promise[..]);
        l' := l + 1;
      }
    }

    /** The right bound's step in `setRange`'s loop: an odd `r` moves left and is assigned. */
    method AssignRightNode(l: nat, r: nat, value: int, ghost left: nat, ghost right: nat, ghost t: nat,
                           ghost n1: seq<int>, ghost pr1: seq<bool>) returns (r': nat)
      requires AssignCore(nodes[..], promise[..], n1, pr1, size, value, left, right, Lo(l, t), Lo(r, t), t)
      requires l <= r && (r % 2 == 1 ==> l <= r - 1 && r >= 2) && right >= 1
      requires r == Up(right - 1, t) + 1 || r == Up(right - 1, t)
      modifies nodes, promise
      ensures r' == r - r % 2
      ensures AssignCore(nodes[..], promise[..], n1, pr1, size, value, left, right, Lo(l, t), Lo(r', t), t)
    {
      ghost var n, pr := nodes[..], promise[..];
      r' := r;
      if r % 2 == 1 {
        LoStrict(r - 1, t);
        LoMono(l, r - 1, t);
        nodes[r - 1] := value;
        if r - 1 < size {
          promise[r - 1] := true;
        }
        AssignRight(n, pr, n1, pr1, size, value, left, right, Lo(l, t), r, t, nodes[..], promise[..]);
        r' := r - 1;
      }
    }

    /**
     * `rangeOperation(l, r, initialValue)`: the maximum of `initialValue`
     * and of what the positions `[l, r)` hold. The promises it pushes down
     * change no position's value.
     */
    method RangeOperation(l: nat, r: nat, initialValue: int) returns (result: int)
      requires Valid() && l <= r <= size
      modifies nodes, promise
      ensures Valid()
      ensures forall q :: 0 <= q < size ==> Logical(q) == old(Logical(q))
      ensures result >= initialValue
      ensures forall q :: l <= q < r ==> Logical(q) <= result
      ensures result == initialValue || exists q :: l <= q < r && Logical(q) == result
    {
      var left := size + l;
      var right := size + r;
      if left < 2 * size {
        PushDownFromRoot(left);
      }
      PushDownFromRoot(right - 1);
      result := QueryLevels(left, right, initialValue);
      forall q | l <= q < r
        ensures Logical(q) <= result
      {
        assert left <= size + q < right;
      }
      if result != initialValue {
        ghost var k :| left <= k < right && Eff(nodes[..], promise[..], k) == result;
        assert Logical(k - size) == result;
      }
    }

    /**
     * The loop of `rangeOperation`: the bounds of `[left, right)` climb level
     * by level and each node that exactly covers a piece of the range is
     * folded into the result.
     */
    method QueryLevels(left: nat, right: nat, init: int) returns (result: int)
      requires QueryFrame(nodes[..], promise[..], size, left, right)
      ensures result >= init
      ensures forall k :: left <= k < right ==> Eff(nodes[..], promise[..], k) <= result
      ensures result == init || exists k :: left <= k < right && Eff(nodes[..], promise[..], k) == result
    {
      ghost var n, pr := nodes[..], promise[..];
      result := init;
      var lb: nat, rb: nat := left, right;
      ghost var t: nat := 0;
      FoldedNone(n, pr, init, left, right);
      while lb < rb
        invariant QueryState(n, pr, size, init, left, right, lb, rb, t, result)
        decreases rb - lb
      {
        lb, rb, result := QueryLevel(lb, rb, init, left, right, t, result, n, pr);
        t := t + 1;
      }
      assert lb == rb && n == nodes[..] && pr == promise[..];
      FoldedAll(n, pr, init, left, Lo(lb, t), right, result);
    }

    /** One level of `rangeOperation`'s loop. */
    method QueryLevel(lb: nat, rb: nat, init: int, ghost left: nat, ghost right: nat, ghost t: nat, result: int,
                      ghost n: seq<int>, ghost pr: seq<bool>)
      returns (lb': nat, rb': nat, result': int)
      requires n == nodes[..] && pr == promise[..]
      requires lb < rb && QueryState(n, pr, size, init, left, right, lb, rb, t, result)
      ensures rb' - lb' < rb - lb && QueryState(n, pr, size, init, left, right, lb', rb', t + 1, result')
    {
      BoundsUp(left, right - 1, lb, rb, t);
      var l, res := FoldLeftNode(lb, rb, init, left, right, t, result, n, pr);
      var r;
      r, result' := FoldRightNode(l, rb, init, left, right, t, res, n, pr);
      QueryUp(left, right, lb, rb, t, l, r);
      lb', rb' := l / 2, r / 2;
    }

    /** The left bound's step in `rangeOperation`'s loop: an odd `l` is folded in and moves right. */
    method FoldLeftNode(l: nat, r: nat, init: int, ghost left: nat, ghost right: nat, ghost t: nat, result: int,
                      ghost n: seq<int>, ghost pr: seq<bool>)
      returns (l': nat, result': int)
      requires |n| == nodes.Length && forall i :: 0 <= i < |n| ==> nodes[i] == n[i]
      requires l < r && QueryFrame(n, pr, size, left, right) && QueryBounds(left, right, l, r, t)
      requires Folded(n, pr, init, left, Lo(l, t), Lo(r, t), right, result)
      ensures l' == l + l % 2 && l' <= r && left <= Lo(l', t) <= Lo(r, t)
      ensures Folded(n, pr, init, left, Lo(l', t), Lo(r, t), right, result')
    {
      l', result' := l, result;
      if l % 2 == 1 {
        FoldLeftStep(n, pr, size, init, left, right, l, r, t, result);
        assert nodes[l] == n[l];
        l', result' := l + 1, MaxOf(result, nodes[l]);
      }
    }

    /** The right bound's step in `rangeOperation`'s loop: an odd `r` moves left and is folded in. */
    method FoldRightNode(l: nat, r: nat, init: int, ghost left: nat, ghost right: nat, ghost t: nat, result: int,
                      ghost n: seq<int>, ghost pr: seq<bool>)
      returns (r': nat, result': int)
      requires |n| == nodes.Length && forall i :: 0 <= i < |n| ==> nodes[i] == n[i]
      requires QueryFrame(n, pr, size, left, right)
      requires l <= r && (r % 2 == 1 ==> l <= r - 1 && r >= 2) && left <= Lo(l, t) <= Lo(r, t) <= right
      requires r == Up(right - 1, t) + 1 || r == Up(right - 1, t)
      requires Folded(n, pr, init, left, Lo(l, t), Lo(r, t), right, result)
      ensures r' == r - r % 2 && Lo(l, t) <= Lo(r', t) <= right
      ensures Folded(n, pr, init, left, Lo(l, t), Lo(r', t), right, result')
    {
      r', result' := r, result;
      if r % 2 == 1 {
        var x := r - 1;
        assert x + 1 == r;
        FoldRightStep(n, pr, size, init, left, right, l, x, t, result);
        assert nodes[x] == n[x];
        r', result' := x, MaxOf(result, nodes[x]);
      }
    }

    /** `rangeMaximum(l, r)`: the maximum over `[l, r)`, or the least `int` for an empty range. */
    method RangeMaximum(l: nat, r: nat) returns (result: int)
      requires Valid() && l <= r <= size
      modifies nodes, promise
      ensures Valid()
      ensures forall q :: 0 <= q < size ==> Logical(q) == old(Logical(q))
      ensures forall q :: l <= q < r ==> Logical(q) <= result
      ensures result == INT_MIN || exists q :: l <= q < r && Logical(q) == result
      ensures l == r ==> result == INT_MIN
    {
      result := RangeOperation(l, r, INT_MIN);
    }
  }
}
