/**
 * The linear disassembly view (src/widgets/DisassemblyWidget.cpp): the
 * top-offset history that follows the core's seek history, scrolling,
 * refreshing when a changed instruction is on screen, and the arrow store of
 * the left panel (deduplicated, reordered, flushed or trimmed after each
 * paint, and cleared arrow by arrow).
 *
 * Refreshing, the bottom offset and the scroll clamp are the same rules as
 * in the older widget and are taken from `LegacyDisassemblyWidget`. The
 * core's answers, the refresh deferrer's answer and the deepest arrow level
 * that the level assignment reached are parameters. The `Arrow` struct is
 * declared in src/widgets/DisassemblyWidget.h, which is not part of this
 * model: its fields are inferred from their use here.
 */
module DisassemblyWidget {
  import opened Common
  import L = LegacyDisassemblyWidget

  type DisassemblyLine = L.DisassemblyLine

  /** `CutterCore::SeekHistoryType`: how a seek moved through the core's history. */
  datatype SeekHistoryType = New | Undo | Redo

  // ------------------------------------------------------------ seek history

  /** A top-offset history and the position of the current entry in it. */
  datatype History = History(offsets: seq<u64>, pos: int)

  predicate ValidHistory(h: History)
  {
    (|h.offsets| == 0 && h.pos == 0) || 0 <= h.pos < |h.offsets|
  }

  /** What the caller guarantees: an undo or redo step has an entry to move to. */
  predicate CanMove(h: History, kind: SeekHistoryType)
  {
    ValidHistory(h)
    && (kind == Undo ==> h.pos >= 1)
    && (kind == Redo ==> h.pos + 1 < |h.offsets|)
  }

  /**
   * The history step of `on_seekChanged`: a new seek drops the entries after
   * the current one, appends `offset` and makes it current; undo and redo
   * move the position by one.
   */
  function Step(h: History, offset: u64, kind: SeekHistoryType): (r: History)
    requires CanMove(h, kind)
    ensures ValidHistory(r) && |r.offsets| > 0
    ensures kind == New ==> r.pos == |r.offsets| - 1 && r.offsets[r.pos] == offset
                            && r.offsets[..r.pos] == h.offsets[..Min(h.pos + 1, |h.offsets|)]
    ensures kind == Undo ==> r == History(h.offsets, h.pos - 1)
    ensures kind == Redo ==> r == History(h.offsets, h.pos + 1)
  {
    match kind
    case New =>
      var kept := if |h.offsets| > h.pos + 1 then h.offsets[..h.pos + 1] else h.offsets;
      assert kept == h.offsets[..Min(h.pos + 1, |h.offsets|)];
      History(kept + [offset], |kept|)
    case Undo => History(h.offsets, h.pos - 1)
    case Redo => History(h.offsets, h.pos + 1)
  }

  /** Undo followed by redo comes back to the same history and position. */
  lemma {:induction false} UndoRedo(h: History, a: u64, b: u64)
    requires CanMove(h, Undo)
    ensures CanMove(Step(h, a, Undo), Redo)
    ensures Step(Step(h, a, Undo), b, Redo) == h
  {
  }

  /** Undoing a new seek returns to the entry that was current before it, with the history up to it intact. */
  lemma {:induction false} NewThenUndo(h: History, offset: u64, b: u64)
    requires ValidHistory(h) && |h.offsets| > 0
    ensures CanMove(Step(h, offset, New), Undo)
    ensures Step(Step(h, offset, New), b, Undo).pos == h.pos
    ensures Step(Step(h, offset, New), b, Undo).offsets[..h.pos + 1] == h.offsets[..h.pos + 1]
  {
    var r := Step(h, offset, New);
    assert r.pos == h.pos + 1;
    assert r.offsets[..h.pos + 1] == r.offsets[..r.pos];
  }

  /** A new seek after undoing discards the redo entries: nothing is left to redo. */
  lemma {:induction false} NewDropsRedo(h: History, offset: u64)
    requires ValidHistory(h)
    ensures !CanMove(Step(h, offset, New), Redo)
  {
  }

  // ------------------------------------------------------------ arrows

  /** A jump between two offsets: the lower and upper end, and whether it goes up. */
  datatype Arrow = Arrow(min: u64, max: u64, up: bool)

  /** `Arrow(v1, v2)`: a jump from `v1` to `v2`. */
  function MakeArrow(from: u64, to: u64): (a: Arrow)
    ensures a.min <= a.max && a.up == (from > to)
    ensures JmpFrom(a) == from && JmpTo(a) == to
  {
    if from > to then Arrow(to, from, true) else Arrow(from, to, false)
  }

  function JmpFrom(a: Arrow): u64
  {
    if a.up then a.max else a.min
  }

  function JmpTo(a: Arrow): u64
  {
    if a.up then a.min else a.max
  }

  function Length(a: Arrow): int
  {
    a.max - a.min
  }

  /** The dedupe test: two arrows cover the same span, whichever way they point. */
  predicate SameSpan(a: Arrow, b: Arrow)
  {
    a.min == b.min && a.max == b.max
  }

  predicate HasSpan(s: seq<Arrow>, a: Arrow)
  {
    exists i :: 0 <= i < |s| && SameSpan(s[i], a)
  }

  /** The arrow a line jumps with, if it has one. */
  predicate LineArrow(line: DisassemblyLine)
  {
    line.arrow != RVA_INVALID
  }

  /**
   * The dedupe of `paintEvent`: each line's arrow is appended unless an
   * arrow with the same span is already stored. The stored arrows stay in
   * front, every line arrow's span ends up stored, every appended arrow is a
   * line arrow, and no appended arrow repeats the span of one before it.
   */
  function AddArrows(arrows: seq<Arrow>, lines: seq<DisassemblyLine>): (r: seq<Arrow>)
    ensures |r| >= |arrows| && r[..|arrows|] == arrows
    ensures forall i :: 0 <= i < |lines| && LineArrow(lines[i]) ==> HasSpan(r, MakeArrow(lines[i].offset, lines[i].arrow))
    ensures forall j :: |arrows| <= j < |r| ==> FromLine(lines, r[j])
    ensures forall j :: |arrows| <= j < |r| ==> !HasSpan(r[..j], r[j])
    decreases |lines|
  {
    if |lines| == 0 then arrows
    else
      var init := lines[..|lines| - 1];
      var line := lines[|lines| - 1];
      var prev := AddArrows(arrows, init);
      var r := if LineArrow(line) && !HasSpan(prev, MakeArrow(line.offset, line.arrow))
               then prev + [MakeArrow(line.offset, line.arrow)] else prev;
      assert lines == init + [line];
      AddArrowsStep(arrows, init, line, prev, r);
      r
  }

  /** `a` is the arrow of one of the lines. */
  predicate FromLine(lines: seq<DisassemblyLine>, a: Arrow)
  {
    exists i :: 0 <= i < |lines| && LineArrow(lines[i]) && a == MakeArrow(lines[i].offset, lines[i].arrow)
  }

  lemma {:induction false} AddArrowsStep(arrows: seq<Arrow>, init: seq<DisassemblyLine>, line: DisassemblyLine,
                                         prev: seq<Arrow>, r: seq<Arrow>)
    requires |prev| >= |arrows| && prev[..|arrows|] == arrows
    requires forall i :: 0 <= i < |init| && LineArrow(init[i]) ==> HasSpan(prev, MakeArrow(init[i].offset, init[i].arrow))
    requires forall j :: |arrows| <= j < |prev| ==> FromLine(init, prev[j])
    requires forall j :: |arrows| <= j < |prev| ==> !HasSpan(prev[..j], prev[j])
    requires r == if LineArrow(line) && !HasSpan(prev, MakeArrow(line.offset, line.arrow))
                  then prev + [MakeArrow(line.offset, line.arrow)] else prev
    ensures var lines := init + [line];
            && |r| >= |arrows| && r[..|arrows|] == arrows
            && (forall i :: 0 <= i < |lines| && LineArrow(lines[i]) ==> HasSpan(r, MakeArrow(lines[i].offset, lines[i].arrow)))
            && (forall j :: |arrows| <= j < |r| ==> FromLine(lines, r[j]))
            && (forall j :: |arrows| <= j < |r| ==> !HasSpan(r[..j], r[j]))
  {
    var lines := init + [line];
    var n := |init|;
    assert r[..|prev|] == prev;
    assert r[..|arrows|] == prev[..|arrows|];
    forall i | 0 <= i < |lines| && LineArrow(lines[i])
      ensures HasSpan(r, MakeArrow(lines[i].offset, lines[i].arrow))
    {
      var a := MakeArrow(lines[i].offset, lines[i].arrow);
      if i < n {
        assert lines[i] == init[i];
        var k :| 0 <= k < |prev| && SameSpan(prev[k], a);
        assert r[k] == prev[k];
      } else if HasSpan(prev, a) {
        var k :| 0 <= k < |prev| && SameSpan(prev[k], a);
        assert r[k] == prev[k];
      } else {
        assert r[|prev|] == a;
      }
    }
    forall j | |arrows| <= j < |r| ensures FromLine(lines, r[j]) {
      if j < |prev| {
        assert r[j] == prev[j];
        var i :| 0 <= i < |init| && LineArrow(init[i]) && prev[j] == MakeArrow(init[i].offset, init[i].arrow);
        assert lines[i] == init[i];
      } else {
        assert LineArrow(lines[n]) && r[j] == MakeArrow(lines[n].offset, lines[n].arrow);
      }
    }
    forall j | |arrows| <= j < |r| ensures !HasSpan(r[..j], r[j]) {
      assert r[..j] == prev[..j];
      if j < |prev| {
        assert r[j] == prev[j];
      }
    }
  }

  /** The smallest and the largest offset among the lines on screen. */
  function ViewMin(lines: seq<DisassemblyLine>): (m: u64)
    requires |lines| > 0
    ensures (exists i :: 0 <= i < |lines| && lines[i].offset == m) && forall i :: 0 <= i < |lines| ==> m <= lines[i].offset
    decreases |lines|
  {
    if |lines| == 1 then lines[0].offset
    else
      var m := ViewMin(lines[..|lines| - 1]);
      assert forall i :: 0 <= i < |lines| - 1 ==> lines[..|lines| - 1][i] == lines[i];
      if lines[|lines| - 1].offset < m then lines[|lines| - 1].offset else m
  }

  function ViewMax(lines: seq<DisassemblyLine>): (m: u64)
    requires |lines| > 0
    ensures (exists i :: 0 <= i < |lines| && lines[i].offset == m) && forall i :: 0 <= i < |lines| ==> m >= lines[i].offset
    decreases |lines|
  {
    if |lines| == 1 then lines[0].offset
    else
      var m := ViewMax(lines[..|lines| - 1]);
      assert forall i :: 0 <= i < |lines| - 1 ==> lines[..|lines| - 1][i] == lines[i];
      if lines[|lines| - 1].offset > m then lines[|lines| - 1].offset else m
  }

  // ------------------------------------------------------------ sorting

  /** `s` is in ascending order of `key`. */
  predicate SortedBy(s: seq<Arrow>, key: Arrow -> int)
  {
    forall i, j :: 0 <= i < j < |s| ==> key(s[i]) <= key(s[j])
  }

  function Insert(x: Arrow, s: seq<Arrow>, key: Arrow -> int): (r: seq<Arrow>)
    ensures multiset(r) == multiset(s) + multiset{x}
    ensures |r| == |s| + 1
    decreases |s|
  {
    if |s| == 0 then [x]
    else if key(x) <= key(s[0]) then [x] + s
    else
      assert s == [s[0]] + s[1..];
      [s[0]] + Insert(x, s[1..], key)
  }

  /** Inserting into a sorted sequence keeps it sorted; the new first element is `x` or the old one. */
  lemma {:induction false} InsertSorted(x: Arrow, s: seq<Arrow>, key: Arrow -> int)
    requires SortedBy(s, key)
    ensures SortedBy(Insert(x, s, key), key)
    ensures Insert(x, s, key)[0] == x || (|s| > 0 && Insert(x, s, key)[0] == s[0])
    decreases |s|
  {
    if |s| > 0 && key(x) > key(s[0]) {
      var rest := Insert(x, s[1..], key);
      assert SortedBy(s[1..], key);
      InsertSorted(x, s[1..], key);
      var r := [s[0]] + rest;
      assert key(s[0]) <= key(rest[0]);
      forall i, j | 0 <= i < j < |r| ensures key(r[i]) <= key(r[j]) {
        if i == 0 {
          if j > 1 {
            assert key(rest[0]) <= key(rest[j - 1]);
          }
        } else {
          assert r[i] == rest[i - 1] && r[j] == rest[j - 1];
        }
      }
    }
  }

  /**
   * The `std::sort` calls on the arrow store, as an insertion sort by an
   * integer key: the result is a permutation in ascending key order. Arrows
   * with equal keys keep their relative order, one of the orders `std::sort`
   * may produce.
   */
  function SortBy(s: seq<Arrow>, key: Arrow -> int): (r: seq<Arrow>)
    ensures multiset(r) == multiset(s) && |r| == |s|
    ensures SortedBy(r, key)
    decreases |s|
  {
    if |s| == 0 then []
    else
      assert s == [s[0]] + s[1..];
      var rest := SortBy(s[1..], key);
      InsertSorted(s[0], rest, key);
      Insert(s[0], rest, key)
  }

  /** `fitsInScreen`: true when the arrow is longer than the offset span of the lines on screen. */
  predicate FitsInScreen(viewMin: u64, viewMax: u64, a: Arrow)
  {
    viewMax - viewMin < Length(a)
  }

  /** The comparator of the level pass: arrows with `fitsInScreen` false first, then by `max`, then by `min` descending. */
  predicate LevelBefore(viewMin: u64, viewMax: u64, l: Arrow, r: Arrow)
  {
    var ls := FitsInScreen(viewMin, viewMax, l);
    var rs := FitsInScreen(viewMin, viewMax, r);
    if ls != rs then !ls && rs
    else if l.max != r.max then l.max < r.max
    else l.min > r.min
  }

  const TWO_64: int := 0x1_0000_0000_0000_0000

  /** The level comparator as one integer key. */
  function LevelKey(viewMin: u64, viewMax: u64): Arrow -> int
  {
    a => (if FitsInScreen(viewMin, viewMax, a) then TWO_64 * TWO_64 else 0) + a.max * TWO_64 + (RVA_MAX - a.min)
  }

  /** Ordering by `LevelKey` is exactly the comparator's strict order. */
  lemma {:induction false} LevelKeyOrder(viewMin: u64, viewMax: u64, l: Arrow, r: Arrow)
    ensures LevelKey(viewMin, viewMax)(l) < LevelKey(viewMin, viewMax)(r) <==> LevelBefore(viewMin, viewMax, l, r)
  {
    var k := LevelKey(viewMin, viewMax);
    var ls := FitsInScreen(viewMin, viewMax, l);
    var rs := FitsInScreen(viewMin, viewMax, r);
    var lo := l.max * TWO_64 + (RVA_MAX - l.min);
    var ro := r.max * TWO_64 + (RVA_MAX - r.min);
    LexBound(l.max, l.min);
    LexBound(r.max, r.min);
    assert k(l) == (if ls then TWO_64 * TWO_64 else 0) + lo;
    assert k(r) == (if rs then TWO_64 * TWO_64 else 0) + ro;
    if l.max < r.max {
      LexOrder(l.max, l.min, r.max, r.min);
    } else if r.max < l.max {
      LexOrder(r.max, r.min, l.max, l.min);
    }
  }

  lemma {:induction false} LexBound(hi: u64, lo: u64)
    ensures 0 <= hi * TWO_64 + (RVA_MAX - lo) < TWO_64 * TWO_64
  {
    MulMonoLe(hi, TWO_64 - 1, TWO_64);
    MulNonneg(hi, TWO_64);
  }

  lemma {:induction false} LexOrder(h1: u64, l1: u64, h2: u64, l2: u64)
    requires h1 < h2
    ensures h1 * TWO_64 + (RVA_MAX - l1) < h2 * TWO_64 + (RVA_MAX - l2)
  {
    MulMonoLe(h1 + 1, h2, TWO_64);
    MulSucc(h1, TWO_64);
  }

  /** The key of the trimming sort: ascending `jmpFromOffset` after scrolling down, descending otherwise. */
  function EvictKey(scrolledDown: bool): Arrow -> int
  {
    if scrolledDown then a => JmpFrom(a) as int else a => -(JmpFrom(a) as int)
  }

  /**
   * The end of `paintEvent`: the store is emptied when the arrows needed more
   * levels than `maxLevelBeforeFlush`, and otherwise, when it holds more
   * than `arrowsSize` arrows, sorted for the direction of the last scroll and
   * cut down to its first `arrowsSize`.
   */
  function Evict(arrows: seq<Arrow>, maxLevel: int, maxLevelBeforeFlush: int, arrowsSize: nat, scrolledDown: bool): seq<Arrow>
  {
    var s := if maxLevel > maxLevelBeforeFlush then [] else arrows;
    if |s| > arrowsSize then SortBy(s, EvictKey(scrolledDown))[..arrowsSize] else s
  }

  /**
   * Trimming keeps `min(size, arrowsSize)` of the arrows (none after a
   * flush), leaves a store that already fits as it is, and the arrows kept
   * jump from no further in the scroll direction than the ones dropped:
   * after scrolling down the dropped ones start at or after every kept one,
   * otherwise at or before.
   */
  lemma {:induction false} EvictSpec(arrows: seq<Arrow>, maxLevel: int, maxLevelBeforeFlush: int, arrowsSize: nat, scrolledDown: bool)
    ensures var r := Evict(arrows, maxLevel, maxLevelBeforeFlush, arrowsSize, scrolledDown);
            && (maxLevel > maxLevelBeforeFlush ==> r == [])
            && (maxLevel <= maxLevelBeforeFlush ==> |r| == Min(|arrows|, arrowsSize))
            && (maxLevel <= maxLevelBeforeFlush && |arrows| <= arrowsSize ==> r == arrows)
            && multiset(r) <= multiset(arrows)
            && (forall a, b :: a in r && b in multiset(arrows) - multiset(r) ==>
                  if scrolledDown then JmpFrom(a) <= JmpFrom(b) else JmpFrom(a) >= JmpFrom(b))
  {
    var r := Evict(arrows, maxLevel, maxLevelBeforeFlush, arrowsSize, scrolledDown);
    if maxLevel <= maxLevelBeforeFlush && |arrows| > arrowsSize {
      var key := EvictKey(scrolledDown);
      var sorted := SortBy(arrows, key);
      assert r == sorted[..arrowsSize];
      assert sorted == r + sorted[arrowsSize..];
      assert multiset(sorted) == multiset(r) + multiset(sorted[arrowsSize..]);
      SortedSplit(sorted, arrowsSize, key);
      forall a, b | a in r && b in multiset(arrows) - multiset(r)
        ensures if scrolledDown then JmpFrom(a) <= JmpFrom(b) else JmpFrom(a) >= JmpFrom(b)
      {
        assert key(a) <= key(b);
      }
    }
  }

  /** In a sorted sequence every element of a prefix comes no later by key than every element after it. */
  lemma {:induction false} SortedSplit(sorted: seq<Arrow>, n: int, key: Arrow -> int)
    requires SortedBy(sorted, key) && 0 <= n <= |sorted|
    ensures forall a, b :: a in sorted[..n] && b in multiset(sorted[n..]) ==> key(a) <= key(b)
  {
    forall a, b | a in sorted[..n] && b in multiset(sorted[n..]) ensures key(a) <= key(b) {
      var i :| 0 <= i < n && sorted[..n][i] == a;
      assert b in sorted[n..];
      var j :| 0 <= j < |sorted| - n && sorted[n..][j] == b;
      assert sorted[i] == a && sorted[n + j] == b;
    }
  }

  /** A paint with lines leaves at most `arrowsSize` arrows stored. */
  lemma {:induction false} EvictBound(arrows: seq<Arrow>, maxLevel: int, maxLevelBeforeFlush: int, arrowsSize: nat, scrolledDown: bool)
    ensures |Evict(arrows, maxLevel, maxLevelBeforeFlush, arrowsSize, scrolledDown)| <= arrowsSize
  {
    EvictSpec(arrows, maxLevel, maxLevelBeforeFlush, arrowsSize, scrolledDown);
  }

  /** The index of the first arrow leaving `offset`, or `|arrows|`. */
  function FirstFrom(arrows: seq<Arrow>, offset: u64): (i: nat)
    ensures i <= |arrows|
    ensures forall j :: 0 <= j < i ==> JmpFrom(arrows[j]) != offset
    ensures i < |arrows| ==> JmpFrom(arrows[i]) == offset
    decreases |arrows|
  {
    if arrows == [] || JmpFrom(arrows[0]) == offset then 0
    else 1 + FirstFrom(arrows[1..], offset)
  }

  /**
   * `clearArrowFrom` on the store: the first arrow leaving `offset` is
   * erased, and nothing changes when no arrow leaves it.
   */
  function WithoutArrowFrom(arrows: seq<Arrow>, offset: u64): (r: seq<Arrow>)
    ensures (forall j :: 0 <= j < |arrows| ==> JmpFrom(arrows[j]) != offset) ==> r == arrows
    ensures (exists j :: 0 <= j < |arrows| && JmpFrom(arrows[j]) == offset) ==>
              |r| == |arrows| - 1 &&
              exists i :: 0 <= i < |arrows| && JmpFrom(arrows[i]) == offset
                          && (forall j :: 0 <= j < i ==> JmpFrom(arrows[j]) != offset)
                          && r == arrows[..i] + arrows[i + 1..]
  {
    var i := FirstFrom(arrows, offset);
    if i < |arrows| then arrows[..i] + arrows[i + 1..] else arrows
  }

  /** `std::find_if` on `jmpFromOffset`: the first arrow leaving `offset`, or `|arrows|`. */
  method FindFrom(arrows: seq<Arrow>, offset: u64) returns (i: int)
    ensures 0 <= i <= |arrows|
    ensures forall j :: 0 <= j < i ==> JmpFrom(arrows[j]) != offset
    ensures i < |arrows| ==> JmpFrom(arrows[i]) == offset
    ensures i == FirstFrom(arrows, offset)
  {
    i := 0;
    while i < |arrows| && JmpFrom(arrows[i]) != offset
      invariant 0 <= i <= |arrows|
      invariant forall j :: 0 <= j < i ==> JmpFrom(arrows[j]) != offset
    {
      i := i + 1;
    }
  }

  /** The left panel's arrow store, kept between paints. */
  class LeftPanel {
    var arrows: seq<Arrow>
    /** The first offset on screen at the previous paint. */
    var lastBeginOffset: u64
    /** How many arrows are kept after a paint (declared in the header). */
    const arrowsSize: nat
    /** The level above which the whole store is flushed (declared in the header). */
    const maxLevelBeforeFlush: int

    constructor(size: nat, flushLevel: int, begin: u64)
      ensures arrows == [] && arrowsSize == size && maxLevelBeforeFlush == flushLevel && lastBeginOffset == begin
    {
      arrows := [];
      arrowsSize := size;
      maxLevelBeforeFlush := flushLevel;
      lastBeginOffset := begin;
    }

    /**
     * The arrow bookkeeping of `paintEvent` for the lines on screen:
     * `maxLevel` is the deepest level the level assignment gave an arrow.
     * Nothing happens without lines; otherwise the line arrows are added,
     * the store is put in level order, then flushed or trimmed, and the first
     * offset on screen is remembered.
     */
    method Paint(lines: seq<DisassemblyLine>, maxLevel: int)
      modifies this
      ensures |lines| == 0 ==> arrows == old(arrows) && lastBeginOffset == old(lastBeginOffset)
      ensures |lines| > 0 ==>
                arrows == Evict(SortBy(AddArrows(old(arrows), lines), LevelKey(ViewMin(lines), ViewMax(lines))),
                                maxLevel, maxLevelBeforeFlush, arrowsSize, old(lastBeginOffset) > lines[0].offset)
                && lastBeginOffset == lines[0].offset
      ensures |lines| > 0 ==> |arrows| <= arrowsSize
    {
      if |lines| == 0 {
        return;
      }
      var stored, lo, hi := ScanLines(arrows, lines);
      stored := SortBy(stored, LevelKey(lo, hi));
      var scrolledDown := lastBeginOffset > lines[0].offset;
      arrows := Evict(stored, maxLevel, maxLevelBeforeFlush, arrowsSize, scrolledDown);
      EvictBound(stored, maxLevel, maxLevelBeforeFlush, arrowsSize, scrolledDown);
      lastBeginOffset := lines[0].offset;
    }

    /** `clearArrowFrom`: only the first arrow leaving `offset` is removed. */
    method ClearArrowFrom(offset: u64)
      modifies this
      ensures (forall j :: 0 <= j < |old(arrows)| ==> JmpFrom(old(arrows)[j]) != offset) ==> arrows == old(arrows)
      ensures (exists j :: 0 <= j < |old(arrows)| && JmpFrom(old(arrows)[j]) == offset) ==>
                exists i :: 0 <= i < |old(arrows)| && JmpFrom(old(arrows)[i]) == offset
                            && (forall j :: 0 <= j < i ==> JmpFrom(old(arrows)[j]) != offset)
                            && arrows == old(arrows)[..i] + old(arrows)[i + 1..]
      ensures arrows == WithoutArrowFrom(old(arrows), offset)
      ensures lastBeginOffset == old(lastBeginOffset)
    {
      var i := FindFrom(arrows, offset);
      if i < |arrows| {
        arrows := arrows[..i] + arrows[i + 1..];
      }
    }
  }

  /** The line loop of `paintEvent`: the arrows with the line arrows added, and the offset span on screen. */
  method ScanLines(arrows: seq<Arrow>, lines: seq<DisassemblyLine>) returns (stored: seq<Arrow>, lo: u64, hi: u64)
    requires |lines| > 0
    ensures stored == AddArrows(arrows, lines) && lo == ViewMin(lines) && hi == ViewMax(lines)
  {
    stored := arrows;
    lo := lines[0].offset;
    hi := lines[0].offset;
    for i := 0 to |lines|
      invariant stored == AddArrows(arrows, lines[..i])
      invariant i > 0 ==> lo == ViewMin(lines[..i]) && hi == ViewMax(lines[..i])
      invariant i == 0 ==> lo == lines[0].offset && hi == lines[0].offset
    {
      assert lines[..i + 1][..i] == lines[..i];
      assert lines[..i + 1][i] == lines[i];
      if lines[i].offset < lo {
        lo := lines[i].offset;
      }
      if lines[i].offset > hi {
        hi := lines[i].offset;
      }
      if LineArrow(lines[i]) {
        var a := MakeArrow(lines[i].offset, lines[i].arrow);
        var found := FindSpan(stored, a);
        if !found {
          stored := stored + [a];
        }
      }
    }
    assert lines[..|lines|] == lines;
  }

  /** The `std::find_if` of the dedupe: whether an arrow with the span of `a` is stored. */
  method FindSpan(s: seq<Arrow>, a: Arrow) returns (found: bool)
    ensures found <==> HasSpan(s, a)
  {
    var i := 0;
    while i < |s| && !SameSpan(s[i], a)
      invariant 0 <= i <= |s|
      invariant forall j :: 0 <= j < i ==> !SameSpan(s[j], a)
    {
      i := i + 1;
    }
    found := i < |s|;
  }

  // ------------------------------------------------------------ the view

  class DisassemblyView {
    var topOffset: u64
    var bottomOffset: u64
    var maxLines: int
    var lines: seq<DisassemblyLine>
    var document: seq<L.TextBlock>
    var cursorLineOffset: int
    var cursorCharOffset: int
    var seekFromCursor: bool
    var topOffsetHistory: seq<u64>
    var topOffsetHistoryPos: int
    const leftPanel: LeftPanel

    function Text(): L.TextState
      reads this
    {
      L.TextState(topOffset, bottomOffset, lines, document)
    }

    function HistoryState(): History
      reads this
    {
      History(topOffsetHistory, topOffsetHistoryPos)
    }

    constructor(panel: LeftPanel)
      ensures Text() == L.TextState(RVA_INVALID, RVA_INVALID, [], L.EmptyDocument)
      ensures cursorLineOffset == 0 && cursorCharOffset == 0 && !seekFromCursor && maxLines == 0
      ensures HistoryState() == History([], 0) && leftPanel == panel
    {
      topOffset, bottomOffset := RVA_INVALID, RVA_INVALID;
      cursorLineOffset, cursorCharOffset := 0, 0;
      seekFromCursor := false;
      maxLines := 0;
      lines := [];
      document := L.EmptyDocument;
      topOffsetHistory := [];
      topOffsetHistoryPos := 0;
      leftPanel := panel;
    }

    /** `refreshDisasm`, proved against the shared `Refresh`. */
    method RefreshDisasm(offset: u64, allowed: bool, fetched: seq<DisassemblyLine>)
      modifies this
      ensures Text() == L.Refresh(old(Text()), maxLines, offset, allowed, fetched)
      ensures maxLines == old(maxLines) && seekFromCursor == old(seekFromCursor)
      ensures cursorLineOffset == old(cursorLineOffset) && cursorCharOffset == old(cursorCharOffset)
      ensures HistoryState() == old(HistoryState())
    {
      if !allowed {
        return;
      }
      if offset != RVA_INVALID {
        topOffset := offset;
      }
      if topOffset == RVA_INVALID {
        return;
      }
      if maxLines <= 0 {
        document := L.EmptyDocument;
        return;
      }
      var top := topOffset;
      var doc := L.RenderLines(fetched, top, maxLines);
      lines := fetched;
      document := doc;
      bottomOffset := L.BottomOffset(top, fetched, maxLines);
    }

    /**
     * `scrollInstructions(count)`; `answer` is the core's next or previous
     * instruction address. The clamped target is also written over the
     * current history entry.
     */
    method ScrollInstructions(count: int, answer: u64, allowed: bool, fetched: seq<DisassemblyLine>)
      requires 0 <= topOffsetHistoryPos < |topOffsetHistory|
      modifies this
      ensures count == 0 ==> Text() == old(Text()) && HistoryState() == old(HistoryState())
      ensures count != 0 ==>
                var target := L.ScrollTarget(old(topOffset), count, answer);
                && Text() == L.Refresh(old(Text()), maxLines, target, allowed, fetched)
                && HistoryState() == History(old(topOffsetHistory)[old(topOffsetHistoryPos) := target], old(topOffsetHistoryPos))
      ensures maxLines == old(maxLines) && seekFromCursor == old(seekFromCursor)
      ensures cursorLineOffset == old(cursorLineOffset) && cursorCharOffset == old(cursorCharOffset)
    {
      if count == 0 {
        return;
      }
      var offset := L.ScrollTarget(topOffset, count, answer);
      RefreshDisasm(offset, allowed, fetched);
      topOffsetHistory := topOffsetHistory[topOffsetHistoryPos := offset];
    }

    /** `refreshIfInRange`: refresh in place only when the offset is on screen. */
    method RefreshIfInRange(offset: u64, allowed: bool, fetched: seq<DisassemblyLine>)
      modifies this
      ensures L.InView(old(topOffset), old(bottomOffset), offset) ==> Text() == L.Refresh(old(Text()), maxLines, RVA_INVALID, allowed, fetched)
      ensures !L.InView(old(topOffset), old(bottomOffset), offset) ==> Text() == old(Text())
      ensures maxLines == old(maxLines) && seekFromCursor == old(seekFromCursor) && HistoryState() == old(HistoryState())
      ensures cursorLineOffset == old(cursorLineOffset) && cursorCharOffset == old(cursorCharOffset)
    {
      if offset >= topOffset && offset <= bottomOffset {
        RefreshDisasm(RVA_INVALID, allowed, fetched);
      }
    }

    /** `instructionChanged`: forget the arrow leaving `offset`, then refresh in place. */
    method InstructionChanged(offset: u64, allowed: bool, fetched: seq<DisassemblyLine>)
      modifies this, leftPanel
      ensures Text() == L.Refresh(old(Text()), maxLines, RVA_INVALID, allowed, fetched)
      ensures leftPanel.arrows == WithoutArrowFrom(old(leftPanel.arrows), offset)
      ensures leftPanel.lastBeginOffset == old(leftPanel.lastBeginOffset)
      ensures maxLines == old(maxLines) && seekFromCursor == old(seekFromCursor) && HistoryState() == old(HistoryState())
      ensures cursorLineOffset == old(cursorLineOffset) && cursorCharOffset == old(cursorCharOffset)
    {
      leftPanel.ClearArrowFrom(offset);
      RefreshDisasm(RVA_INVALID, allowed, fetched);
    }

    /**
     * `on_seekChanged`: the history takes its step; the cursor offsets are
     * reset unless the seek came from the cursor; a new seek to an offset on
     * screen only moves the cursor and records the top offset in the current
     * entry, and every other seek refreshes at the current entry.
     */
    method OnSeekChanged(offset: u64, kind: SeekHistoryType, allowed: bool, fetched: seq<DisassemblyLine>)
      requires CanMove(HistoryState(), kind)
      modifies this
      ensures var h := Step(old(HistoryState()), offset, kind);
              var visible := old(topOffset) != RVA_INVALID && L.InView(old(topOffset), old(bottomOffset), offset) && kind == New;
              && (visible ==> Text() == old(Text()) && HistoryState() == History(h.offsets[h.pos := old(topOffset)], h.pos))
              && (!visible ==> Text() == L.Refresh(old(Text()), maxLines, h.offsets[h.pos], allowed, fetched) && HistoryState() == h)
      ensures ValidHistory(HistoryState())
      ensures !old(seekFromCursor) ==> cursorLineOffset == 0 && cursorCharOffset == 0
      ensures old(seekFromCursor) ==> cursorLineOffset == old(cursorLineOffset) && cursorCharOffset == old(cursorCharOffset)
      ensures maxLines == old(maxLines) && seekFromCursor == old(seekFromCursor)
    {
      var h := Step(HistoryState(), offset, kind);
      topOffsetHistory, topOffsetHistoryPos := h.offsets, h.pos;
      if !seekFromCursor {
        cursorLineOffset := 0;
        cursorCharOffset := 0;
      }
      if topOffset != RVA_INVALID && offset >= topOffset && offset <= bottomOffset && kind == New {
        topOffsetHistory := topOffsetHistory[topOffsetHistoryPos := topOffset];
      } else {
        RefreshDisasm(topOffsetHistory[topOffsetHistoryPos], allowed, fetched);
      }
    }

    /** `updateMaxLines`: a new line count is stored and triggers a refresh in place. */
    method UpdateMaxLines(current: int, allowed: bool, fetched: seq<DisassemblyLine>) returns (changed: bool)
      modifies this
      ensures changed <==> current != old(maxLines)
      ensures maxLines == current
      ensures changed ==> Text() == L.Refresh(old(Text()), current, RVA_INVALID, allowed, fetched)
      ensures !changed ==> Text() == old(Text())
      ensures seekFromCursor == old(seekFromCursor) && HistoryState() == old(HistoryState())
      ensures cursorLineOffset == old(cursorLineOffset) && cursorCharOffset == old(cursorCharOffset)
    {
      if current != maxLines {
        maxLines := current;
        RefreshDisasm(RVA_INVALID, allowed, fetched);
        return true;
      }
      return false;
    }
  }
}
