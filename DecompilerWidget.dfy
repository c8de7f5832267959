/**
 * The annotation lookups of the decompiler view (src/widgets/DecompilerWidget.cpp):
 * turning the UTF-8 byte ranges of the annotations into character ranges,
 * finding the annotation under the cursor and the position of an address,
 * collecting the breakpoints of the current line, and the address range the
 * decompiled code covers.
 *
 * The breakpoints of the function come from the core and are a parameter;
 * the text editor is left out, so the cursor line is given as its start and
 * end positions.
 */
module DecompilerWidget {
  import opened Common

  /** `size_t`, and `SIZE_MAX`, the "no position" answer. */
  type usize = u64
  const SIZE_MAX: usize := 0xFFFF_FFFF_FFFF_FFFF
  const UT64_MAX: u64 := 0xFFFF_FFFF_FFFF_FFFF

  /**
   * `RzCodeAnnotation`: a range `[start, end)` of the code. Only the offset
   * annotations and the global-variable references carry an address this
   * view consults; the other kinds are `Other`.
   */
  datatype AnnotationKind = Offset(offset: u64) | GlobalVariable(reference: u64) | Other
  datatype Annotation = Annotation(start: usize, end: usize, kind: AnnotationKind)

  // ---------------------------------------------------------------- UTF-8 byte positions to characters

  /** A byte `c` with `(c & 0xc0) == 0x80`: a continuation byte of a UTF-8 sequence. */
  predicate IsContinuation(b: u8) {
    0x80 <= b < 0xC0
  }

  /** The length of the NUL-terminated string the bytes hold. */
  function CStrLen(bytes: seq<u8>): (n: nat)
    ensures n <= |bytes| && (n < |bytes| ==> bytes[n] == 0)
    ensures forall i :: 0 <= i < n ==> bytes[i] != 0
  {
    if bytes == [] || bytes[0] == 0 then 0 else 1 + CStrLen(bytes[1..])
  }

  /** The byte offsets, below `n`, at which a character starts, in increasing order. */
  function LeadOffsets(bytes: seq<u8>, n: nat): (offsets: seq<nat>)
    requires n <= |bytes|
    ensures |offsets| <= n
    ensures forall i :: 0 <= i < |offsets| ==> offsets[i] < n && !IsContinuation(bytes[offsets[i]])
    ensures forall i, j :: 0 <= i < j < |offsets| ==> offsets[i] < offsets[j]
    ensures forall p :: 0 <= p < n && !IsContinuation(bytes[p]) ==> p in offsets
  {
    if n == 0 then []
    else LeadOffsets(bytes, n - 1) + (if IsContinuation(bytes[n - 1]) then [] else [n - 1])
  }

  /** `std::upper_bound`: the index of the first offset above `pos`, or the length. */
  function UpperBound(offsets: seq<nat>, pos: nat): (i: nat)
    ensures i <= |offsets|
    ensures forall j :: 0 <= j < i ==> offsets[j] <= pos
    ensures i < |offsets| ==> offsets[i] > pos
  {
    if offsets == [] || offsets[0] > pos then 0 else 1 + UpperBound(offsets[1..], pos)
  }

  /** The character index for byte position `pos`: the last character starting at or before it, else 0. */
  function MapPos(offsets: seq<nat>, pos: nat): nat
  {
    var it := UpperBound(offsets, pos);
    if it != 0 then it - 1 else 0
  }

  predicate StrictlyIncreasing(offsets: seq<nat>) {
    forall i, j :: 0 <= i < j < |offsets| ==> offsets[i] < offsets[j]
  }

  /** A later byte position never maps to an earlier character. */
  lemma {:induction false} MapPosMonotone(offsets: seq<nat>, x: nat, y: nat)
    requires StrictlyIncreasing(offsets) && x <= y
    ensures MapPos(offsets, x) <= MapPos(offsets, y)
  {
    var ix, iy := UpperBound(offsets, x), UpperBound(offsets, y);
  }

  /** The byte a character starts at maps to that character's own index. */
  lemma {:induction false} MapPosOfLead(offsets: seq<nat>, j: nat)
    requires StrictlyIncreasing(offsets) && j < |offsets|
    ensures MapPos(offsets, offsets[j]) == j
  {
    var it := UpperBound(offsets, offsets[j]);
    assert j + 1 < |offsets| ==> offsets[j] < offsets[j + 1];
    if it <= j {
      assert false;
    }
  }

  /** A byte at or after the first character maps to the character containing it. */
  lemma {:induction false} MapPosContaining(offsets: seq<nat>, pos: nat)
    requires |offsets| > 0 && offsets[0] <= pos
    ensures MapPos(offsets, pos) < |offsets| && offsets[MapPos(offsets, pos)] <= pos
    ensures MapPos(offsets, pos) + 1 < |offsets| ==> pos < offsets[MapPos(offsets, pos) + 1]
  {
  }

  /** Every annotation with both ends mapped. */
  function Remapped(annotations: seq<Annotation>, offsets: seq<nat>): (r: seq<Annotation>)
    requires |offsets| < U64_MODULUS
    ensures |r| == |annotations|
    ensures forall k :: 0 <= k < |r| ==> r[k].kind == annotations[k].kind
  {
    if annotations == [] then []
    else
      var a := annotations[|annotations| - 1];
      var s, e := MapPos(offsets, a.start), MapPos(offsets, a.end);
      assert s < U64_MODULUS && e < U64_MODULUS;
      Remapped(annotations[..|annotations| - 1], offsets) + [Annotation(s, e, a.kind)]
  }

  lemma {:induction false} RemappedAt(annotations: seq<Annotation>, offsets: seq<nat>, k: nat)
    requires |offsets| < U64_MODULUS && k < |annotations|
    ensures Remapped(annotations, offsets)[k]
            == Annotation(MapPos(offsets, annotations[k].start), MapPos(offsets, annotations[k].end), annotations[k].kind)
    decreases |annotations|
  {
    if k < |annotations| - 1 {
      RemappedAt(annotations[..|annotations| - 1], offsets, k);
    }
  }

  /** Remapping keeps every well-formed range well formed. */
  lemma {:induction false} RemappedKeepsOrder(annotations: seq<Annotation>, offsets: seq<nat>, k: nat)
    requires |offsets| < U64_MODULUS && StrictlyIncreasing(offsets) && k < |annotations|
    requires annotations[k].start <= annotations[k].end
    ensures Remapped(annotations, offsets)[k].start <= Remapped(annotations, offsets)[k].end
  {
    RemappedAt(annotations, offsets, k);
    MapPosMonotone(offsets, annotations[k].start, annotations[k].end);
  }

  // ---------------------------------------------------------------- nearest-annotation lookups

  /** Annotation `a` is of the wanted kind (offset or global variable) and covers `pos`. */
  predicate Covers(a: Annotation, pos: usize, wantOffset: bool) {
    (if wantOffset then a.kind.Offset? else a.kind.GlobalVariable?) && a.start <= pos < a.end
  }

  /** The address an offset or global-variable annotation carries. */
  function Address(a: Annotation): u64 {
    match a.kind
    case Offset(o) => o
    case GlobalVariable(r) => r
    case Other => 0
  }

  /** Among the first `n` annotations, `k` covers `pos` with the greatest start, and is the first with it. */
  ghost predicate ClosestIn(annotations: seq<Annotation>, n: nat, pos: usize, wantOffset: bool, k: nat)
    requires n <= |annotations|
  {
    k < n && Covers(annotations[k], pos, wantOffset)
    && (forall j :: 0 <= j < n && Covers(annotations[j], pos, wantOffset) ==> annotations[j].start <= annotations[k].start)
    && (forall j :: 0 <= j < k && Covers(annotations[j], pos, wantOffset) ==> annotations[j].start < annotations[k].start)
  }

  /** The answer of a lookup: the address of the closest covering annotation, or the default when none covers. */
  ghost predicate LookupResult(annotations: seq<Annotation>, pos: usize, wantOffset: bool, default: u64, r: u64) {
    ((forall j :: 0 <= j < |annotations| ==> !Covers(annotations[j], pos, wantOffset)) && r == default)
    || (exists k: nat :: ClosestIn(annotations, |annotations|, pos, wantOffset, k) && r == Address(annotations[k]))
  }

  /** The closest covering annotation is unique, so a lookup has one answer. */
  lemma {:induction false} ClosestUnique(annotations: seq<Annotation>, pos: usize, wantOffset: bool, k1: nat, k2: nat)
    requires ClosestIn(annotations, |annotations|, pos, wantOffset, k1)
    requires ClosestIn(annotations, |annotations|, pos, wantOffset, k2)
    ensures k1 == k2
  {
  }

  // ---------------------------------------------------------------- position of an address

  /** An offset annotation at or below `target`. */
  predicate Candidate(a: Annotation, target: u64) {
    a.kind.Offset? && a.kind.offset <= target
  }

  /**
   * The pair (closestPos, closestOffset) after `positionForOffset` has looked
   * at the annotations: a candidate replaces the current one unless one was
   * already found (`closestOffset` is not the `UT64_MAX` it starts at) with an
   * offset at least as large.
   */
  function PositionState(annotations: seq<Annotation>, target: u64): (st: (usize, u64))
  {
    if annotations == [] then (SIZE_MAX, UT64_MAX)
    else
      var st := PositionState(annotations[..|annotations| - 1], target);
      var a := annotations[|annotations| - 1];
      if !Candidate(a, target) then st
      else if st.1 != UT64_MAX && st.1 >= a.kind.offset then st
      else (a.start, a.kind.offset)
  }

  /** `positionForOffset`, as a function of the annotations. */
  function PositionFor(annotations: seq<Annotation>, target: u64): usize {
    PositionState(annotations, target).0
  }

  /** Among the first `n` annotations, `k` is a candidate with the greatest offset, and is the first with it. */
  ghost predicate BestCandidate(annotations: seq<Annotation>, n: nat, target: u64, k: nat)
    requires n <= |annotations|
  {
    k < n && Candidate(annotations[k], target)
    && (forall j :: 0 <= j < n && Candidate(annotations[j], target) ==> annotations[j].kind.offset <= annotations[k].kind.offset)
    && (forall j :: 0 <= j < k && Candidate(annotations[j], target) ==> annotations[j].kind.offset < annotations[k].kind.offset)
  }

  /**
   * Without a candidate the answer is `SIZE_MAX`; with one it is the start of
   * a candidate, and below `UT64_MAX` it is the start of the first candidate
   * with the greatest offset.
   */
  lemma {:induction false} PositionForBest(annotations: seq<Annotation>, target: u64)
    ensures (forall j :: 0 <= j < |annotations| ==> !Candidate(annotations[j], target))
            ==> PositionState(annotations, target) == (SIZE_MAX, UT64_MAX)
    ensures (exists j :: 0 <= j < |annotations| && Candidate(annotations[j], target))
            ==> exists k :: 0 <= k < |annotations| && Candidate(annotations[k], target)
                  && PositionState(annotations, target) == (annotations[k].start, annotations[k].kind.offset)
                  && (target < UT64_MAX ==> BestCandidate(annotations, |annotations|, target, k))
    decreases |annotations|
  {
    if annotations != [] {
      var init := annotations[..|annotations| - 1];
      var n := |init|;
      var a := annotations[n];
      PositionForBest(init, target);
      if exists j :: 0 <= j < n && Candidate(init[j], target) {
        var k :| 0 <= k < n && Candidate(init[k], target)
                 && PositionState(init, target) == (init[k].start, init[k].kind.offset)
                 && (target < UT64_MAX ==> BestCandidate(init, n, target, k));
        if Candidate(a, target) && !(init[k].kind.offset != UT64_MAX && init[k].kind.offset >= a.kind.offset) {
          if target < UT64_MAX {
            forall j | 0 <= j < n && Candidate(annotations[j], target)
              ensures annotations[j].kind.offset < a.kind.offset
            {
              assert init[j] == annotations[j];
            }
            assert BestCandidate(annotations, |annotations|, target, n);
          }
        } else {
          assert annotations[k] == init[k];
          if target < UT64_MAX {
            assert BestCandidate(annotations, |annotations|, target, k) by {
              forall j | 0 <= j < k ensures init[j] == annotations[j] { }
              forall j | 0 <= j < |annotations| && Candidate(annotations[j], target)
                ensures annotations[j].kind.offset <= annotations[k].kind.offset
              {
                if j < n {
                  assert init[j] == annotations[j];
                }
              }
            }
          }
        }
      } else {
        forall j | 0 <= j < n ensures !Candidate(annotations[j], target) {
          assert init[j] == annotations[j];
        }
        if Candidate(a, target) {
          assert BestCandidate(annotations, |annotations|, target, n);
        }
      }
    }
  }

  // ---------------------------------------------------------------- sorting the line's breakpoints

  predicate SortedAscending(s: seq<u64>) {
    forall i, j :: 0 <= i < j < |s| ==> s[i] <= s[j]
  }

  lemma {:induction false} ConsSorted(h: u64, s: seq<u64>)
    requires SortedAscending(s) && (|s| > 0 ==> h <= s[0])
    ensures SortedAscending([h] + s)
  {
    forall i, j | 0 <= i < j < |s| + 1 ensures ([h] + s)[i] <= ([h] + s)[j] {
      if i > 0 {
        assert ([h] + s)[i] == s[i - 1];
      } else {
        assert s[0] <= s[j - 1];
      }
    }
  }

  lemma TailSorted(s: seq<u64>)
    requires SortedAscending(s) && s != []
    ensures SortedAscending(s[1..])
  {
    forall i, j | 0 <= i < j < |s| - 1 ensures s[1..][i] <= s[1..][j] {
      assert s[1..][i] == s[i + 1] && s[1..][j] == s[j + 1];
    }
  }

  /** Putting the head of `s` before the insertion into its tail keeps it sorted and adds just `x`. */
  lemma InsertBehind(x: u64, s: seq<u64>, rest: seq<u64>)
    requires SortedAscending(s) && s != [] && s[0] < x
    requires SortedAscending(rest) && multiset(rest) == multiset(s[1..]) + multiset{x}
    requires |rest| > 0 && (rest[0] == x || (|s| > 1 && rest[0] == s[1]))
    ensures SortedAscending([s[0]] + rest) && multiset([s[0]] + rest) == multiset(s) + multiset{x}
  {
    assert |s| > 1 ==> s[0] <= s[1];
    ConsSorted(s[0], rest);
    assert s == [s[0]] + s[1..];
  }

  function Insert(x: u64, s: seq<u64>): (r: seq<u64>)
    requires SortedAscending(s)
    ensures SortedAscending(r) && multiset(r) == multiset(s) + multiset{x}
    ensures |r| > 0 && (r[0] == x || (|s| > 0 && r[0] == s[0]))
  {
    if s == [] then [x]
    else if x <= s[0] then
      ConsSorted(x, s);
      [x] + s
    else
      TailSorted(s);
      var rest := Insert(x, s[1..]);
      InsertBehind(x, s, rest);
      [s[0]] + rest
  }

  /** `std::sort` on the list of breakpoint addresses: the same addresses, ascending. */
  function SortAscending(s: seq<u64>): (r: seq<u64>)
    ensures SortedAscending(r) && multiset(r) == multiset(s)
  {
    if s == [] then []
    else
      assert s == s[..|s| - 1] + [s[|s| - 1]];
      Insert(s[|s| - 1], SortAscending(s[..|s| - 1]))
  }

  // ---------------------------------------------------------------- the view

  /** The breakpoints, in their order, whose position in the code lies in `[startPos, endPos]`. */
  function BreakpointsOnLine(annotations: seq<Annotation>, breakpoints: seq<u64>, startPos: usize, endPos: usize): seq<u64>
  {
    Filter(breakpoints, (bp: u64) => startPos <= PositionFor(annotations, bp) <= endPos)
  }

  /** An offset annotation that starts in `[startPos, endPos)` or ends in `(startPos, endPos)`. */
  predicate OnLine(a: Annotation, startPos: usize, endPos: usize) {
    a.kind.Offset? && ((startPos <= a.start < endPos) || (startPos < a.end < endPos))
  }

  /** The first offset of the line: the least offset of an annotation on it, `RVA_MAX` without one. */
  ghost predicate FirstOffsetOfLine(annotations: seq<Annotation>, n: nat, startPos: usize, endPos: usize, first: u64)
    requires n <= |annotations|
  {
    (forall j :: 0 <= j < n && OnLine(annotations[j], startPos, endPos) ==> first <= annotations[j].kind.offset)
    && (first == RVA_MAX || exists j :: 0 <= j < n && OnLine(annotations[j], startPos, endPos) && first == annotations[j].kind.offset)
  }

  /** The least and the greatest address of the offset annotations among the first `n`. */
  ghost predicate OffsetBounds(annotations: seq<Annotation>, n: nat, lowest: u64, highest: u64)
    requires n <= |annotations|
  {
    (forall j :: 0 <= j < n && annotations[j].kind.Offset? ==> lowest <= annotations[j].kind.offset <= highest)
    && (lowest == RVA_MAX || exists j :: 0 <= j < n && annotations[j].kind.Offset? && lowest == annotations[j].kind.offset)
    && (highest == 0 || exists j :: 0 <= j < n && annotations[j].kind.Offset? && highest == annotations[j].kind.offset)
  }

  /** The decompiler view's state for one decompiled function. */
  class DecompilerView {
    /** `code->code` as bytes, and `code->annotations`. */
    var codeBytes: seq<u8>
    var annotations: seq<Annotation>
    /** State of the context menu the view fills in. */
    var firstOffsetInLine: u64
    var availableBreakpoints: seq<u64>
    var lowestOffsetInCode: u64
    var highestOffsetInCode: u64

    constructor (codeBytes: seq<u8>, annotations: seq<Annotation>)
      ensures this.codeBytes == codeBytes && this.annotations == annotations
      ensures firstOffsetInLine == RVA_MAX && availableBreakpoints == []
      ensures lowestOffsetInCode == RVA_MAX && highestOffsetInCode == 0
    {
      this.codeBytes, this.annotations := codeBytes, annotations;
      firstOffsetInLine, availableBreakpoints := RVA_MAX, [];
      lowestOffsetInCode, highestOffsetInCode := RVA_MAX, 0;
    }

    /** The offsets of the bytes that start a character, up to the terminating NUL. */
    static method CharacterStarts(bytes: seq<u8>) returns (offsets: seq<nat>)
      ensures offsets == LeadOffsets(bytes, CStrLen(bytes))
    {
      offsets := [];
      var off := 0;
      while off < |bytes| && bytes[off] != 0
        invariant off <= CStrLen(bytes) && offsets == LeadOffsets(bytes, off)
      {
        if !(0x80 <= bytes[off] < 0xC0) {
          offsets := offsets + [off];
        }
        off := off + 1;
      }
    }

    /**
     * `remapAnnotationOffsetsToQString`: collects the offsets of the bytes
     * that start a character, up to the terminating NUL, and replaces both
     * ends of every annotation by the index of the character containing them.
     */
    method RemapAnnotationOffsets()
      requires |codeBytes| < U64_MODULUS
      modifies this
      ensures codeBytes == old(codeBytes)
      ensures annotations == Remapped(old(annotations), LeadOffsets(codeBytes, CStrLen(codeBytes)))
      ensures firstOffsetInLine == old(firstOffsetInLine)
      ensures availableBreakpoints == old(availableBreakpoints)
      ensures lowestOffsetInCode == old(lowestOffsetInCode) && highestOffsetInCode == old(highestOffsetInCode)
    {
      var offsets := CharacterStarts(codeBytes);
      annotations := RemapEach(annotations, offsets);
    }

    /** The loop over the annotations, replacing both ends of each by their character index. */
    static method RemapEach(annotations: seq<Annotation>, offsets: seq<nat>) returns (anns: seq<Annotation>)
      requires |offsets| < U64_MODULUS
      ensures anns == Remapped(annotations, offsets)
    {
      anns := annotations;
      ghost var target := Remapped(annotations, offsets);
      var i := 0;
      while i < |anns|
        invariant i <= |anns| == |target|
        invariant forall k :: 0 <= k < i ==> anns[k] == target[k]
        invariant forall k :: i <= k < |anns| ==> anns[k] == annotations[k]
      {
        var a := anns[i];
        RemappedAt(annotations, offsets, i);
        anns := anns[i := Annotation(MapPos(offsets, a.start), MapPos(offsets, a.end), a.kind)];
        i := i + 1;
      }
      assert anns == target;
    }

    /**
     * The loop shared by `offsetForPosition` and `findReference`: the address
     * of the covering annotation of the wanted kind with the greatest start.
     */
    method ClosestCovering(pos: usize, wantOffset: bool, default: u64) returns (r: u64)
      ensures LookupResult(annotations, pos, wantOffset, default, r)
    {
      var closestPos := SIZE_MAX;
      r := default;
      ghost var best: int := -1;
      var i := 0;
      while i < |annotations|
        invariant i <= |annotations| && -1 <= best < i
        invariant best == -1 ==> closestPos == SIZE_MAX && r == default
                                 && forall j :: 0 <= j < i ==> !Covers(annotations[j], pos, wantOffset)
        invariant best >= 0 ==> ClosestIn(annotations, i, pos, wantOffset, best)
                                && closestPos == annotations[best].start && r == Address(annotations[best])
      {
        var a := annotations[i];
        var wanted := if wantOffset then a.kind.Offset? else a.kind.GlobalVariable?;
        if !wanted || a.start > pos || a.end <= pos {
        } else if closestPos != SIZE_MAX && closestPos >= a.start {
        } else {
          closestPos := a.start;
          r := Address(a);
          best := i;
        }
        i := i + 1;
      }
      if best >= 0 {
        assert ClosestIn(annotations, |annotations|, pos, wantOffset, best);
      }
    }

    /** `offsetForPosition`: the closest covering offset annotation's address, else the line's first offset. */
    method OffsetForPosition(pos: usize) returns (r: u64)
      ensures LookupResult(annotations, pos, true, firstOffsetInLine, r)
    {
      r := ClosestCovering(pos, true, firstOffsetInLine);
    }

    /** `findReference`: the closest covering global variable's address, else `RVA_INVALID`. */
    method FindReference(pos: usize) returns (r: u64)
      ensures LookupResult(annotations, pos, false, RVA_INVALID, r)
    {
      r := ClosestCovering(pos, false, RVA_INVALID);
    }

    /** `positionForOffset`: the start of the offset annotation closest below `target`, `SIZE_MAX` without one. */
    method PositionForOffset(target: u64) returns (r: usize)
      ensures r == PositionFor(annotations, target)
    {
      var closestPos := SIZE_MAX;
      var closestOffset := UT64_MAX;
      var i := 0;
      while i < |annotations|
        invariant i <= |annotations| && (closestPos, closestOffset) == PositionState(annotations[..i], target)
      {
        assert annotations[..i + 1][..i] == annotations[..i];
        var a := annotations[i];
        if !a.kind.Offset? || a.kind.offset > target {
        } else if closestOffset != UT64_MAX && closestOffset >= a.kind.offset {
        } else {
          closestPos, closestOffset := a.start, a.kind.offset;
        }
        i := i + 1;
      }
      assert annotations[..i] == annotations;
      r := closestPos;
    }

    /**
     * `gatherBreakpointInfo`: records the least offset of the line's
     * annotations as its first offset, and offers, sorted, the function's
     * breakpoints whose position lies on the line.
     */
    method GatherBreakpointInfo(startPos: usize, endPos: usize, functionBreakpoints: seq<u64>)
      modifies this
      ensures FirstOffsetOfLine(annotations, |annotations|, startPos, endPos, firstOffsetInLine)
      ensures availableBreakpoints == SortAscending(BreakpointsOnLine(annotations, functionBreakpoints, startPos, endPos))
      ensures annotations == old(annotations) && codeBytes == old(codeBytes)
      ensures lowestOffsetInCode == old(lowestOffsetInCode) && highestOffsetInCode == old(highestOffsetInCode)
    {
      var firstOffset: u64 := RVA_MAX;
      var i := 0;
      while i < |annotations|
        invariant i <= |annotations| && FirstOffsetOfLine(annotations, i, startPos, endPos, firstOffset)
      {
        var a := annotations[i];
        if a.kind.Offset? {
          if (startPos <= a.start && a.start < endPos) || (startPos < a.end && a.end < endPos) {
            firstOffset := if a.kind.offset < firstOffset then a.kind.offset else firstOffset;
          }
        }
        i := i + 1;
      }
      firstOffsetInLine := firstOffset;
      var offsetList: seq<u64> := [];
      var b := 0;
      while b < |functionBreakpoints|
        invariant b <= |functionBreakpoints| && offsetList == BreakpointsOnLine(annotations, functionBreakpoints[..b], startPos, endPos)
        invariant FirstOffsetOfLine(annotations, |annotations|, startPos, endPos, firstOffsetInLine)
        invariant annotations == old(annotations) && codeBytes == old(codeBytes)
        invariant lowestOffsetInCode == old(lowestOffsetInCode) && highestOffsetInCode == old(highestOffsetInCode)
      {
        assert functionBreakpoints[..b + 1][..b] == functionBreakpoints[..b];
        var bpOffset := functionBreakpoints[b];
        var pos := PositionForOffset(bpOffset);
        if startPos <= pos && pos <= endPos {
          offsetList := offsetList + [bpOffset];
        }
        b := b + 1;
      }
      assert functionBreakpoints[..b] == functionBreakpoints;
      availableBreakpoints := SortAscending(offsetList);
    }

    /** `addressInRange`. */
    predicate AddressInRange(addr: u64)
      reads this
    {
      lowestOffsetInCode <= addr <= highestOffsetInCode
    }

    /** The view holds `bytes` as its code, with `anns` remapped to character indices of its text. */
    ghost predicate Showing(bytes: seq<u8>, anns: seq<Annotation>)
      requires |bytes| < U64_MODULUS
      reads this`codeBytes, this`annotations
    {
      codeBytes == bytes && annotations == Remapped(anns, LeadOffsets(bytes, CStrLen(bytes)))
    }

    /**
     * `setCode`: takes ownership of the new code and remaps its annotations
     * to character indices of the text shown; the range bounds and the
     * context menu state are left as they were.
     */
    method SetCode(bytes: seq<u8>, anns: seq<Annotation>)
      requires |bytes| < U64_MODULUS
      modifies this
      ensures Showing(bytes, anns)
      ensures firstOffsetInLine == old(firstOffsetInLine) && availableBreakpoints == old(availableBreakpoints)
      ensures lowestOffsetInCode == old(lowestOffsetInCode) && highestOffsetInCode == old(highestOffsetInCode)
    {
      codeBytes, annotations := bytes, anns;
      RemapAnnotationOffsets();
    }

    /**
     * `decompilationFinished`: shows the decompiled code; when its text is
     * empty (nothing before the terminating NUL) the warning is shown in its
     * place and the range is the empty `[RVA_MAX, 0]`, which no address is
     * in; otherwise the bounds are the least and greatest offset annotation,
     * so every one of them is in range.
     */
    method DecompilationFinished(bytes: seq<u8>, anns: seq<Annotation>, warningBytes: seq<u8>, warningAnns: seq<Annotation>)
      requires |bytes| < U64_MODULUS && |warningBytes| < U64_MODULUS
      modifies this
      ensures CStrLen(bytes) == 0 ==> Showing(warningBytes, warningAnns)
      ensures CStrLen(bytes) == 0 ==> lowestOffsetInCode == RVA_MAX && highestOffsetInCode == 0
      ensures CStrLen(bytes) == 0 ==> forall addr: u64 :: !AddressInRange(addr)
      ensures CStrLen(bytes) != 0 ==> Showing(bytes, anns)
      ensures CStrLen(bytes) != 0 ==> OffsetBounds(annotations, |annotations|, lowestOffsetInCode, highestOffsetInCode)
      ensures CStrLen(bytes) != 0 ==> forall j :: 0 <= j < |annotations| && annotations[j].kind.Offset?
                                                ==> AddressInRange(annotations[j].kind.offset)
      ensures firstOffsetInLine == old(firstOffsetInLine) && availableBreakpoints == old(availableBreakpoints)
    {
      SetCode(bytes, anns);
      if CStrLen(bytes) == 0 {
        ShowWarning(warningBytes, warningAnns);
      } else {
        RecordOffsetRange();
      }
    }

    /** The empty-text branch of `decompilationFinished`: the warning replaces the code, and no address is in range. */
    method ShowWarning(warningBytes: seq<u8>, warningAnns: seq<Annotation>)
      requires |warningBytes| < U64_MODULUS
      modifies this
      ensures Showing(warningBytes, warningAnns)
      ensures lowestOffsetInCode == RVA_MAX && highestOffsetInCode == 0
      ensures forall addr: u64 :: !AddressInRange(addr)
      ensures firstOffsetInLine == old(firstOffsetInLine) && availableBreakpoints == old(availableBreakpoints)
    {
      SetCode(warningBytes, warningAnns);
      lowestOffsetInCode, highestOffsetInCode := RVA_MAX, 0;
    }

    /** The bounds of the offset annotations of the code shown, as `decompilationFinished` records them. */
    method RecordOffsetRange()
      modifies this
      ensures codeBytes == old(codeBytes) && annotations == old(annotations)
      ensures OffsetBounds(annotations, |annotations|, lowestOffsetInCode, highestOffsetInCode)
      ensures forall j :: 0 <= j < |annotations| && annotations[j].kind.Offset?
                          ==> AddressInRange(annotations[j].kind.offset)
      ensures firstOffsetInLine == old(firstOffsetInLine) && availableBreakpoints == old(availableBreakpoints)
    {
      lowestOffsetInCode, highestOffsetInCode := OffsetRange(annotations);
    }

    /** The loop of `decompilationFinished` over the annotations, from the empty range `[RVA_MAX, 0]`. */
    static method OffsetRange(anns: seq<Annotation>) returns (lowest: u64, highest: u64)
      ensures OffsetBounds(anns, |anns|, lowest, highest)
    {
      lowest, highest := RVA_MAX, 0;
      var i := 0;
      while i < |anns|
        invariant i <= |anns| && OffsetBounds(anns, i, lowest, highest)
      {
        var a := anns[i];
        if a.kind.Offset? {
          if lowest > a.kind.offset {
            lowest := a.kind.offset;
          }
          if highest < a.kind.offset {
            highest := a.kind.offset;
          }
        }
        i := i + 1;
      }
    }
  }
}
