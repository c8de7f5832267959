/**
 * The linear disassembly view of the older widget set
 * (widgets/DisassemblyWidget.cpp): which lines a refresh shows, the offset
 * range they cover, scrolling by instructions with its wrap-around clamp,
 * seeking, reading the offset of a text block, the `Range` helper of the
 * left panel and the first pass of the arrow levels.
 *
 * The core's answers (`disassembleLines`, `nextOpAddr`, `prevOpAddr`) and
 * whether the refresh deferrer lets a refresh through are parameters. The
 * text document is the list of its blocks, each with the line it shows as
 * user data; fonts, colours and pixels are left out.
 */
module LegacyDisassemblyWidget {
  import opened Common
  import CutterCore

  type DisassemblyLine = CutterCore.DisassemblyLine

  // ------------------------------------------------------------ text blocks

  /** A block of the text document and the line attached to it, if any. */
  datatype TextBlock = TextBlock(userData: Option<DisassemblyLine>)

  /** `readDisassemblyOffset`: the offset of the block's line, `RVA_INVALID` without one. */
  function ReadDisassemblyOffset(block: TextBlock): u64
  {
    match block.userData
    case None => RVA_INVALID
    case Some(line) => line.offset
  }

  /**
   * The lines a refresh writes: those before the first one whose offset lies
   * below the top offset (the disassembly wrapped around the address space).
   */
  function Shown(lines: seq<DisassemblyLine>, top: u64): (r: seq<DisassemblyLine>)
    ensures |r| <= |lines| && r == lines[..|r|]
    ensures forall i :: 0 <= i < |r| ==> r[i].offset >= top
    ensures |r| < |lines| ==> lines[|r|].offset < top
    decreases |lines|
  {
    if |lines| == 0 || lines[0].offset < top then []
    else
      assert lines == [lines[0]] + lines[1..];
      [lines[0]] + Shown(lines[1..], top)
  }

  /** A prefix of unwrapped lines that stops at a wrap (or at the end) is what is shown. */
  lemma {:induction false} ShownIsPrefix(lines: seq<DisassemblyLine>, top: u64, n: int)
    requires 0 <= n <= |lines|
    requires forall i :: 0 <= i < n ==> lines[i].offset >= top
    requires n < |lines| ==> lines[n].offset < top
    ensures Shown(lines, top) == lines[..n]
  {
    var r := Shown(lines, top);
    if |r| < n {
      assert false;
    } else if |r| > n {
      assert false;
    }
  }

  /** One block per line, each carrying its line. */
  function Blocks(lines: seq<DisassemblyLine>): (r: seq<TextBlock>)
    ensures |r| == |lines| && forall i :: 0 <= i < |r| ==> r[i] == TextBlock(Some(lines[i]))
  {
    seq(|lines|, i requires 0 <= i < |lines| => TextBlock(Some(lines[i])))
  }

  /** The document the insertion loop leaves: the shown lines, then the empty block the last `insertBlock` opened. */
  function Inserted(lines: seq<DisassemblyLine>, top: u64): seq<TextBlock>
  {
    Blocks(Shown(lines, top)) + [TextBlock(None)]
  }

  /**
   * The document after a refresh: the inserted blocks, of which "remove
   * additional lines" keeps only the first `maxLines` (one text line per
   * block), dropping extra lines and the trailing empty block once they no
   * longer fit.
   */
  function Render(lines: seq<DisassemblyLine>, top: u64, maxLines: int): seq<TextBlock>
    requires maxLines > 0
  {
    var doc := Inserted(lines, top);
    doc[..Min(|doc|, maxLines)]
  }

  /** The empty document `clear()` leaves: one block without a line. */
  const EmptyDocument: seq<TextBlock> := [TextBlock(None)]

  /**
   * Reading the blocks of a rendered document gives back the offsets of the
   * shown lines in order, all at or after the top offset, and `RVA_INVALID`
   * for the trailing block; there are never more than `maxLines` blocks, and
   * the trailing block survives exactly when the shown lines leave room for it.
   */
  lemma {:induction false} ReadRendered(lines: seq<DisassemblyLine>, top: u64, maxLines: int, i: int)
    requires maxLines > 0 && 0 <= i < |Render(lines, top, maxLines)|
    ensures i < |Shown(lines, top)| ==> ReadDisassemblyOffset(Render(lines, top, maxLines)[i]) == lines[i].offset >= top
    ensures i == |Shown(lines, top)| ==> ReadDisassemblyOffset(Render(lines, top, maxLines)[i]) == RVA_INVALID
    ensures |Render(lines, top, maxLines)| == Min(|Shown(lines, top)| + 1, maxLines) <= maxLines
  {
    var s := Shown(lines, top);
    if i < |s| {
      assert Render(lines, top, maxLines)[i] == Blocks(s)[i];
      assert s[i] == lines[i];
    } else {
      assert Render(lines, top, maxLines)[i] == TextBlock(None);
    }
  }

  /**
   * Removing additional lines: once the shown lines fill `maxLines`, exactly
   * the first `maxLines` of them are left and no empty block follows them;
   * otherwise nothing is removed.
   */
  lemma {:induction false} ExtraLinesRemoved(lines: seq<DisassemblyLine>, top: u64, maxLines: int)
    requires maxLines > 0
    ensures |Shown(lines, top)| >= maxLines ==>
              Render(lines, top, maxLines) == Blocks(Shown(lines, top)[..maxLines])
              && forall i :: 0 <= i < |Render(lines, top, maxLines)| ==> Render(lines, top, maxLines)[i].userData.Some?
    ensures |Shown(lines, top)| < maxLines ==> Render(lines, top, maxLines) == Blocks(Shown(lines, top)) + [TextBlock(None)]
  {
    var s := Shown(lines, top);
    if |s| >= maxLines {
      assert Render(lines, top, maxLines) == Blocks(s)[..maxLines];
      assert Blocks(s)[..maxLines] == Blocks(s[..maxLines]);
    }
  }

  /** A block without user data, such as that of an empty document, reads as `RVA_INVALID`. */
  lemma {:induction false} ReadEmpty()
    ensures forall i :: 0 <= i < |EmptyDocument| ==> ReadDisassemblyOffset(EmptyDocument[i]) == RVA_INVALID
  {
  }

  // ------------------------------------------------------------ offsets

  /**
   * The bottom offset after a refresh with `maxLines > 0`: the offset of the
   * last line that fits, `RVA_MAX` when that line wrapped below the top, and
   * the top itself when there are no lines.
   */
  function BottomOffset(top: u64, lines: seq<DisassemblyLine>, maxLines: int): (r: u64)
    requires maxLines > 0
    ensures r >= top
    ensures |lines| == 0 ==> r == top
    ensures |lines| > 0 ==> r == lines[Min(|lines|, maxLines) - 1].offset || r == RVA_MAX
    ensures |lines| > 0 && lines[Min(|lines|, maxLines) - 1].offset >= top ==> r == lines[Min(|lines|, maxLines) - 1].offset
  {
    if |lines| > 0 then
      var b := lines[Min(|lines|, maxLines) - 1].offset;
      if b < top then RVA_MAX else b
    else top
  }

  /**
   * The new top offset of `scrollInstructions(count)`, given the address the
   * core answered (`nextOpAddr(top, count)` forward, `prevOpAddr(top, -count)`
   * backward): an answer that wrapped around is clamped to `RVA_MAX` or 0.
   */
  function ScrollTarget(top: u64, count: int, answer: u64): (r: u64)
    requires count != 0
    ensures count > 0 ==> r >= top
    ensures count < 0 ==> r <= top
    ensures r == answer || r == (if count > 0 then RVA_MAX else 0)
    ensures count > 0 && answer >= top ==> r == answer
    ensures count < 0 && answer <= top ==> r == answer
  {
    if count > 0 then (if answer < top then RVA_MAX else answer)
    else (if answer > top then 0 else answer)
  }

  /** The visibility test shared by `instructionChanged` and `on_seekChanged`. */
  predicate InView(top: u64, bottom: u64, offset: u64)
  {
    offset >= top && offset <= bottom
  }

  // ------------------------------------------------------------ refreshing

  /** What the text area shows: the top and bottom offsets, the lines and the document. */
  datatype TextState = TextState(topOffset: u64, bottomOffset: u64, lines: seq<DisassemblyLine>, document: seq<TextBlock>)

  /**
   * `refreshDisasm(offset)`: `allowed` is the refresh deferrer's answer and
   * `fetched` what `disassembleLines(topOffset, maxLines)` returns. The top
   * moves to `offset` unless that is `RVA_INVALID`; without a top offset
   * nothing else happens, without room for lines the document is cleared, and
   * otherwise the fetched lines are shown and the bottom offset follows them.
   */
  function Refresh(t: TextState, maxLines: int, offset: u64, allowed: bool, fetched: seq<DisassemblyLine>): (r: TextState)
    ensures !allowed ==> r == t
    ensures allowed && offset != RVA_INVALID ==> r.topOffset == offset
    ensures offset == RVA_INVALID ==> r.topOffset == t.topOffset
    ensures r.topOffset == RVA_INVALID ==> r.lines == t.lines && r.document == t.document && r.bottomOffset == t.bottomOffset
    ensures allowed && r.topOffset != RVA_INVALID && maxLines > 0 ==>
              r.lines == fetched && r.topOffset <= r.bottomOffset && |r.document| <= maxLines
              && forall i :: 0 <= i < |r.document| ==>
                   (ReadDisassemblyOffset(r.document[i]) == RVA_INVALID || ReadDisassemblyOffset(r.document[i]) >= r.topOffset)
    ensures allowed && r.topOffset != RVA_INVALID && maxLines <= 0 ==>
              r.document == EmptyDocument && r.lines == t.lines && r.bottomOffset == t.bottomOffset
  {
    if !allowed then t
    else
      var top := if offset != RVA_INVALID then offset else t.topOffset;
      if top == RVA_INVALID then t.(topOffset := top)
      else if maxLines <= 0 then t.(topOffset := top, document := EmptyDocument)
      else
        var r := TextState(top, BottomOffset(top, fetched, maxLines), fetched, Render(fetched, top, maxLines));
        assert forall i :: 0 <= i < |r.document| ==>
                 (ReadDisassemblyOffset(r.document[i]) == RVA_INVALID || ReadDisassemblyOffset(r.document[i]) >= top) by {
          forall i | 0 <= i < |r.document|
            ensures ReadDisassemblyOffset(r.document[i]) == RVA_INVALID || ReadDisassemblyOffset(r.document[i]) >= top
          {
            ReadRendered(fetched, top, maxLines, i);
          }
        }
        r
  }

  /**
   * A forward scroll whose answer wrapped is clamped to `RVA_MAX`, which is
   * also `RVA_INVALID`: the refresh then keeps the top offset where it was.
   */
  lemma {:induction false} WrappedScrollStays(t: TextState, maxLines: int, count: int, answer: u64,
                                              allowed: bool, fetched: seq<DisassemblyLine>)
    requires count > 0 && answer < t.topOffset
    ensures Refresh(t, maxLines, ScrollTarget(t.topOffset, count, answer), allowed, fetched).topOffset == t.topOffset
  {
    assert ScrollTarget(t.topOffset, count, answer) == RVA_INVALID;
  }

  /** The insertion loop of `refreshDisasm`, which stops at the first wrapped line. */
  method InsertLines(fetched: seq<DisassemblyLine>, top: u64) returns (doc: seq<TextBlock>)
    ensures doc == Inserted(fetched, top)
  {
    var shown: seq<TextBlock> := [];
    var i := 0;
    while i < |fetched|
      invariant 0 <= i <= |fetched|
      invariant forall j :: 0 <= j < i ==> fetched[j].offset >= top
      invariant shown == Blocks(fetched[..i])
    {
      if fetched[i].offset < top {
        break;
      }
      shown := shown + [TextBlock(Some(fetched[i]))];
      i := i + 1;
    }
    ShownIsPrefix(fetched, top, i);
    doc := shown + [TextBlock(None)];
  }

  /** The insertion loop, then the removal of every block past line `maxLines`. */
  method RenderLines(fetched: seq<DisassemblyLine>, top: u64, maxLines: int) returns (doc: seq<TextBlock>)
    requires maxLines > 0
    ensures doc == Render(fetched, top, maxLines)
  {
    doc := InsertLines(fetched, top);
    if |doc| > maxLines {
      doc := doc[..maxLines];
    }
  }

  // ------------------------------------------------------------ the view

  class DisassemblyView {
    var topOffset: u64
    var bottomOffset: u64
    /** The number of fully displayed lines, as the text edit last reported it. */
    var maxLines: int
    var lines: seq<DisassemblyLine>
    var document: seq<TextBlock>
    var cursorLineOffset: int
    var cursorCharOffset: int
    var seekFromCursor: bool

    function Text(): TextState
      reads this
    {
      TextState(topOffset, bottomOffset, lines, document)
    }

    constructor()
      ensures Text() == TextState(RVA_INVALID, RVA_INVALID, [], EmptyDocument)
      ensures cursorLineOffset == 0 && cursorCharOffset == 0 && !seekFromCursor && maxLines == 0
    {
      topOffset, bottomOffset := RVA_INVALID, RVA_INVALID;
      cursorLineOffset, cursorCharOffset := 0, 0;
      seekFromCursor := false;
      maxLines := 0;
      lines := [];
      document := EmptyDocument;
    }

    /** `refreshDisasm`, proved against `Refresh`. */
    method RefreshDisasm(offset: u64, allowed: bool, fetched: seq<DisassemblyLine>)
      modifies this
      ensures Text() == Refresh(old(Text()), maxLines, offset, allowed, fetched)
      ensures maxLines == old(maxLines) && seekFromCursor == old(seekFromCursor)
      ensures cursorLineOffset == old(cursorLineOffset) && cursorCharOffset == old(cursorCharOffset)
    {
      if !allowed {
        return;
      }
      if offset != RVA_INVALID {
        topOffset := offset;
      }
      if topOffset == RVA_INVALID {
        return;
      }
      if maxLines <= 0 {
        document := EmptyDocument;
        return;
      }
      var top := topOffset;
      var doc := RenderLines(fetched, top, maxLines);
      lines := fetched;
      document := doc;
      bottomOffset := BottomOffset(top, fetched, maxLines);
    }

    /** `scrollInstructions(count)`; `answer` is the core's next or previous instruction address. */
    method ScrollInstructions(count: int, answer: u64, allowed: bool, fetched: seq<DisassemblyLine>)
      modifies this
      ensures count == 0 ==> Text() == old(Text())
      ensures count != 0 ==> Text() == Refresh(old(Text()), maxLines, ScrollTarget(old(topOffset), count, answer), allowed, fetched)
      ensures maxLines == old(maxLines) && seekFromCursor == old(seekFromCursor)
      ensures cursorLineOffset == old(cursorLineOffset) && cursorCharOffset == old(cursorCharOffset)
    {
      if count == 0 {
        return;
      }
      var offset := ScrollTarget(topOffset, count, answer);
      RefreshDisasm(offset, allowed, fetched);
    }

    /** The `instructionChanged` handler: refresh in place only when the offset is on screen. */
    method InstructionChanged(offset: u64, allowed: bool, fetched: seq<DisassemblyLine>)
      modifies this
      ensures InView(old(topOffset), old(bottomOffset), offset) ==> Text() == Refresh(old(Text()), maxLines, RVA_INVALID, allowed, fetched)
      ensures !InView(old(topOffset), old(bottomOffset), offset) ==> Text() == old(Text())
      ensures maxLines == old(maxLines) && seekFromCursor == old(seekFromCursor)
      ensures cursorLineOffset == old(cursorLineOffset) && cursorCharOffset == old(cursorCharOffset)
    {
      if offset >= topOffset && offset <= bottomOffset {
        RefreshDisasm(RVA_INVALID, allowed, fetched);
      }
    }

    /**
     * `on_seekChanged`: the cursor offsets are reset unless the seek came
     * from the cursor; a visible offset only moves the cursor, any other
     * offset scrolls the view there.
     */
    method OnSeekChanged(offset: u64, allowed: bool, fetched: seq<DisassemblyLine>)
      modifies this
      ensures !old(seekFromCursor) ==> cursorLineOffset == 0 && cursorCharOffset == 0
      ensures old(seekFromCursor) ==> cursorLineOffset == old(cursorLineOffset) && cursorCharOffset == old(cursorCharOffset)
      ensures old(topOffset) != RVA_INVALID && InView(old(topOffset), old(bottomOffset), offset) ==> Text() == old(Text())
      ensures !(old(topOffset) != RVA_INVALID && InView(old(topOffset), old(bottomOffset), offset)) ==>
                Text() == Refresh(old(Text()), maxLines, offset, allowed, fetched)
      ensures maxLines == old(maxLines) && seekFromCursor == old(seekFromCursor)
    {
      if !seekFromCursor {
        cursorLineOffset := 0;
        cursorCharOffset := 0;
      }
      if topOffset != RVA_INVALID && offset >= topOffset && offset <= bottomOffset {
        // only the cursor moves
      } else {
        RefreshDisasm(offset, allowed, fetched);
      }
    }

    /** `updateMaxLines`: a new line count is stored and triggers a refresh in place. */
    method UpdateMaxLines(current: int, allowed: bool, fetched: seq<DisassemblyLine>) returns (changed: bool)
      modifies this
      ensures changed <==> current != old(maxLines)
      ensures maxLines == current
      ensures changed ==> Text() == Refresh(old(Text()), current, RVA_INVALID, allowed, fetched)
      ensures !changed ==> Text() == old(Text())
      ensures seekFromCursor == old(seekFromCursor)
      ensures cursorLineOffset == old(cursorLineOffset) && cursorCharOffset == old(cursorCharOffset)
    {
      if current != maxLines {
        maxLines := current;
        RefreshDisasm(RVA_INVALID, allowed, fetched);
        return true;
      }
      return false;
    }
  }

  // ------------------------------------------------------------ Range

  /** The left panel's `Range`, its ends swapped so that `from <= to`. */
  datatype Range = Range(from: u64, to: u64)

  function MakeRange(v1: u64, v2: u64): (r: Range)
    ensures r.from <= r.to
    ensures (r.from == v1 && r.to == v2) || (r.from == v2 && r.to == v1)
  {
    if v1 > v2 then Range(v2, v1) else Range(v1, v2)
  }

  predicate ContainsRange(r: Range, other: Range)
  {
    r.from <= other.from && r.to >= other.to
  }

  predicate ContainsPoint(r: Range, point: u64)
  {
    r.from <= point && r.to >= point
  }

  /** A normalised range spans exactly the points between its two inputs, in either order. */
  lemma {:induction false} MakeRangePoints(v1: u64, v2: u64, p: u64)
    ensures ContainsPoint(MakeRange(v1, v2), p) <==> Min(v1, v2) <= p <= Max(v1, v2)
    ensures MakeRange(v1, v2) == MakeRange(v2, v1)
  {
  }

  /** Range containment is containment of the endpoints, so of every point. */
  lemma {:induction false} ContainsRangePoints(r: Range, other: Range)
    requires other.from <= other.to
    ensures ContainsRange(r, other) <==> ContainsPoint(r, other.from) && ContainsPoint(r, other.to)
    ensures ContainsRange(r, other) ==> forall p: u64 :: ContainsPoint(other, p) ==> ContainsPoint(r, p)
  {
  }

  // ------------------------------------------------------------ arrow levels

  /**
   * The `arrowInfo` map of `paintEvent`: each line with an arrow maps its
   * offset to the arrow's target; a later line at the same offset replaces an
   * earlier one (`QMap::insert`).
   */
  function ArrowInfo(lines: seq<DisassemblyLine>): (m: map<u64, u64>)
    ensures forall k :: k in m ==> exists i :: 0 <= i < |lines| && HasArrowAt(lines, i, k)
    ensures forall i :: 0 <= i < |lines| && lines[i].arrow != RVA_INVALID ==> lines[i].offset in m
    ensures forall k :: k in m ==> LastArrow(lines, k, m[k])
    decreases |lines|
  {
    if |lines| == 0 then map[]
    else
      var m := ArrowInfo(lines[..|lines| - 1]);
      var last := lines[|lines| - 1];
      assert lines == lines[..|lines| - 1] + [last];
      ArrowInfoStep(lines[..|lines| - 1], last, m);
      if last.arrow != RVA_INVALID then m[last.offset := last.arrow] else m
  }

  predicate HasArrowAt(lines: seq<DisassemblyLine>, i: int, k: u64)
    requires 0 <= i < |lines|
  {
    lines[i].offset == k && lines[i].arrow != RVA_INVALID
  }

  /** `target` is the arrow of the last line at offset `k` that has one. */
  predicate LastArrow(lines: seq<DisassemblyLine>, k: u64, target: u64)
  {
    exists i :: 0 <= i < |lines| && HasArrowAt(lines, i, k) && lines[i].arrow == target
                && forall j :: i < j < |lines| ==> !HasArrowAt(lines, j, k)
  }

  lemma {:induction false} ArrowInfoStep(init: seq<DisassemblyLine>, last: DisassemblyLine, m: map<u64, u64>)
    requires forall k :: k in m ==> exists i :: 0 <= i < |init| && HasArrowAt(init, i, k)
    requires forall i :: 0 <= i < |init| && init[i].arrow != RVA_INVALID ==> init[i].offset in m
    requires forall k :: k in m ==> LastArrow(init, k, m[k])
    ensures var lines := init + [last];
            var m' := if last.arrow != RVA_INVALID then m[last.offset := last.arrow] else m;
            && (forall k :: k in m' ==> exists i :: 0 <= i < |lines| && HasArrowAt(lines, i, k))
            && (forall i :: 0 <= i < |lines| && lines[i].arrow != RVA_INVALID ==> lines[i].offset in m')
            && (forall k :: k in m' ==> LastArrow(lines, k, m'[k]))
  {
    var lines := init + [last];
    var n := |init|;
    var m' := if last.arrow != RVA_INVALID then m[last.offset := last.arrow] else m;
    forall k | k in m' ensures exists i :: 0 <= i < |lines| && HasArrowAt(lines, i, k) {
      if last.arrow != RVA_INVALID && k == last.offset {
        assert HasArrowAt(lines, n, k);
      } else {
        var i :| 0 <= i < n && HasArrowAt(init, i, k);
        assert HasArrowAt(lines, i, k);
      }
    }
    forall i | 0 <= i < |lines| && lines[i].arrow != RVA_INVALID ensures lines[i].offset in m' {
      if i < n {
        assert init[i] == lines[i];
      }
    }
    forall k | k in m' ensures LastArrow(lines, k, m'[k]) {
      if last.arrow != RVA_INVALID && k == last.offset {
        assert HasArrowAt(lines, n, k);
      } else {
        var i :| 0 <= i < n && HasArrowAt(init, i, k) && init[i].arrow == m[k]
                 && forall j :: i < j < n ==> !HasArrowAt(init, j, k);
        assert HasArrowAt(lines, i, k);
        forall j | i < j < |lines| ensures !HasArrowAt(lines, j, k) {
          if j < n {
            assert !HasArrowAt(init, j, k);
          }
        }
      }
    }
  }

  /** The loop that fills `arrowInfo`. */
  method BuildArrowInfo(lines: seq<DisassemblyLine>) returns (info: map<u64, u64>)
    ensures info == ArrowInfo(lines)
  {
    info := map[];
    for i := 0 to |lines|
      invariant info == ArrowInfo(lines[..i])
    {
      assert lines[..i + 1][..i] == lines[..i];
      if lines[i].arrow != RVA_INVALID {
        info := info[lines[i].offset := lines[i].arrow];
      }
    }
    assert lines[..|lines|] == lines;
  }

  /** The arrow at offset `k`, as a range. */
  function ArrowRange(info: map<u64, u64>, k: u64): Range
    requires k in info
  {
    MakeRange(k, info[k])
  }

  /** The test of the first level pass: the other arrow lies inside, or starts inside, arrow `k`. */
  predicate Nested(info: map<u64, u64>, k: u64, o: u64)
    requires k in info && o in info
  {
    o != k && (ContainsRange(ArrowRange(info, k), ArrowRange(info, o))
               || ContainsPoint(ArrowRange(info, k), ArrowRange(info, o).from))
  }

  /** The first disjunct adds nothing: an arrow counts exactly when its start lies inside. */
  lemma {:induction false} NestedIsStartInside(info: map<u64, u64>, k: u64, o: u64)
    requires k in info && o in info
    ensures Nested(info, k, o) <==> o != k && ContainsPoint(ArrowRange(info, k), ArrowRange(info, o).from)
  {
  }

  /** How many of `keys` are arrows nested in arrow `k`. */
  function CountNested(info: map<u64, u64>, k: u64, keys: seq<u64>): (n: nat)
    requires k in info && forall j :: 0 <= j < |keys| ==> keys[j] in info
    ensures n <= |keys|
    decreases |keys|
  {
    if |keys| == 0 then 0
    else CountNested(info, k, keys[..|keys| - 1]) + (if Nested(info, k, keys[|keys| - 1]) then 1 else 0)
  }

  /** The keys of `info`, each once: the order in which the `QMap` is walked. */
  predicate ListsKeys(info: map<u64, u64>, keys: seq<u64>)
  {
    Distinct(keys) && (forall j :: 0 <= j < |keys| ==> keys[j] in info) && (forall k :: k in info ==> k in keys)
  }

  /**
   * The first pass over `arrowInfo`: every level starts at 1 and grows by one
   * for each other arrow nested in it.
   */
  method InitialLevels(info: map<u64, u64>, keys: seq<u64>) returns (level: map<u64, int>)
    requires ListsKeys(info, keys)
    ensures level.Keys == info.Keys
    ensures forall k :: k in info ==> level[k] == 1 + CountNested(info, k, keys)
  {
    level := map[];
    for i := 0 to |keys|
      invariant forall x :: x in level ==> x in info
      invariant forall j :: 0 <= j < i ==> keys[j] in level && level[keys[j]] == 1 + CountNested(info, keys[j], keys)
    {
      var k := keys[i];
      var n := LevelOf(info, k, keys);
      level := level[k := n];
    }
    forall k | k in info ensures k in level && level[k] == 1 + CountNested(info, k, keys) {
      var j := IndexOf(keys, k);
    }
  }

  /** The inner loop: one arrow's level, 1 plus the arrows nested in it. */
  method LevelOf(info: map<u64, u64>, k: u64, keys: seq<u64>) returns (n: int)
    requires k in info && forall j :: 0 <= j < |keys| ==> keys[j] in info
    ensures n == 1 + CountNested(info, k, keys)
  {
    n := 1;
    for m := 0 to |keys|
      invariant n == 1 + CountNested(info, k, keys[..m])
    {
      assert keys[..m + 1][..m] == keys[..m];
      if keys[m] != k {
        if ContainsRange(ArrowRange(info, k), ArrowRange(info, keys[m]))
           || ContainsPoint(ArrowRange(info, k), ArrowRange(info, keys[m]).from) {
          n := n + 1;
        }
      }
    }
    assert keys[..|keys|] == keys;
  }

  /** An arrow never counts itself: its first level lies between 1 and the number of arrows. */
  lemma {:induction false} InitialLevelBounds(info: map<u64, u64>, keys: seq<u64>, k: u64)
    requires ListsKeys(info, keys) && k in info
    ensures 1 <= 1 + CountNested(info, k, keys) <= |keys|
  {
    CountWithout(info, k, keys);
  }

  lemma {:induction false} CountWithout(info: map<u64, u64>, k: u64, keys: seq<u64>)
    requires k in info && Distinct(keys) && forall j :: 0 <= j < |keys| ==> keys[j] in info
    ensures k in keys ==> CountNested(info, k, keys) <= |keys| - 1
    decreases |keys|
  {
    if |keys| > 0 {
      var init := keys[..|keys| - 1];
      assert Distinct(init);
      CountWithout(info, k, init);
      if k in init {
        assert k != keys[|keys| - 1];
      } else if k in keys {
        assert keys[|keys| - 1] == k;
      }
    }
  }
}
