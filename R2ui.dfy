/**
 * The navigation history and the basic-block store of the web UI in
 * src/html/graph/lib/js/r2ui.js. JavaScript reads outside an array give
 * `undefined`, written `None` here.
 *
 * Only the store used without sdb is modelled; the sdb branch sends `k`
 * commands to r2 and is I/O.
 */
module R2ui {
  import opened Common

  /** `array[k]`: the element, or `undefined` outside the array. */
  function At(h: seq<string>, k: int): (r: Option<string>)
    ensures r.Some? <==> 0 <= k < |h|
    ensures r.Some? ==> r.value == h[k]
  {
    if 0 <= k < |h| then Some(h[k]) else None
  }

  /** `history.splice(0, idx)`, whose result is kept: the first `idx` entries, none for a negative `idx`. */
  function KeepFirst(h: seq<string>, idx: int): (r: seq<string>)
    ensures idx <= 0 ==> r == []
    ensures 0 <= idx <= |h| ==> r == h[..idx]
    ensures idx >= |h| ==> r == h
  {
    if idx <= 0 then [] else if idx >= |h| then h else h[..idx]
  }

  /** `history_last`: the entry before the position when the history is not empty. */
  function Last(h: seq<string>, idx: int): (r: Option<string>)
    ensures h == [] ==> r == None
    ensures 1 <= idx <= |h| ==> r == Some(h[idx - 1])
  {
    if |h| > 0 then At(h, idx - 1) else None
  }

  /** The basic-block properties `update_fcn_BB` stores: position and colour. */
  datatype BBInfo = BBInfo(x: string, y: string, color: string)

  class WebUI {
    var history: seq<string>
    var historyIdx: int
    var basicBlocks: map<string, BBInfo>

    /** `0 <= history_idx <= history.length`, the state every operation but `history_pop` on an empty history keeps. */
    ghost predicate Valid()
      reads this
    {
      0 <= historyIdx <= |history|
    }

    constructor ()
      ensures Valid() && history == [] && historyIdx == 0 && basicBlocks == map[]
    {
      history, historyIdx, basicBlocks := [], 0, map[];
    }

    /** `history_push`: a new entry, unless it repeats the last one, replaces everything after the position. */
    method Push(x: string)
      modifies this
      ensures Last(old(history), old(historyIdx)) == Some(x) ==> history == old(history) && historyIdx == old(historyIdx)
      ensures Last(old(history), old(historyIdx)) != Some(x) ==>
        history == KeepFirst(old(history), old(historyIdx)) + [x] && historyIdx == old(historyIdx) + 1
      ensures old(Valid()) ==> Valid()
      ensures old(Valid()) ==> Last(history, historyIdx) == Some(x)
      ensures old(Valid()) && Last(old(history), old(historyIdx)) != Some(x) ==> historyIdx == |history|
      ensures basicBlocks == old(basicBlocks)
    {
      if Last(history, historyIdx) != Some(x) {
        if historyIdx != |history| {
          history := KeepFirst(history, historyIdx);
        }
        historyIdx := historyIdx + 1;
        history := history + [x];
      }
    }

    /** `history_pop`: drops the newest entry, moving the position back when it was at the end. */
    method Pop() returns (r: Option<string>)
      modifies this
      ensures r == (if old(history) == [] then None else Some(old(history)[|old(history)| - 1]))
      ensures history == if old(history) == [] then [] else old(history)[..|old(history)| - 1]
      ensures historyIdx == if old(historyIdx) == |old(history)| then old(historyIdx) - 1 else old(historyIdx)
      ensures old(Valid()) && old(history) != [] ==> Valid()
      ensures old(history) == [] && old(historyIdx) == 0 ==> historyIdx == -1
      ensures basicBlocks == old(basicBlocks)
    {
      if historyIdx == |history| {
        historyIdx := historyIdx - 1;
      }
      if history == [] {
        r := None;
      } else {
        r := Some(history[|history| - 1]);
        history := history[..|history| - 1];
      }
    }

    /** `history_last`. */
    method LastEntry() returns (r: Option<string>)
      ensures r == Last(history, historyIdx)
    {
      r := Last(history, historyIdx);
    }

    /** `history_prev`: steps back, never below position 1, and returns the entry before the position. */
    method Prev() returns (r: Option<string>)
      modifies this
      ensures historyIdx == if old(historyIdx) > 1 then old(historyIdx) - 1 else old(historyIdx)
      ensures history == old(history) && basicBlocks == old(basicBlocks)
      ensures r == At(history, historyIdx - 1)
      ensures old(Valid()) ==> Valid()
    {
      if historyIdx > 1 {
        historyIdx := historyIdx - 1;
      }
      r := At(history, historyIdx - 1);
    }

    /** `history_next`: returns the entry at the position, then steps forward while not at the end. */
    method Next() returns (r: Option<string>)
      modifies this
      ensures r == At(old(history), old(historyIdx))
      ensures historyIdx == if old(historyIdx) < |old(history)| then old(historyIdx) + 1 else old(historyIdx)
      ensures history == old(history) && basicBlocks == old(basicBlocks)
      ensures old(Valid()) ==> Valid()
    {
      r := At(history, historyIdx);
      if historyIdx < |history| {
        historyIdx := historyIdx + 1;
      }
    }

    /** `update_fcn_BB` without sdb: stores the info under the block offset. */
    method UpdateBB(fcnOffset: string, bbOffset: string, info: BBInfo)
      modifies this
      ensures basicBlocks == old(basicBlocks)[bbOffset := info]
      ensures history == old(history) && historyIdx == old(historyIdx)
    {
      basicBlocks := basicBlocks[bbOffset := info];
    }

    /** `get_fcn_BB` without sdb: the stored info, `undefined` for a block never stored. */
    method GetBB(fcnOffset: string, bbOffset: string) returns (r: Option<BBInfo>)
      ensures r == if bbOffset in basicBlocks then Some(basicBlocks[bbOffset]) else None
    {
      r := if bbOffset in basicBlocks then Some(basicBlocks[bbOffset]) else None;
    }
  }

  /** Reading a block back after storing it gives the stored info, and other blocks keep theirs. */
  lemma {:induction false} UpdateThenGet(blocks: map<string, BBInfo>, bb: string, info: BBInfo, other: string)
    requires other != bb
    ensures bb in blocks[bb := info] && blocks[bb := info][bb] == info
    ensures (other in blocks[bb := info]) == (other in blocks)
    ensures other in blocks ==> blocks[bb := info][other] == blocks[other]
  {
  }

  /** After a pop on an empty history the position is -1, and the next push leaves it one short of the end. */
  lemma {:induction false} PushAfterEmptyPop(x: string)
    ensures KeepFirst([], -1) + [x] == [x]
    ensures Last([x], -1 + 1) == None
  {
  }
}
