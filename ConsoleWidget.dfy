/**
 * The command history of the console in src/widgets/ConsoleWidget.cpp:
 * newest entry first, at most `maxHistoryEntries` entries, and a browsing
 * position that is -1 when no entry is shown.
 *
 * The input line edit is the field `inputText`; its focus handling and the
 * completer are left out.
 */
module ConsoleWidget {

  /** `invalidHistoryPos`. */
  const INVALID_HISTORY_POS: int := -1

  /** `maxHistoryEntries`, fixed by the constructor. */
  const MAX_HISTORY_ENTRIES: nat := 100

  /** `isForbidden`: it returns before its checks, so no command is forbidden. */
  function IsForbidden(input: string): (forbidden: bool)
    ensures !forbidden
  {
    false
  }

  /** The history after `historyAdd`: the oldest entry goes when the list is full, the input goes first. */
  function Added(history: seq<string>, input: string): (h: seq<string>)
    requires |history| <= MAX_HISTORY_ENTRIES
    ensures |h| <= MAX_HISTORY_ENTRIES && |h| >= 1 && h[0] == input
    ensures |history| < MAX_HISTORY_ENTRIES ==> h == [input] + history
    ensures |history| == MAX_HISTORY_ENTRIES ==> h == [input] + history[..|history| - 1]
  {
    if |history| + 1 > MAX_HISTORY_ENTRIES then [input] + history[..|history| - 1] else [input] + history
  }

  /** The position after `historyPrev` on a non-empty history: one step older, stopping at the oldest. */
  function PrevPosition(size: int, pos: int): (p: int)
    requires size >= 1 && -1 <= pos < size
    ensures 0 <= p < size
    ensures pos < size - 1 ==> p == pos + 1
    ensures pos == size - 1 ==> p == size - 1
  {
    var q := if pos >= size - 1 then size - 2 else pos;
    q + 1
  }

  /**
   * The position after `historyNext` on a non-empty history: one step
   * newer, down to -1; a position past the oldest entry is first brought
   * back to it.
   */
  function NextPosition(size: int, pos: int): (p: int)
    requires size >= 1 && -1 <= pos
    ensures -1 <= p < size - 1
    ensures pos == -1 ==> p == -1
    ensures 0 <= pos < size ==> p == pos - 1
    ensures pos >= size ==> p == size - 2
  {
    if pos > INVALID_HISTORY_POS then
      var q := if pos >= size then size - 1 else pos;
      q - 1
    else pos
  }

  /** Going back and then forward again returns to the same position unless the oldest entry was reached. */
  lemma {:induction false} PrevThenNext(size: int, pos: int)
    requires size >= 1 && -1 <= pos < size - 1
    ensures NextPosition(size, PrevPosition(size, pos)) == pos
  {
  }

  class Console {
    var history: seq<string>
    var lastHistoryPosition: int
    var inputText: string

    ghost predicate Valid()
      reads this
    {
      |history| <= MAX_HISTORY_ENTRIES && INVALID_HISTORY_POS <= lastHistoryPosition < |history|
    }

    constructor ()
      ensures Valid() && history == [] && lastHistoryPosition == INVALID_HISTORY_POS
    {
      history, lastHistoryPosition, inputText := [], INVALID_HISTORY_POS, "";
    }

    /** `historyAdd`. */
    method HistoryAdd(input: string)
      requires Valid()
      modifies this
      ensures Valid() && history == Added(old(history), input) && lastHistoryPosition == INVALID_HISTORY_POS
      ensures inputText == old(inputText)
    {
      if |history| + 1 > MAX_HISTORY_ENTRIES {
        history := history[..|history| - 1];
      }
      history := [input] + history;
      lastHistoryPosition := INVALID_HISTORY_POS;
    }

    /** `historyPrev`: shows the next older entry. */
    method HistoryPrev()
      requires Valid()
      modifies this
      ensures Valid() && history == old(history)
      ensures old(history) == [] ==> lastHistoryPosition == old(lastHistoryPosition) && inputText == old(inputText)
      ensures old(history) != [] ==>
        lastHistoryPosition == PrevPosition(|history|, old(lastHistoryPosition)) &&
        inputText == history[lastHistoryPosition]
    {
      if history != [] {
        if lastHistoryPosition >= |history| - 1 {
          lastHistoryPosition := |history| - 2;
        }
        lastHistoryPosition := lastHistoryPosition + 1;
        inputText := history[lastHistoryPosition];
      }
    }

    /** `historyNext`: shows the next newer entry, or clears the input past the newest. */
    method HistoryNext()
      requires |history| <= MAX_HISTORY_ENTRIES && lastHistoryPosition >= INVALID_HISTORY_POS
      modifies this
      ensures history == old(history) && (history != [] ==> Valid())
      ensures old(history) == [] || old(lastHistoryPosition) == INVALID_HISTORY_POS ==>
        lastHistoryPosition == old(lastHistoryPosition) && inputText == old(inputText)
      ensures old(history) != [] && old(lastHistoryPosition) != INVALID_HISTORY_POS ==>
        lastHistoryPosition == NextPosition(|history|, old(lastHistoryPosition)) &&
        inputText == (if lastHistoryPosition >= 0 then history[lastHistoryPosition] else "")
    {
      if history != [] {
        if lastHistoryPosition > INVALID_HISTORY_POS {
          if lastHistoryPosition >= |history| {
            lastHistoryPosition := |history| - 1;
          }
          lastHistoryPosition := lastHistoryPosition - 1;
          if lastHistoryPosition >= 0 {
            inputText := history[lastHistoryPosition];
          } else {
            inputText := "";
          }
        }
      }
    }

    /** `clear`: empties the input and forgets the browsing position. */
    method Clear()
      requires Valid()
      modifies this
      ensures Valid() && history == old(history) && lastHistoryPosition == INVALID_HISTORY_POS && inputText == ""
    {
      inputText := "";
      lastHistoryPosition := INVALID_HISTORY_POS;
    }
  }
}
