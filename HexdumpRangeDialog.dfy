/**
 * The range dialog of src/dialogs/HexdumpRangeDialog.cpp: the start, end
 * and length fields, and `validate`, which turns them into an inclusive
 * range [startAddress, endAddress] or rejects them, checking the 64-bit
 * bounds.
 *
 * The numbers `Core()->math` evaluates from the three line edits are
 * parameters; the radio button that is checked is the `Mode`.
 */
module HexdumpRangeDialog {
  import opened Common

  /** Lengths above this are flagged as a potentially heavy operation. */
  const HEAVY_LENGTH: nat := 0x25000

  /** Which radio button is checked: the end address or the length is given. */
  datatype Mode = EndAddressMode | LengthMode

  /**
   * The outcome of `validate`: the return value, the three fields it
   * assigns, the texts it writes into the line edit it does not read
   * (`None` when it leaves it alone) and the visibility it gives the
   * warning label (`None` when it returns before reaching it).
   */
  datatype Validation = Validation(ok: bool, startAddress: u64, endAddress: u64, emptyRange: bool,
                                   lengthText: Option<string>, endText: Option<string>,
                                   warning: Option<bool>)

  /** `QString("0x%1").arg(n, 0, 16)`. */
  function HexText(n: nat): string
  {
    "0x" + ToHex(n)
  }

  /** The `length` local of `validate`: the difference in end-address mode, the typed value otherwise. */
  function RangeLength(mode: Mode, start: u64, end: u64, length: u64): int
  {
    match mode
    case EndAddressMode => if end > start then end - start else 0
    case LengthMode => length
  }

  /** `validate`: the branches of the end-address and length modes. */
  function Validate(mode: Mode, start: u64, end: u64, length: u64, allowEmpty: bool): (v: Validation)
    ensures v.startAddress == start
    ensures mode == EndAddressMode ==> (v.ok <==> end > start || (end == start && allowEmpty))
    ensures mode == LengthMode ==>
      (v.ok <==> (length == 0 && allowEmpty) || (length > 0 && UINT64_MAX - start >= length - 1))
    ensures !v.emptyRange <==> v.warning.Some?
    ensures !v.emptyRange ==> v.ok && start <= v.endAddress
    ensures !v.emptyRange ==> v.endAddress - start + 1 == RangeLength(mode, start, end, length)
    ensures v.emptyRange && v.ok ==> allowEmpty
    ensures v.warning.Some? ==> v.warning.value == (RangeLength(mode, start, end, length) > HEAVY_LENGTH)
  {
    match mode
    case EndAddressMode =>
      if end > start then
        Validation(true, start, end - 1, false, Some(HexText(end - start)), None, Some(end - start > HEAVY_LENGTH))
      else if end == start then
        Validation(allowEmpty, start, end, true, Some("0"), None, None)
      else
        Validation(false, start, end, true, Some("Invalid"), None, None)
    case LengthMode =>
      if length == 0 then
        Validation(allowEmpty, start, 0, true, None, Some("Empty"), None)
      else if UINT64_MAX - start < length - 1 then
        Validation(false, start, 0, true, None, Some("Invalid"), None)
      else
        var last := start + length - 1;
        Validation(true, start, last, false, None, Some(if last == UINT64_MAX then "2^64" else HexText(last + 1)),
                   Some(length > HEAVY_LENGTH))
  }

  /** The dialog's state: the fields `validate` assigns and the widgets it updates. */
  class Dialog {
    const allowEmpty: bool
    var startAddress: u64
    var endAddress: u64
    var emptyRange: bool
    var lengthText: string
    var endText: string
    var warningVisible: bool
    var okEnabled: bool

    /** The header that declares the initial field values is not part of this model: the addresses start at zero, the texts empty and the range empty. */
    constructor (allowEmpty: bool)
      ensures this.allowEmpty == allowEmpty && emptyRange
    {
      this.allowEmpty := allowEmpty;
      startAddress, endAddress, emptyRange := 0, 0, true;
      lengthText, endText := "", "";
      warningVisible, okEnabled := false, false;
    }

    /** `validate`, with the evaluated line-edit values as parameters. */
    method ValidateFields(mode: Mode, start: u64, end: u64, length: u64) returns (ok: bool)
      modifies this
      ensures var v := Validate(mode, start, end, length, allowEmpty);
        ok == v.ok && startAddress == v.startAddress && endAddress == v.endAddress && emptyRange == v.emptyRange &&
        lengthText == (if v.lengthText.Some? then v.lengthText.value else old(lengthText)) &&
        endText == (if v.endText.Some? then v.endText.value else old(endText)) &&
        warningVisible == (if v.warning.Some? then v.warning.value else old(warningVisible))
      ensures okEnabled == old(okEnabled)
    {
      var v := Validate(mode, start, end, length, allowEmpty);
      ok := v.ok;
      startAddress, endAddress, emptyRange := v.startAddress, v.endAddress, v.emptyRange;
      if v.lengthText.Some? {
        lengthText := v.lengthText.value;
      }
      if v.endText.Some? {
        endText := v.endText.value;
      }
      if v.warning.Some? {
        warningVisible := v.warning.value;
      }
    }

    /** `textEdited`: the OK button is enabled exactly when `validate` succeeds. */
    method TextEdited(mode: Mode, start: u64, end: u64, length: u64)
      modifies this
      ensures okEnabled == Validate(mode, start, end, length, allowEmpty).ok
      ensures startAddress == start && emptyRange == Validate(mode, start, end, length, allowEmpty).emptyRange
    {
      var ok := ValidateFields(mode, start, end, length);
      okEnabled := ok;
    }
  }
}
