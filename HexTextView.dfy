/**
 * The text hexdump of src/widgets/HexTextView.cpp: three text columns
 * (offsets, hex or octal bytes, ASCII) for a window of lines starting at
 * `first_loaded_address`, the conversions between a character position in
 * those texts and an address, the column headers, and the window that
 * `refresh` and `scrollChanged` load.
 *
 * The bytes `pxj` returns for the window are `mem` at consecutive
 * addresses; the line a text edit shows and its scroll position come in as
 * parameters.
 */
module HexTextView {
  import opened Common

  datatype Format = Hex | Octal

  /** Digits per byte: two hex digits or three octal digits. */
  function ItemWidth(format: Format): nat
  {
    if format == Octal then 3 else 2
  }

  /** Characters per byte in the byte column: the digits and one separator (a space or the newline). */
  function Stride(format: Format): nat
  {
    ItemWidth(format) + 1
  }

  /** `QString::number(b, base).rightJustified(width, '0')` for one byte. */
  function ByteItem(b: u8, format: Format): (s: string)
    ensures |s| == ItemWidth(format)
  {
    if format == Octal then [OctDigit(b / 64), OctDigit(b / 8 % 8), OctDigit(b % 8)]
    else [HexDigit(b / 16), HexDigit(b % 16)]
  }

  /** An item is the zero-padded number, and it reads back as the byte. */
  lemma {:induction false} ByteItemRoundTrip(b: u8, format: Format)
    ensures format == Hex ==> ByteItem(b, format) == HexFixed(b, 2) && ParseHex(ByteItem(b, format)) == b
    ensures format == Octal ==> ByteItem(b, format) == OctFixed(b, 3) && ParseOct(ByteItem(b, format)) == b
  {
    if format == Hex {
      ByteItemHex(b);
    } else {
      ByteItemOctal(b);
    }
  }

  lemma {:induction false} ByteItemHex(b: u8)
    ensures ByteItem(b, Hex) == HexFixed(b, 2) && ParseHex(HexFixed(b, 2)) == b
  {
    var hi, lo := b / 16, b % 16;
    assert hi / 16 == 0 && hi % 16 == hi;
    assert HexFixed(hi, 1) == [] + [HexDigit(hi)];
    assert HexFixed(b, 2) == HexFixed(hi, 1) + [HexDigit(lo)];
    assert Pow16(2) == 256 by {
      assert Pow16(1) == 16;
    }
    HexFixedValue(b, 2);
  }

  lemma {:induction false} ByteItemOctal(b: u8)
    ensures ByteItem(b, Octal) == OctFixed(b, 3) && ParseOct(OctFixed(b, 3)) == b
  {
    var d2, d1, d0 := b / 64, b / 8 % 8, b % 8;
    assert b / 8 / 8 == d2 && d2 / 8 == 0 && d2 % 8 == d2;
    assert OctFixed(d2, 1) == [] + [OctDigit(d2)];
    assert OctFixed(b / 8, 2) == OctFixed(d2, 1) + [OctDigit(d1)];
    assert OctFixed(b, 3) == OctFixed(b / 8, 2) + [OctDigit(d0)];
    assert Pow8(3) == 512 by {
      assert Pow8(1) == 8;
      assert Pow8(2) == 64;
    }
    OctFixedValue(b, 3);
  }

  /** The ASCII column shows bytes outside 0x20..0x7e as '.'. */
  function AsciiChar(b: u8): (c: char)
    ensures c != '\n'
  {
    if b < 0x20 || b > 0x7e then '.' else b as char
  }

  /** One line of the window: `cols` bytes from `start`. */
  function Row(mem: u64 -> u8, start: u64, cols: nat): (r: seq<u8>)
    ensures |r| == cols
  {
    seq<u8>(cols, (j: int) => mem(Wrap64(start + j)))
  }

  lemma {:induction false} RowAt(mem: u64 -> u8, start: u64, cols: nat, j: nat)
    requires j < cols
    ensures Row(mem, start, cols)[j] == mem(Wrap64(start + j))
  {
  }

  /** Start of line `i` of a window at `addr`: `cols` added `i` times in 64-bit arithmetic. */
  function LineStart(addr: u64, cols: nat, i: nat): u64
  {
    if i == 0 then addr else Wrap64(LineStart(addr, cols, i - 1) + cols)
  }

  /** Line `i` starts `i * cols` bytes after the window, modulo 2^64. */
  lemma {:induction false} LineStartIs(addr: u64, cols: nat, i: nat)
    ensures LineStart(addr, cols, i) == Wrap64(addr + i * cols)
  {
    if i > 0 {
      LineStartIs(addr, cols, i - 1);
      WrapStep(addr, (i - 1) * cols, cols);
      MulSucc(i - 1, cols);
    }
  }

  /** The byte items of one line, separated by single spaces. */
  function HexRowText(row: seq<u8>, format: Format): string
    decreases |row|
  {
    if |row| == 0 then ""
    else HexRowText(row[..|row| - 1], format) + (if |row| > 1 then " " else "") + ByteItem(row[|row| - 1], format)
  }

  function AsciiRowText(row: seq<u8>): (s: string)
    ensures |s| == |row|
  {
    if |row| == 0 then "" else AsciiRowText(row[..|row| - 1]) + [AsciiChar(row[|row| - 1])]
  }

  lemma {:induction false} AsciiRowTextAt(row: seq<u8>, j: nat)
    requires j < |row|
    ensures AsciiRowText(row)[j] == AsciiChar(row[j])
    decreases |row|
  {
    if j < |row| - 1 {
      AsciiRowTextAt(row[..|row| - 1], j);
    }
  }

  /** The byte column of `lines` lines, each line ending in a newline. */
  function HexLines(mem: u64 -> u8, addr: u64, cols: nat, lines: nat, format: Format): string
  {
    if lines == 0 then ""
    else HexLines(mem, addr, cols, lines - 1, format) + HexRowText(Row(mem, LineStart(addr, cols, lines - 1), cols), format) + "\n"
  }

  function AsciiLines(mem: u64 -> u8, addr: u64, cols: nat, lines: nat): string
  {
    if lines == 0 then ""
    else AsciiLines(mem, addr, cols, lines - 1) + AsciiRowText(Row(mem, LineStart(addr, cols, lines - 1), cols)) + "\n"
  }

  /** The offset column: the address of each line, advancing by `cols` in 64-bit arithmetic. */
  function OffsetLines(addr: u64, cols: nat, lines: nat): string
  {
    if lines == 0 then ""
    else OffsetLines(addr, cols, lines - 1) + RAddressString(LineStart(addr, cols, lines - 1)) + "\n"
  }

  /** `fetchHexdump`: builds the three columns line by line. */
  method FetchHexdump(mem: u64 -> u8, addr: u64, cols: nat, lines: int, format: Format)
    returns (offsetText: string, hexText: string, asciiText: string)
    ensures var n := Max(lines, 0);
      offsetText == OffsetLines(addr, cols, n) && hexText == HexLines(mem, addr, cols, n, format) &&
      asciiText == AsciiLines(mem, addr, cols, n)
  {
    hexText, offsetText, asciiText := "", "", "";
    var curAddr: u64 := addr;
    var i := 0;
    while i < lines
      invariant 0 <= i <= Max(lines, 0)
      invariant curAddr == LineStart(addr, cols, i)
      invariant offsetText == OffsetLines(addr, cols, i)
      invariant hexText == HexLines(mem, addr, cols, i, format)
      invariant asciiText == AsciiLines(mem, addr, cols, i)
    {
      offsetText, hexText, asciiText, curAddr := FetchLine(mem, addr, cols, i, format, curAddr, offsetText, hexText, asciiText);
      i := i + 1;
    }
  }

  /** One pass of the outer loop of `fetchHexdump`: appends line `i` to each column and steps to the next line. */
  method FetchLine(mem: u64 -> u8, addr: u64, cols: nat, i: nat, format: Format, curAddr: u64,
                   offsetText: string, hexText: string, asciiText: string)
    returns (offsetText': string, hexText': string, asciiText': string, nextAddr: u64)
    requires curAddr == LineStart(addr, cols, i)
    requires offsetText == OffsetLines(addr, cols, i)
    requires hexText == HexLines(mem, addr, cols, i, format)
    requires asciiText == AsciiLines(mem, addr, cols, i)
    ensures offsetText' == OffsetLines(addr, cols, i + 1)
    ensures hexText' == HexLines(mem, addr, cols, i + 1, format)
    ensures asciiText' == AsciiLines(mem, addr, cols, i + 1)
    ensures nextAddr == LineStart(addr, cols, i + 1)
  {
    var hexRow, asciiRow := FetchRow(mem, curAddr, cols, format);
    LinesSucc(mem, addr, cols, i, format);
    offsetText' := offsetText + RAddressString(curAddr) + "\n";
    hexText' := hexText + hexRow + "\n";
    asciiText' := asciiText + asciiRow + "\n";
    nextAddr := NextLineStart(addr, cols, i, curAddr);
  }

  /** `curAddr += hex.cols`: the start of the next line. */
  method NextLineStart(addr: u64, cols: nat, i: nat, curAddr: u64) returns (next: u64)
    requires curAddr == LineStart(addr, cols, i)
    ensures next == LineStart(addr, cols, i + 1)
  {
    next := Wrap64(curAddr + cols);
  }

  /** The inner loop of `fetchHexdump`: the items and characters of line `i`. */
  method FetchRow(mem: u64 -> u8, start: u64, cols: nat, format: Format)
    returns (hexText: string, asciiText: string)
    ensures hexText == HexRowText(Row(mem, start, cols), format)
    ensures asciiText == AsciiRowText(Row(mem, start, cols))
  {
    ghost var row := Row(mem, start, cols);
    hexText, asciiText := "", "";
    var j := 0;
    while j < cols
      invariant 0 <= j <= cols
      invariant hexText == HexRowText(row[..j], format)
      invariant asciiText == AsciiRowText(row[..j])
    {
      var b := mem(Wrap64(start + j));
      assert b == row[j];
      assert row[..j + 1][..j] == row[..j];
      if j > 0 && j < cols {
        hexText := hexText + " ";
      }
      asciiText := asciiText + [AsciiChar(b)];
      hexText := hexText + ByteItem(b, format);
      j := j + 1;
    }
    assert row[..cols] == row;
  }

  /** Each column of `i + 1` lines is the column of `i` lines followed by line `i`. */
  lemma {:induction false} LinesSucc(mem: u64 -> u8, addr: u64, cols: nat, i: nat, format: Format)
    ensures OffsetLines(addr, cols, i + 1) == OffsetLines(addr, cols, i) + RAddressString(LineStart(addr, cols, i)) + "\n"
    ensures HexLines(mem, addr, cols, i + 1, format)
      == HexLines(mem, addr, cols, i, format) + HexRowText(Row(mem, LineStart(addr, cols, i), cols), format) + "\n"
    ensures AsciiLines(mem, addr, cols, i + 1)
      == AsciiLines(mem, addr, cols, i) + AsciiRowText(Row(mem, LineStart(addr, cols, i), cols)) + "\n"
  {
  }

  // ------------------------------------------------------------ text layout

  lemma {:induction false} HexRowTextLength(row: seq<u8>, format: Format)
    ensures |row| >= 1 ==> |HexRowText(row, format)| == |row| * Stride(format) - 1
    decreases |row|
  {
    var n := |row|;
    if n > 1 {
      HexRowTextLength(row[..n - 1], format);
      MulSucc(n - 1, Stride(format));
    }
  }

  /** Item `j` of a line starts at `j * Stride` and is followed by a space unless it is the last. */
  lemma {:induction false} HexRowTextAt(row: seq<u8>, format: Format, j: nat)
    requires j < |row|
    ensures 0 <= j * Stride(format)
    ensures j * Stride(format) + ItemWidth(format) <= |HexRowText(row, format)|
    ensures HexRowText(row, format)[j * Stride(format)..j * Stride(format) + ItemWidth(format)] == ByteItem(row[j], format)
    decreases |row|
  {
    var n := |row|;
    if j < n - 1 {
      var front := row[..n - 1];
      var tf := HexRowText(front, format);
      var at := j * Stride(format);
      HexRowTextAt(front, format, j);
      assert front[j] == row[j];
      var rest := " " + ByteItem(row[n - 1], format);
      assert HexRowText(row, format) == tf + rest;
      PrefixOfConcat(tf, rest);
      SliceOfPrefix(HexRowText(row, format), tf, at, at + ItemWidth(format));
    } else {
      HexRowTextLast(row, format);
    }
  }

  /** The last item of a line ends the line. */
  lemma {:induction false} HexRowTextLast(row: seq<u8>, format: Format)
    requires |row| >= 1
    ensures var at := (|row| - 1) * Stride(format);
      0 <= at && at + ItemWidth(format) == |HexRowText(row, format)| &&
      HexRowText(row, format)[at..at + ItemWidth(format)] == ByteItem(row[|row| - 1], format)
  {
    var n := |row|;
    var tf := HexRowText(row[..n - 1], format);
    var sep := if n > 1 then " " else "";
    var item := ByteItem(row[n - 1], format);
    if n > 1 {
      HexRowTextLength(row[..n - 1], format);
    }
    MulNonneg(n - 1, Stride(format));
    assert |tf + sep| == (n - 1) * Stride(format);
    assert HexRowText(row, format) == tf + sep + item + [];
    SliceOfConcat(tf + sep, item, []);
  }

  lemma {:induction false} HexLinesLength(mem: u64 -> u8, addr: u64, cols: nat, lines: nat, format: Format)
    requires cols >= 1
    ensures |HexLines(mem, addr, cols, lines, format)| == lines * (cols * Stride(format))
  {
    if lines > 0 {
      HexLinesLength(mem, addr, cols, lines - 1, format);
      HexRowTextLength(Row(mem, LineStart(addr, cols, lines - 1), cols), format);
      MulSucc(lines - 1, cols * Stride(format));
    }
  }

  lemma {:induction false} HexLinesPrefix(mem: u64 -> u8, addr: u64, cols: nat, i: nat, lines: nat, format: Format)
    requires i <= lines
    ensures HexLines(mem, addr, cols, i, format) <= HexLines(mem, addr, cols, lines, format)
    decreases lines
  {
    if i < lines {
      var before, last := HexLines(mem, addr, cols, i, format), HexLines(mem, addr, cols, lines - 1, format);
      assert before <= last by {
        HexLinesPrefix(mem, addr, cols, i, lines - 1, format);
      }
      assert last <= HexLines(mem, addr, cols, lines, format) by {
        HexLinesStep(mem, addr, cols, lines - 1, format);
      }
      PrefixTrans(before, last, HexLines(mem, addr, cols, lines, format));
    }
  }

  lemma {:induction false} HexLinesStep(mem: u64 -> u8, addr: u64, cols: nat, n: nat, format: Format)
    ensures HexLines(mem, addr, cols, n, format) <= HexLines(mem, addr, cols, n + 1, format)
  {
    HexLinesSucc(mem, addr, cols, n, format);
    PrefixOfConcat3(HexLines(mem, addr, cols, n, format), HexRowText(Row(mem, LineStart(addr, cols, n), cols), format), "\n");
  }

  lemma {:induction false} AsciiLinesLength(mem: u64 -> u8, addr: u64, cols: nat, lines: nat)
    ensures |AsciiLines(mem, addr, cols, lines)| == lines * (cols + 1)
  {
    if lines > 0 {
      AsciiLinesLength(mem, addr, cols, lines - 1);
      MulSucc(lines - 1, cols + 1);
    }
  }

  lemma {:induction false} AsciiLinesPrefix(mem: u64 -> u8, addr: u64, cols: nat, i: nat, lines: nat)
    requires i <= lines
    ensures AsciiLines(mem, addr, cols, i) <= AsciiLines(mem, addr, cols, lines)
    decreases lines
  {
    if i < lines {
      var m := lines - 1;
      AsciiLinesPrefix(mem, addr, cols, i, m);
      AsciiLinesSucc(mem, addr, cols, m);
      PrefixOfConcat3(AsciiLines(mem, addr, cols, m), AsciiRowText(Row(mem, LineStart(addr, cols, m), cols)), "\n");
      PrefixTrans(AsciiLines(mem, addr, cols, i), AsciiLines(mem, addr, cols, m), AsciiLines(mem, addr, cols, lines));
    }
  }

  // ------------------------------------------------------ position <-> address

  /** `hexPositionToAddress`: characters 3k..3k+2 (hex) or 4k..4k+3 (octal) belong to byte k. */
  function HexPositionToAddress(first: u64, position: int, format: Format): u64
  {
    Wrap64(first + TruncDiv(position, Stride(format)))
  }

  /** `hexAddressToPosition`: 64-bit difference times the stride, returned as a C++ `int`. */
  function HexAddressToPosition(first: u64, address: u64, format: Format): i32
  {
    ToInt32(Wrap64(Wrap64(address - first) * Stride(format)))
  }

  /** `asciiPositionToAddress`: each line holds `cols` characters and a newline. */
  function AsciiPositionToAddress(first: u64, position: int, cols: int): u64
    requires cols >= 0
  {
    Wrap64(first + (position - TruncDiv(position, cols + 1)))
  }

  /** `asciiAddressToPosition`: one extra character per completed line. */
  function AsciiAddressToPosition(first: u64, address: u64, cols: int): i32
    requires cols >= 1
  {
    var local := Wrap64(address - first);
    ToInt32(Wrap64(local + local / cols))
  }

  /** A loaded address survives the trip to a hex position and back. */
  lemma {:induction false} HexAddressRoundTrip(first: u64, address: u64, format: Format)
    requires first <= address && (address - first) * Stride(format) < 0x8000_0000
    ensures HexPositionToAddress(first, HexAddressToPosition(first, address, format), format) == address
  {
    var k := address - first;
    var s := Stride(format);
    assert HexAddressToPosition(first, address, format) == k * s;
    DivUnique(k * s, s, k, 0);
  }

  /** A hex position comes back as the first character of its byte. */
  lemma {:induction false} HexPositionRoundTrip(first: u64, position: int, format: Format)
    requires 0 <= position < 0x8000_0000 && first + position / Stride(format) <= UINT64_MAX
    ensures HexAddressToPosition(first, HexPositionToAddress(first, position, format), format)
            == position - position % Stride(format)
  {
    var s := Stride(format);
    var k := position / s;
    DivMulBounds(position, s);
    assert TruncDiv(position, s) == k;
    var address := first + k;
    assert HexPositionToAddress(first, position, format) == address;
    assert Wrap64(address - first) == k;
    MulNonneg(k, s);
    assert 0 <= k * s <= position;
    assert Wrap64(k * s) == k * s;
    assert ToInt32(k * s) == k * s;
  }

  /** A loaded address survives the trip to an ASCII position and back. */
  lemma {:induction false} AsciiAddressRoundTrip(first: u64, address: u64, cols: int)
    requires cols >= 1 && first <= address
    requires (address - first) + (address - first) / cols < 0x8000_0000
    ensures AsciiPositionToAddress(first, AsciiAddressToPosition(first, address, cols), cols) == address
  {
    var local := address - first;
    var p := local + local / cols;
    assert Wrap64(address - first) == local;
    assert AsciiAddressToPosition(first, address, cols) == p;
    AsciiLineOfOffset(local, cols);
    assert p >= 0;
    assert TruncDiv(p, cols + 1) == local / cols;
  }

  /** Offset `local` has `local / cols` newlines before it. */
  lemma {:induction false} AsciiLineOfOffset(local: nat, cols: int)
    requires cols >= 1
    ensures 0 <= local / cols <= local
    ensures (local + local / cols) / (cols + 1) == local / cols
  {
    var q, r := local / cols, local % cols;
    DivMulBounds(local, cols);
    MulSucc(q, cols);
    DivUnique(local + q, cols + 1, q, r);
  }

  /** A position that is not a newline comes back unchanged from its ASCII address. */
  lemma {:induction false} AsciiPositionRoundTrip(first: u64, position: int, cols: int)
    requires cols >= 1 && 0 <= position < 0x8000_0000
    requires position % (cols + 1) != cols
    requires first + position <= UINT64_MAX
    ensures AsciiAddressToPosition(first, AsciiPositionToAddress(first, position, cols), cols) == position
  {
    var q := position / (cols + 1);
    var local := position - q;
    AsciiOffsetOfPosition(position, cols);
    assert AsciiPositionToAddress(first, position, cols) == first + local;
    assert Wrap64(first + local - first) == local;
  }

  /** Removing the newlines before a character that is not a newline, and putting them back. */
  lemma {:induction false} AsciiOffsetOfPosition(position: nat, cols: int)
    requires cols >= 1 && position % (cols + 1) != cols
    ensures var local := position - position / (cols + 1);
      0 <= local <= position && local / cols == position / (cols + 1)
  {
    var q, r := position / (cols + 1), position % (cols + 1);
    var local := position - q;
    DivMulBounds(position, cols + 1);
    MulSucc(q, cols);
    assert local == q * cols + r;
    MulNonneg(q, cols);
    DivUnique(local, cols, q, r);
  }

  /**
   * The byte column and the position conversion agree: the item around any
   * character of the dump is the byte at the address `hexPositionToAddress`
   * gives for that character.
   */
  lemma {:induction false} HexDumpShowsAddress(mem: u64 -> u8, first: u64, cols: nat, lines: nat, format: Format, position: int)
    requires cols >= 1 && 0 <= position < lines * (cols * Stride(format))
    ensures var s := Stride(format);
      var k := position / s;
      var text := HexLines(mem, first, cols, lines, format);
      k * s + ItemWidth(format) <= |text| &&
      text[k * s..k * s + ItemWidth(format)] == ByteItem(mem(HexPositionToAddress(first, position, format)), format)
  {
    var k := position / Stride(format);
    HexDumpRow(mem, first, cols, lines, format, position);
    RowAt(mem, LineStart(first, cols, k / cols), cols, k % cols);
    HexDumpAddress(first, cols, position, format);
  }

  /** The item under `position` is byte `k % cols` of line `k / cols`, where `k` counts items. */
  lemma {:induction false} HexDumpRow(mem: u64 -> u8, first: u64, cols: nat, lines: nat, format: Format, position: int)
    requires cols >= 1 && 0 <= position < lines * (cols * Stride(format))
    ensures var s := Stride(format);
      var k := position / s;
      var text := HexLines(mem, first, cols, lines, format);
      0 <= k / cols && 0 <= k % cols < cols &&
      k * s + ItemWidth(format) <= |text| &&
      text[k * s..k * s + ItemWidth(format)] == ByteItem(Row(mem, LineStart(first, cols, k / cols), cols)[k % cols], format)
  {
    var s := Stride(format);
    var k := position / s;
    var i, j := k / cols, k % cols;
    DumpIndex(position, lines, cols, s);
    HexLinesLength(mem, first, cols, i, format);
    assert |HexLines(mem, first, cols, i, format)| + j * s == k * s;
    HexLineSlice(mem, first, cols, lines, format, i, j);
  }

  /** `hexPositionToAddress` of a position in line `i`, column `j` of the dump. */
  lemma {:induction false} HexDumpAddress(first: u64, cols: nat, position: int, format: Format)
    requires cols >= 1 && 0 <= position
    ensures var k := position / Stride(format);
      HexPositionToAddress(first, position, format) == Wrap64(LineStart(first, cols, k / cols) + k % cols)
  {
    var k := position / Stride(format);
    assert TruncDiv(position, Stride(format)) == k;
    LineColumnAddress(first, cols, k);
  }

  /** Item `k` of the dump sits in line `k / cols`, column `k % cols`. */
  lemma {:induction false} LineColumnAddress(first: u64, cols: nat, k: nat)
    requires cols >= 1
    ensures Wrap64(LineStart(first, cols, k / cols) + k % cols) == Wrap64(first + k)
  {
    var i, j := k / cols, k % cols;
    DivMulBounds(k, cols);
    LineStartIs(first, cols, i);
    WrapStep(first, i * cols, j);
  }

  lemma {:induction false} HexLinesSucc(mem: u64 -> u8, addr: u64, cols: nat, i: nat, format: Format)
    ensures HexLines(mem, addr, cols, i + 1, format)
      == HexLines(mem, addr, cols, i, format) + HexRowText(Row(mem, LineStart(addr, cols, i), cols), format) + "\n"
  {
  }

  lemma {:induction false} AsciiLinesSucc(mem: u64 -> u8, addr: u64, cols: nat, i: nat)
    ensures AsciiLines(mem, addr, cols, i + 1)
      == AsciiLines(mem, addr, cols, i) + AsciiRowText(Row(mem, LineStart(addr, cols, i), cols)) + "\n"
  {
  }

  /** The first `i` lines followed by line `i` are a prefix of the whole column. */
  lemma {:induction false} HexLinesLinePrefix(mem: u64 -> u8, addr: u64, cols: nat, lines: nat, format: Format, i: nat)
    requires i < lines
    ensures var upto := HexLines(mem, addr, cols, i, format) + HexRowText(Row(mem, LineStart(addr, cols, i), cols), format) + "\n";
      upto <= HexLines(mem, addr, cols, lines, format)
  {
    HexLinesSucc(mem, addr, cols, i, format);
    HexLinesPrefix(mem, addr, cols, i + 1, lines, format);
  }

  /** Item `j` of line `i` sits right after the first `i` lines. */
  lemma {:induction false} HexLineSlice(mem: u64 -> u8, first: u64, cols: nat, lines: nat, format: Format, i: nat, j: nat)
    requires i < lines && j < cols
    ensures var before := |HexLines(mem, first, cols, i, format)|;
      var text := HexLines(mem, first, cols, lines, format);
      0 <= j * Stride(format) && before + j * Stride(format) + ItemWidth(format) <= |text| &&
      text[before + j * Stride(format)..before + j * Stride(format) + ItemWidth(format)]
        == ByteItem(Row(mem, LineStart(first, cols, i), cols)[j], format)
  {
    var row := Row(mem, LineStart(first, cols, i), cols);
    var line := HexRowText(row, format);
    var a, w := j * Stride(format), ItemWidth(format);
    assert 0 <= a && a + w <= |line| && line[a..a + w] == ByteItem(row[j], format) by {
      HexRowTextAt(row, format, j);
    }
    HexLineSliceText(mem, first, cols, lines, format, i, a, w);
  }

  /** Characters of line `i` keep their place once the earlier lines are put before it. */
  lemma {:induction false} HexLineSliceText(mem: u64 -> u8, first: u64, cols: nat, lines: nat, format: Format, i: nat, a: int, w: int)
    requires i < lines && 0 <= a && 0 <= w && a + w <= |HexRowText(Row(mem, LineStart(first, cols, i), cols), format)|
    ensures var before := |HexLines(mem, first, cols, i, format)|;
      var text := HexLines(mem, first, cols, lines, format);
      var line := HexRowText(Row(mem, LineStart(first, cols, i), cols), format);
      before + a + w <= |text| && text[before + a..before + a + w] == line[a..a + w]
  {
    var before := HexLines(mem, first, cols, i, format);
    var line := HexRowText(Row(mem, LineStart(first, cols, i), cols), format);
    var text := HexLines(mem, first, cols, lines, format);
    HexLinesLinePrefix(mem, first, cols, lines, format, i);
    SliceThroughPrefix(text, before, line, "\n", a, w);
  }

  /** Splitting a character position of the byte column into line `i`, column `j`. */
  lemma {:induction false} DumpIndex(position: int, lines: nat, cols: nat, s: nat)
    requires cols >= 1 && s >= 1 && 0 <= position < lines * (cols * s)
    ensures var k := position / s;
      var i, j := k / cols, k % cols;
      0 <= k && 0 <= i < lines && 0 <= j < cols && i * cols + j == k &&
      0 <= j * s && k * s <= position < k * s + s && i * (cols * s) + j * s == k * s
  {
    var k := position / s;
    var i, j := k / cols, k % cols;
    DivMulBounds(position, s);
    MulAssoc(lines, cols, s);
    MulLtCancel(k, lines * cols, s);
    DivMulBounds(k, cols);
    MulLtCancel(i, lines, cols);
    MulNonneg(j, s);
    MulDist(i * cols, j, s);
    MulAssoc(i, cols, s);
  }

  /**
   * The ASCII column and the position conversion agree: every character that
   * is not a line end shows the byte at `asciiPositionToAddress`.
   */
  lemma {:induction false} AsciiDumpShowsAddress(mem: u64 -> u8, first: u64, cols: nat, lines: nat, position: int)
    requires cols >= 1 && 0 <= position < lines * (cols + 1)
    requires position % (cols + 1) != cols
    ensures var text := AsciiLines(mem, first, cols, lines);
      position < |text| && text[position] == AsciiChar(mem(AsciiPositionToAddress(first, position, cols)))
  {
    var i, j := position / (cols + 1), position % (cols + 1);
    AsciiDumpRow(mem, first, cols, lines, position);
    RowAt(mem, LineStart(first, cols, i), cols, j);
    AsciiDumpAddress(first, cols, position);
  }

  /** Position `position` of the ASCII column is byte `j` of row `i`, for the line and column it falls in. */
  lemma {:induction false} AsciiDumpRow(mem: u64 -> u8, first: u64, cols: nat, lines: nat, position: int)
    requires cols >= 1 && 0 <= position < lines * (cols + 1)
    requires position % (cols + 1) != cols
    ensures var i, j := position / (cols + 1), position % (cols + 1);
      var text := AsciiLines(mem, first, cols, lines);
      0 <= i && 0 <= j < cols && position < |text| &&
      text[position] == AsciiChar(Row(mem, LineStart(first, cols, i), cols)[j])
  {
    var i, j := position / (cols + 1), position % (cols + 1);
    DivMulBounds(position, cols + 1);
    MulLtCancel(i, lines, cols + 1);
    MulSucc(i, cols);
    AsciiLinesLength(mem, first, cols, i);
    assert |AsciiLines(mem, first, cols, i)| + j == position;
    AsciiLineChar(mem, first, cols, lines, i, j);
  }

  /** Character `j` of line `i` sits right after the first `i` lines. */
  lemma {:induction false} AsciiLineChar(mem: u64 -> u8, first: u64, cols: nat, lines: nat, i: nat, j: nat)
    requires i < lines && j < cols
    ensures var before := |AsciiLines(mem, first, cols, i)|;
      var text := AsciiLines(mem, first, cols, lines);
      before + j < |text| && text[before + j] == AsciiChar(Row(mem, LineStart(first, cols, i), cols)[j])
  {
    AsciiLineCharText(mem, first, cols, lines, i, j);
    AsciiRowTextAt(Row(mem, LineStart(first, cols, i), cols), j);
  }

  /** Characters of line `i` keep their place once the earlier lines are put before it. */
  lemma {:induction false} AsciiLineCharText(mem: u64 -> u8, first: u64, cols: nat, lines: nat, i: nat, j: nat)
    requires i < lines && j < cols
    ensures var before := |AsciiLines(mem, first, cols, i)|;
      var text := AsciiLines(mem, first, cols, lines);
      var line := AsciiRowText(Row(mem, LineStart(first, cols, i), cols));
      before + j < |text| && text[before + j] == line[j]
  {
    var before := AsciiLines(mem, first, cols, i);
    var line := AsciiRowText(Row(mem, LineStart(first, cols, i), cols));
    assert |line| == cols;
    AsciiLinesLinePrefix(mem, first, cols, lines, i);
    IndexThroughPrefix(AsciiLines(mem, first, cols, lines), before, line, "\n", j);
  }

  /** The first `i` lines followed by line `i` are a prefix of the whole column. */
  lemma {:induction false} AsciiLinesLinePrefix(mem: u64 -> u8, addr: u64, cols: nat, lines: nat, i: nat)
    requires i < lines
    ensures var upto := AsciiLines(mem, addr, cols, i) + AsciiRowText(Row(mem, LineStart(addr, cols, i), cols)) + "\n";
      upto <= AsciiLines(mem, addr, cols, lines)
  {
    assert AsciiLines(mem, addr, cols, i + 1)
      == AsciiLines(mem, addr, cols, i) + AsciiRowText(Row(mem, LineStart(addr, cols, i), cols)) + "\n";
    AsciiLinesPrefix(mem, addr, cols, i + 1, lines);
  }

  /** `asciiPositionToAddress` of a position in line `i`, column `j` of the dump. */
  lemma {:induction false} AsciiDumpAddress(first: u64, cols: nat, position: int)
    requires cols >= 1 && 0 <= position
    ensures var i, j := position / (cols + 1), position % (cols + 1);
      AsciiPositionToAddress(first, position, cols) == Wrap64(LineStart(first, cols, i) + j)
  {
    var i, j := position / (cols + 1), position % (cols + 1);
    DivMulBounds(position, cols + 1);
    MulSucc(i, cols);
    assert TruncDiv(position, cols + 1) == i;
    assert position - i == i * cols + j;
    LineStartIs(first, cols, i);
    WrapStep(first, i * cols, j);
  }

  // ------------------------------------------------------------------ headers

  /** Space printed before each header digit: one for hex, two for octal. */
  function HeaderSpace(format: Format): string
  {
    if format == Octal then "  " else " "
  }

  /** The hex header for columns 0..n-1; in pairs mode only even columns get the extra separator. */
  function HexHeader(n: nat, pairs: bool, format: Format): string
  {
    if n == 0 then ""
    else
      var i := n - 1;
      HexHeader(i, pairs, format) + (if i > 0 && (!pairs || i % 2 == 0) then " " else "") +
      HeaderSpace(format) + [UpperHexDigit(i % 16)]
  }

  function AsciiHeader(n: nat): (s: string)
    ensures |s| == n && forall i :: 0 <= i < n ==> s[i] == UpperHexDigit(i % 16)
  {
    seq(n, (i: int) requires 0 <= i < n => UpperHexDigit(i % 16))
  }

  lemma {:induction false} AsciiHeaderSucc(n: nat)
    ensures AsciiHeader(n + 1) == AsciiHeader(n) + [UpperHexDigit(n % 16)]
  {
    assert forall i :: 0 <= i < n + 1 ==> AsciiHeader(n + 1)[i] == (AsciiHeader(n) + [UpperHexDigit(n % 16)])[i];
  }

  /** `updateHeaders`: one digit `i & 0xF` per column. */
  method UpdateHeaders(cols: int, pairs: bool, format: Format) returns (hexHeader: string, asciiHeader: string)
    ensures hexHeader == HexHeader(Max(cols, 0), pairs, format)
    ensures asciiHeader == AsciiHeader(Max(cols, 0))
  {
    hexHeader := "";
    var i := 0;
    while i < cols
      invariant 0 <= i <= Max(cols, 0) && hexHeader == HexHeader(i, pairs, format)
    {
      if i > 0 && ((pairs && i % 2 == 0) || !pairs) {
        hexHeader := hexHeader + " ";
      }
      hexHeader := hexHeader + HeaderSpace(format) + [UpperHexDigit(i % 16)];
      i := i + 1;
    }
    asciiHeader := "";
    i := 0;
    while i < cols
      invariant 0 <= i <= Max(cols, 0) && asciiHeader == AsciiHeader(i)
    {
      AsciiHeaderSucc(i);
      asciiHeader := asciiHeader + [UpperHexDigit(i % 16)];
      i := i + 1;
    }
  }

  /**
   * Without pairs the header is as wide as a line of items, and the digit
   * of column j sits above the last digit of item j.
   */
  lemma {:induction false} HexHeaderAligned(n: nat, format: Format, j: nat)
    requires j < n
    ensures |HexHeader(n, false, format)| == n * Stride(format) - 1
    ensures HexHeader(n, false, format)[j * Stride(format) + ItemWidth(format) - 1] == UpperHexDigit(j % 16)
    decreases n
  {
    var s, w := Stride(format), ItemWidth(format);
    HexHeaderLength(n, format);
    MulSucc(j, s);
    if j < n - 1 {
      HexHeaderAligned(n - 1, format, j);
      HexHeaderPrefix(n, format);
      MulMonoLe(j + 1, n - 1, s);
      assert j * s + w - 1 < |HexHeader(n - 1, false, format)|;
      IndexOfPrefix(HexHeader(n, false, format), HexHeader(n - 1, false, format), j * s + w - 1);
    } else {
      HexHeaderLast(n, format);
      assert j * s + w - 1 == |HexHeader(n, false, format)| - 1;
    }
  }

  lemma {:induction false} HexHeaderPrefix(n: nat, format: Format)
    requires n >= 1
    ensures HexHeader(n - 1, false, format) <= HexHeader(n, false, format)
  {
    var front := HexHeader(n - 1, false, format);
    var sep := if n - 1 > 0 then " " else "";
    PrefixOfConcat(front, sep);
    PrefixExtend(front, front + sep, HexHeader(n, false, format), HeaderSpace(format), [UpperHexDigit((n - 1) % 16)]);
  }

  lemma {:induction false} HexHeaderLast(n: nat, format: Format)
    requires n >= 1
    ensures |HexHeader(n, false, format)| >= 1
    ensures HexHeader(n, false, format)[|HexHeader(n, false, format)| - 1] == UpperHexDigit((n - 1) % 16)
  {
  }

  lemma {:induction false} HexHeaderLength(n: nat, format: Format)
    requires n >= 1
    ensures |HexHeader(n, false, format)| == n * Stride(format) - 1
  {
    if n > 1 {
      HexHeaderLength(n - 1, format);
    }
  }

  // ----------------------------------------------------------- loaded window

  /** `hex.cols` with 0 replaced by 16 to avoid a division by zero. */
  function ColsFor(configCols: int): int
  {
    if configCols == 0 then 16 else configCols
  }

  /** Lines `refresh` loads: a requested selection plus two buffers, or three buffers. */
  function RefreshLoadLines(cols: int, bufferLines: int, reqStart: u64, reqEnd: u64): int
    requires cols >= 1
  {
    if reqEnd != 0 && reqStart != 0 && reqEnd > reqStart then (reqEnd - reqStart) / cols + bufferLines * 2
    else bufferLines * 3
  }

  /**
   * The adjustment of `curAddrLineOffset` as written: the upper test
   * compares against `curAddrLineOffset * cols`, the lines above the seek,
   * instead of the lines below it.
   */
  function SeekLineAsWritten(addr: u64, cols: int, bufferLines: int, loadLines: int): (cur: int)
    requires cols >= 1
  {
    var cur0 := bufferLines;
    var cur1 := if addr < cur0 * cols then addr / cols else cur0;
    if addr > RVA_MAX - cur1 * cols then loadLines - (RVA_MAX - addr) / cols else cur1
  }

  /** The window then runs past RVA_MAX and `last_loaded_address` wraps below the seek. */
  lemma {:induction false} SeekLineAsWrittenWraps()
    ensures var cur := SeekLineAsWritten(RVA_MAX - 200, 16, 10, 30);
      cur == 10 && Wrap64(RVA_MAX - 200 + (30 - cur) * 16) == 119
  {
  }

  /**
   * The seek line: the buffer size, lowered when fewer lines fit above the
   * address, raised when the lines below it would run past RVA_MAX.
   */
  function SeekLine(addr: u64, cols: int, bufferLines: int, loadLines: int): (cur: int)
    requires cols >= 1 && 0 <= bufferLines <= loadLines && loadLines * cols < 0x8000_0000
    ensures 0 <= cur <= loadLines
    ensures cur * cols <= addr
    ensures addr + (loadLines - cur) * cols <= RVA_MAX
    ensures bufferLines * cols <= addr <= RVA_MAX - (loadLines - bufferLines) * cols ==> cur == bufferLines
  {
    var cur1 := SeekAbove(addr, cols, bufferLines);
    if addr > RVA_MAX - (loadLines - cur1) * cols then
      SeekBelowFits(addr, cols, loadLines, cur1);
      loadLines - (RVA_MAX - addr) / cols
    else
      cur1
  }

  /** The seek line lowered to the number of whole lines above `addr`. */
  function SeekAbove(addr: u64, cols: int, bufferLines: int): (cur: int)
    requires cols >= 1 && 0 <= bufferLines
    ensures 0 <= cur <= bufferLines && cur * cols <= addr
    ensures bufferLines * cols <= addr ==> cur == bufferLines
  {
    if addr < bufferLines * cols then
      DivMulBounds(addr, cols);
      MulLtCancel(addr / cols, bufferLines, cols);
      addr / cols
    else
      bufferLines
  }

  /** Raising the seek line so that the lines below `addr` stay below RVA_MAX. */
  lemma {:induction false} SeekBelowFits(addr: u64, cols: int, loadLines: int, cur1: int)
    requires cols >= 1 && 0 <= cur1 <= loadLines && loadLines * cols < 0x8000_0000
    requires addr > RVA_MAX - (loadLines - cur1) * cols
    ensures var cur := loadLines - (RVA_MAX - addr) / cols;
      0 <= cur <= loadLines && cur * cols <= addr && addr + (loadLines - cur) * cols <= RVA_MAX
  {
    var below := (RVA_MAX - addr) / cols;
    DivMulBounds(RVA_MAX - addr, cols);
    MulLtCancel(below, loadLines - cur1, cols);
    MulMonoLe(loadLines - below, loadLines, cols);
  }

  /** The window `refresh` loads: its geometry, the seek line and the first and one-past-last address. */
  method RefreshWindow(addr: u64, configCols: int, displayedLines: int, reqStart: u64, reqEnd: u64)
    returns (c: int, bl: int, loadLines: int, cur: int, first: u64, last: u64)
    requires configCols >= 0 && displayedLines >= 0
    requires RefreshLoadLines(ColsFor(configCols), displayedLines * 10, reqStart, reqEnd) * ColsFor(configCols) < 0x8000_0000
    ensures c == ColsFor(configCols) && c >= 1 && bl == displayedLines * 10
    ensures loadLines == RefreshLoadLines(c, bl, reqStart, reqEnd) && 0 <= bl <= loadLines && loadLines * c < 0x8000_0000
    ensures cur == SeekLine(addr, c, bl, loadLines)
    ensures first + cur * c == addr && last == first + loadLines * c
  {
    c := ColsFor(configCols);
    bl := displayedLines * 10;
    loadLines := RefreshLoadLines(c, bl, reqStart, reqEnd);
    cur := SeekLine(addr, c, bl, loadLines);
    first, last := WindowBounds(addr, c, loadLines, cur);
  }

  /** First and one-past-last address of a window of `loadLines` lines with the seek on line `cur`. */
  method WindowBounds(addr: u64, cols: int, loadLines: int, cur: int) returns (first: u64, last: u64)
    requires cols >= 1 && 0 <= cur <= loadLines && cur * cols <= addr
    requires addr + (loadLines - cur) * cols <= RVA_MAX
    ensures first + cur * cols == addr && last == first + loadLines * cols
  {
    MulNonneg(cur, cols);
    MulNonneg(loadLines - cur, cols);
    MulDist(loadLines, cur, cols);
    first := addr - cur * cols;
    last := addr + (loadLines - cur) * cols;
  }

  /** Start of the window and number of lines that the upward branch of `scrollChanged` loads, as written. */
  function ScrollUpAsWritten(first: u64, cols: int, bufferLines: int): (r: (u64, int))
    requires cols >= 1 && bufferLines >= 0
  {
    var shift := bufferLines * cols;
    var zero: u64 := 0;
    if shift > first then (zero, first / cols) else (first - shift, bufferLines)
  }

  /** Scrolling up from address 5 moves the window start to 0 while no line is loaded. */
  lemma {:induction false} ScrollUpAsWrittenShiftsWithoutLines()
    ensures ScrollUpAsWritten(5, 16, 10) == (0, 0)
  {
  }

  /** The downward branch as written: the shift and the number of lines loaded. */
  function ScrollDownAsWritten(last: u64, cols: int, bufferLines: int): (r: (int, int))
    requires cols >= 1 && bufferLines >= 0
  {
    var shift := bufferLines * cols;
    if last > RVA_MAX - shift then (RVA_MAX - last, (RVA_MAX - last) / cols) else (shift, bufferLines)
  }

  /** Near the top of the address space the shift is 83 bytes while five 16-byte lines are appended. */
  lemma {:induction false} ScrollDownAsWrittenShiftsPastLines()
    ensures ScrollDownAsWritten(RVA_MAX - 83, 16, 10) == (83, 5)
  {
  }

  class HexTextView {
    var format: Format
    var cols: int
    var bufferLines: int
    var curAddrLineOffset: int
    var firstLoaded: u64
    var lastLoaded: u64
    var offsetText: string
    var hexText: string
    var asciiText: string
    /** The address the last refresh was for, which a refresh without one reuses. */
    var currentPos: u64
    /** Number of lines of `cols` bytes the text columns show. */
    ghost var loadedLines: int

    /** The window is `loadedLines` whole lines of `cols` bytes from `firstLoaded` to `lastLoaded`. */
    ghost predicate Valid()
      reads this
    {
      cols >= 1 && 0 <= bufferLines <= loadedLines && loadedLines * cols < 0x8000_0000 &&
      lastLoaded == firstLoaded + loadedLines * cols
    }

    constructor (f: Format)
      ensures format == f && Valid() && firstLoaded == 0 && lastLoaded == 0 && currentPos == 0
    {
      format, cols, bufferLines, curAddrLineOffset := f, 16, 0, 0;
      currentPos := 0;
      firstLoaded, lastLoaded := 0, 0;
      offsetText, hexText, asciiText := "", "", "";
      loadedLines := 0;
    }

    /**
     * `refresh`: loads the window around `addr` and renders it; `RVA_INVALID`
     * (the default argument) stands for the current position, any other
     * address becomes it.
     */
    method Refresh(mem: u64 -> u8, addr: u64, configCols: int, displayedLines: int, reqStart: u64, reqEnd: u64)
      requires configCols >= 0 && displayedLines >= 0
      requires RefreshLoadLines(ColsFor(configCols), displayedLines * 10, reqStart, reqEnd) * ColsFor(configCols) < 0x8000_0000
      modifies this
      ensures currentPos == if addr == RVA_INVALID then old(currentPos) else addr
      ensures Valid() && format == old(format)
      ensures cols == ColsFor(configCols) && bufferLines == displayedLines * 10
      ensures loadedLines == RefreshLoadLines(cols, bufferLines, reqStart, reqEnd)
      ensures curAddrLineOffset == SeekLine(currentPos, cols, bufferLines, loadedLines)
      ensures firstLoaded + curAddrLineOffset * cols == currentPos
      ensures offsetText == OffsetLines(firstLoaded, cols, loadedLines)
      ensures hexText == HexLines(mem, firstLoaded, cols, loadedLines, format)
      ensures asciiText == AsciiLines(mem, firstLoaded, cols, loadedLines)
    {
      if addr != RVA_INVALID {
        currentPos := addr;
      }
      LoadAround(mem, currentPos, configCols, displayedLines, reqStart, reqEnd);
    }

    /** The rest of `refresh`, once the address is settled: the window around `pos`, rendered. */
    method LoadAround(mem: u64 -> u8, pos: u64, configCols: int, displayedLines: int, reqStart: u64, reqEnd: u64)
      requires configCols >= 0 && displayedLines >= 0
      requires RefreshLoadLines(ColsFor(configCols), displayedLines * 10, reqStart, reqEnd) * ColsFor(configCols) < 0x8000_0000
      modifies this
      ensures Valid() && format == old(format) && currentPos == old(currentPos)
      ensures cols == ColsFor(configCols) && bufferLines == displayedLines * 10
      ensures loadedLines == RefreshLoadLines(cols, bufferLines, reqStart, reqEnd)
      ensures curAddrLineOffset == SeekLine(pos, cols, bufferLines, loadedLines)
      ensures firstLoaded + curAddrLineOffset * cols == pos
      ensures offsetText == OffsetLines(firstLoaded, cols, loadedLines)
      ensures hexText == HexLines(mem, firstLoaded, cols, loadedLines, format)
      ensures asciiText == AsciiLines(mem, firstLoaded, cols, loadedLines)
    {
      var c, bl, loadLines, cur, first, last := RefreshWindow(pos, configCols, displayedLines, reqStart, reqEnd);
      assert Max(loadLines, 0) == loadLines;
      var o, h, a := FetchHexdump(mem, first, c, loadLines, format);
      cols, bufferLines, curAddrLineOffset := c, bl, cur;
      firstLoaded, lastLoaded := first, last;
      offsetText, hexText, asciiText := o, h, a;
      loadedLines := loadLines;
    }

    /**
     * The upward branch of `scrollChanged`: up to `bufferLines` lines are
     * prepended, never more than lie above `firstLoaded`, and as many are
     * dropped at the bottom. The shift is a whole number of lines.
     */
    method ScrollUp()
      requires Valid()
      modifies this
      ensures Valid() && cols == old(cols) && bufferLines == old(bufferLines) && loadedLines == old(loadedLines)
      ensures firstLoaded == old(firstLoaded) - ScrollUpShift(old(firstLoaded), cols, bufferLines)
    {
      var shift := ScrollUpShift(firstLoaded, cols, bufferLines);
      firstLoaded := firstLoaded - shift;
      lastLoaded := lastLoaded - shift;
    }

    /**
     * The downward branch: up to `bufferLines` lines are appended, never
     * past RVA_MAX, and as many are dropped at the top.
     */
    method ScrollDown()
      requires Valid()
      modifies this
      ensures Valid() && cols == old(cols) && bufferLines == old(bufferLines) && loadedLines == old(loadedLines)
      ensures firstLoaded == old(firstLoaded) + ScrollDownShift(old(lastLoaded), cols, bufferLines)
      ensures lastLoaded <= RVA_MAX
    {
      var shift := ScrollDownShift(lastLoaded, cols, bufferLines);
      firstLoaded := firstLoaded + shift;
      lastLoaded := lastLoaded + shift;
    }

    /** `scrollChanged`: loads more lines when the view comes within half a buffer of either end. */
    method ScrollChanged(firstLine: int, lastLine: int, blockCount: int)
      requires Valid()
      modifies this
      ensures Valid() && cols == old(cols) && bufferLines == old(bufferLines) && loadedLines == old(loadedLines)
      ensures firstLine >= bufferLines / 2 && blockCount - lastLine >= bufferLines / 2 ==>
                firstLoaded == old(firstLoaded) && lastLoaded == old(lastLoaded)
    {
      if firstLine < bufferLines / 2 {
        ScrollUp();
      }
      if blockCount - lastLine < bufferLines / 2 {
        ScrollDown();
      }
    }
  }

  /** The upward shift in bytes: a buffer of lines, or the whole lines above the window start. */
  function ScrollUpShift(first: u64, cols: int, bufferLines: int): (shift: int)
    requires cols >= 1 && bufferLines >= 0
    ensures 0 <= shift <= first && shift <= bufferLines * cols && shift % cols == 0
    ensures bufferLines * cols <= first ==> shift == bufferLines * cols
  {
    if bufferLines * cols > first then
      DivMulBounds(first, cols);
      MulLtCancel(first / cols, bufferLines, cols);
      MulMonoLe(first / cols, bufferLines, cols);
      MulMod(first / cols, cols);
      first / cols * cols
    else
      MulMod(bufferLines, cols);
      bufferLines * cols
  }

  /** The downward shift in bytes, which loads only whole lines and stops at RVA_MAX. */
  function ScrollDownShift(last: u64, cols: int, bufferLines: int): (shift: int)
    requires cols >= 1 && bufferLines >= 0
    ensures 0 <= shift <= RVA_MAX - last && shift <= bufferLines * cols && shift % cols == 0
    ensures bufferLines * cols <= RVA_MAX - last ==> shift == bufferLines * cols
  {
    if last > RVA_MAX - bufferLines * cols then
      DivMulBounds(RVA_MAX - last, cols);
      MulLtCancel((RVA_MAX - last) / cols, bufferLines, cols);
      MulMonoLe((RVA_MAX - last) / cols, bufferLines, cols);
      MulMod((RVA_MAX - last) / cols, cols);
      (RVA_MAX - last) / cols * cols
    else
      MulMod(bufferLines, cols);
      bufferLines * cols
  }
}
