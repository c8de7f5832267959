/**
 * The hex view of src/widgets/HexWidget.cpp: item sizes and formats, the
 * decoding of one item from the cached bytes, byte colouring, cursor and
 * scrolling arithmetic, and the screen-sized block cache `MemoryCache`.
 *
 * The row length `itemRowByteLen()` and the number of visible lines come
 * from the widget's geometry; they are the fields `rowBytes` and
 * `visibleLines` here, so `bytesPerScreen()` is their product.
 */
module HexWidget {
  import opened Common
  import HexWidgetTypes

  datatype ItemFormat = Hex | Oct | Dec | SignedDec | Float

  /** Length of `hexPrefix`, the string "0x". */
  const HEX_PREFIX_LEN: nat := 2

  // ------------------------------------------------------------- item decoding

  /** Little-endian value of a byte string: the first byte is the least significant. */
  function DecodeLE(bytes: seq<u8>): (v: nat)
    ensures v < Pow2(8 * |bytes|)
  {
    if bytes == [] then 0
    else
      assert Pow2(8 * |bytes|) == 256 * Pow2(8 * (|bytes| - 1)) by { Pow2Add(8, 8 * (|bytes| - 1)); }
      bytes[0] + 256 * DecodeLE(bytes[1..])
  }

  lemma {:induction false} Pow2Add(a: nat, b: nat)
    ensures Pow2(a + b) == Pow2(a) * Pow2(b)
    decreases a
  {
    if a > 0 {
      Pow2Add(a - 1, b);
    }
  }

  function Reverse(s: seq<u8>): (r: seq<u8>)
    ensures |r| == |s| && forall i :: 0 <= i < |s| ==> r[i] == s[|s| - 1 - i]
  {
    if s == [] then [] else Reverse(s[1..]) + [s[0]]
  }

  /** `qFromBigEndian`: the first byte is the most significant. */
  function DecodeBE(bytes: seq<u8>): (v: nat)
    ensures v < Pow2(8 * |bytes|)
  {
    DecodeLE(Reverse(bytes))
  }

  /** The `n` little-endian bytes of `v` modulo 2^(8n). */
  function EncodeLE(v: nat, n: nat): (bytes: seq<u8>)
    ensures |bytes| == n
  {
    if n == 0 then [] else [v % 256] + EncodeLE(v / 256, n - 1)
  }

  /** Decoding is the inverse of encoding for values that fit. */
  lemma {:induction false} DecodeEncodeLE(v: nat, n: nat)
    requires v < Pow2(8 * n)
    ensures DecodeLE(EncodeLE(v, n)) == v
  {
    if n > 0 {
      Pow2Add(8, 8 * (n - 1));
      DecodeEncodeLE(v / 256, n - 1);
      assert EncodeLE(v, n)[1..] == EncodeLE(v / 256, n - 1);
    }
  }

  /** Encoding is the inverse of decoding: bytes are recovered from their value. */
  lemma {:induction false} EncodeDecodeLE(bytes: seq<u8>)
    ensures EncodeLE(DecodeLE(bytes), |bytes|) == bytes
  {
    if bytes != [] {
      var rest := bytes[1..];
      EncodeDecodeLE(rest);
      var v := DecodeLE(bytes);
      assert v % 256 == bytes[0] && v / 256 == DecodeLE(rest);
    }
  }

  /** Big-endian order reads the same bytes backwards. */
  lemma {:induction false} DecodeBEReversed(bytes: seq<u8>)
    ensures DecodeBE(Reverse(bytes)) == DecodeLE(bytes)
  {
    var r := Reverse(Reverse(bytes));
    assert r == bytes;
  }

  /** Two's-complement reading of an n-byte unsigned value (`static_cast` to a signed type). */
  function SignExtend(u: nat, n: nat): (s: int)
    requires 1 <= n && u < Pow2(8 * n)
    ensures 0 <= s + Pow2(8 * n - 1) && s < Pow2(8 * n - 1)
    ensures s == u || s + Pow2(8 * n) == u
    ensures s >= 0 <==> u < Pow2(8 * n - 1)
    ensures s >= 0 ==> s == u
  {
    Pow2Add(1, 8 * n - 1);
    if u < Pow2(8 * n - 1) then u else u - Pow2(8 * n)
  }

  /** The item sizes the integer formats support: 1, 2, 4 and 8 bytes. */
  predicate IsItemSize(n: int)
  {
    n == 1 || n == 2 || n == 4 || n == 8
  }

  /**
   * `readItem` on the `itemByteLen` bytes found at the item: the unsigned
   * value, or its sign extension for the signed decimal format. `None` is
   * the invalid `QVariant()` of an unsupported size; the float
   * reinterpretation of 4- and 8-byte items is not modelled and also
   * gives `None`.
   */
  function ReadItem(bytes: seq<u8>, byteLen: int, bigEndian: bool, format: ItemFormat): (r: Option<int>)
    requires IsItemSize(byteLen) ==> |bytes| >= byteLen
    ensures r.Some? <==> IsItemSize(byteLen) && !(format == Float && byteLen >= 4)
    ensures r.Some? && format != SignedDec ==> 0 <= r.value < Pow2(8 * byteLen)
    ensures r.Some? && format == SignedDec ==> 0 <= r.value + Pow2(8 * byteLen - 1) && r.value < Pow2(8 * byteLen - 1)
  {
    if !IsItemSize(byteLen) || (format == Float && byteLen >= 4) then None
    else
      var item := bytes[..byteLen];
      var u := if byteLen == 1 || !bigEndian then DecodeLE(item) else DecodeBE(item);
      if format == SignedDec then Some(SignExtend(u, byteLen)) else Some(u)
  }

  /** The item value agrees with the bytes: re-encoding it in the same order gives them back. */
  lemma {:induction false} ReadItemRoundTrip(bytes: seq<u8>, byteLen: int, bigEndian: bool, format: ItemFormat)
    requires IsItemSize(byteLen) && |bytes| >= byteLen
    requires ReadItem(bytes, byteLen, bigEndian, format).Some?
    ensures var v := ReadItem(bytes, byteLen, bigEndian, format).value;
      var u := if v >= 0 then v else v + Pow2(8 * byteLen);
      var enc := EncodeLE(u, byteLen);
      (if byteLen == 1 || !bigEndian then enc else Reverse(enc)) == bytes[..byteLen]
  {
    var item := bytes[..byteLen];
    var little := byteLen == 1 || !bigEndian;
    ReadItemUnsigned(bytes, byteLen, bigEndian, format);
    if little {
      EncodeDecodeLE(item);
    } else {
      EncodeDecodeBE(item);
    }
  }

  /** The value `readItem` gives, taken modulo 2^(8n), is the unsigned reading of the bytes. */
  lemma {:induction false} ReadItemUnsigned(bytes: seq<u8>, byteLen: int, bigEndian: bool, format: ItemFormat)
    requires IsItemSize(byteLen) && |bytes| >= byteLen
    requires ReadItem(bytes, byteLen, bigEndian, format).Some?
    ensures var v := ReadItem(bytes, byteLen, bigEndian, format).value;
      var item := bytes[..byteLen];
      (if v >= 0 then v else v + Pow2(8 * byteLen)) == if byteLen == 1 || !bigEndian then DecodeLE(item) else DecodeBE(item)
  {
  }

  /** Encoding the big-endian value little-endian gives the bytes backwards. */
  lemma {:induction false} EncodeDecodeBE(bytes: seq<u8>)
    ensures Reverse(EncodeLE(DecodeBE(bytes), |bytes|)) == bytes
  {
    var rev := Reverse(bytes);
    EncodeDecodeLE(rev);
    assert Reverse(rev) == bytes;
  }

  // ------------------------------------------------------------------- colours

  datatype ByteColor = ZeroColor | DelColor | FFColor | PrintableColor | DefaultColor

  /** IS_PRINTABLE: the printable ASCII range, space to tilde. */
  predicate IsPrintable(b: u8) { 0x20 <= b <= 0x7e }

  /** `itemColor`: 0x00, 0x7f and 0xff have their own colours, then printable bytes. */
  function ItemColor(b: u8): (c: ByteColor)
    ensures c == ZeroColor <==> b == 0
    ensures c == DelColor <==> b == 0x7f
    ensures c == FFColor <==> b == 0xff
    ensures c == PrintableColor <==> IsPrintable(b) && b != 0
    ensures c == DefaultColor <==> !IsPrintable(b) && b !in {0, 0x7f, 0xff}
  {
    if b == 0 then ZeroColor
    else if b == 0x7f then DelColor
    else if b == 0xff then FFColor
    else if IsPrintable(b) then PrintableColor
    else DefaultColor
  }

  /** `renderAscii`: the byte's own character when printable, otherwise '.'. */
  function RenderAscii(b: u8): (c: char)
    ensures IsPrintable(b) ==> c as int == b
    ensures !IsPrintable(b) ==> c == '.'
    ensures 0x20 <= c as int <= 0x7e
  {
    if IsPrintable(b) then b as char else '.'
  }

  // -------------------------------------------------------------- item widths

  function Pow10(k: nat): (p: nat)
    ensures p >= 1
  {
    if k == 0 then 1 else 10 * Pow10(k - 1)
  }

  /** The character widths `updateItemLength` assigns to integer items. */
  function DecWidth(byteLen: int): int
  {
    match byteLen
    case 1 => 3
    case 2 => 5
    case 4 => 10
    case 8 => 20
    case _ => 0
  }

  function SignedDecWidth(byteLen: int): int
  {
    match byteLen
    case 1 => 4
    case 2 => 6
    case 4 => 11
    case 8 => 20
    case _ => 0
  }

  /**
   * Each integer width is exactly the number of characters of the widest
   * value of that size: the largest unsigned value in decimal, minus sign and
   * digits of the most negative signed value, octal digits of the largest
   * value, two hex digits per byte.
   */
  lemma {:induction false} ItemWidthsFitWidest(n: int)
    requires IsItemSize(n)
    ensures Pow10(DecWidth(n) - 1) <= Pow2(8 * n) - 1 < Pow10(DecWidth(n))
    ensures Pow10(SignedDecWidth(n) - 2) <= Pow2(8 * n - 1) < Pow10(SignedDecWidth(n) - 1)
    ensures Pow8((n * 8 + 3) / 3 - 1) < Pow2(8 * n) <= Pow8((n * 8 + 3) / 3)
    ensures Pow16(2 * n) == Pow2(8 * n)
  {
    ItemWidthsFor(n);
    if n == 1 {
      Pow2Small();
      Pow10Small();
    } else if n == 2 {
      Pow2Small();
      Pow10Small();
    } else if n == 4 {
      Pow2Of32();
      Pow10Mid();
    } else {
      Pow2Of64();
      Pow10Big();
    }
  }

  /** The octal and hex widths, for every item size. */
  lemma {:induction false} ItemWidthsFor(n: nat)
    requires IsItemSize(n)
    ensures Pow8((n * 8 + 3) / 3 - 1) < Pow2(8 * n) <= Pow8((n * 8 + 3) / 3)
    ensures Pow16(2 * n) == Pow2(8 * n)
  {
    var w := (n * 8 + 3) / 3;
    assert w >= 1 && 3 * (w - 1) < 8 * n <= 3 * w by {
      if n == 1 {
        assert w == 3;
      } else if n == 2 {
        assert w == 6;
      } else if n == 4 {
        assert w == 11;
      } else {
        assert w == 22;
      }
    }
    Pow8IsPow2(w - 1);
    Pow8IsPow2(w);
    Pow2Less(3 * (w - 1), 8 * n);
    Pow2LessEq(8 * n, 3 * w);
    Pow16IsPow2(2 * n);
  }

  lemma {:induction false} Pow2Small()
    ensures Pow2(7) == 0x80 && Pow2(8) == 0x100 && Pow2(15) == 0x8000 && Pow2(16) == 0x1_0000
  {
    Pow2Add(1, 7);
    Pow2Add(8, 8);
    Pow2Add(1, 15);
  }

  lemma {:induction false} Pow2Of32()
    ensures Pow2(31) == 0x8000_0000 && Pow2(32) == 0x1_0000_0000
  {
    Pow2Small();
    Pow2Add(16, 16);
    Pow2Add(1, 31);
  }

  lemma {:induction false} Pow2Of64()
    ensures Pow2(63) == 0x8000_0000_0000_0000 && Pow2(64) == 0x1_0000_0000_0000_0000
  {
    Pow2Of32();
    Pow2Add(32, 32);
    Pow2Add(1, 63);
  }

  lemma {:induction false} Pow10Add(a: nat, b: nat)
    ensures Pow10(a + b) == Pow10(a) * Pow10(b)
    decreases a
  {
    if a > 0 {
      Pow10Add(a - 1, b);
    }
  }

  lemma {:induction false} Pow10Small()
    ensures Pow10(2) == 100 && Pow10(3) == 1000 && Pow10(4) == 10000 && Pow10(5) == 100000
  {
    Pow10Add(2, 2);
    Pow10Add(2, 3);
  }

  lemma {:induction false} Pow10Mid()
    ensures Pow10(9) == 1_000_000_000 && Pow10(10) == 10_000_000_000
  {
    Pow10Small();
    Pow10Add(4, 5);
    Pow10Add(5, 5);
  }

  lemma {:induction false} Pow10Big()
    ensures Pow10(18) == 1_000_000_000_000_000_000 && Pow10(19) == 10_000_000_000_000_000_000
    ensures Pow10(20) == 100_000_000_000_000_000_000
  {
    Pow10Mid();
    Pow10Add(9, 9);
    Pow10Add(9, 10);
    Pow10Add(10, 10);
  }

  lemma {:induction false} Pow8IsPow2(k: nat)
    ensures Pow8(k) == Pow2(3 * k)
  {
    if k > 0 {
      Pow8IsPow2(k - 1);
      Pow2Add(3, 3 * (k - 1));
    }
  }

  lemma {:induction false} Pow16IsPow2(k: nat)
    ensures Pow16(k) == Pow2(4 * k)
  {
    if k > 0 {
      Pow16IsPow2(k - 1);
      Pow2Add(4, 4 * (k - 1));
    }
  }

  lemma {:induction false} Pow2Less(a: nat, b: nat)
    requires a < b
    ensures Pow2(a) < Pow2(b)
  {
    Pow2Add(a, b - a);
  }

  lemma {:induction false} Pow2LessEq(a: nat, b: nat)
    requires a <= b
    ensures Pow2(a) <= Pow2(b)
  {
    Pow2Add(a, b - a);
  }

  // ------------------------------------------------------------- memory cache

  /**
   * `MemoryCache`: 4096-byte blocks read from `firstBlockAddr` covering the
   * screen, which starts `firstBlockOffset` bytes into the first block.
   */
  datatype MemoryCache = MemoryCache(firstBlockAddr: u64, firstBlockOffset: int, blocks: seq<seq<u8>>)

  /** `dataPtr(offset)`: the block and the position in it of screen byte `offset`. */
  function DataPtr(cache: MemoryCache, offset: int): (r: (int, int))
    requires 0 <= offset + cache.firstBlockOffset
    ensures 0 <= r.1 < HexWidgetTypes.BLOCK_SIZE
    ensures r.0 * HexWidgetTypes.BLOCK_SIZE + r.1 == offset + cache.firstBlockOffset
  {
    var total := offset + cache.firstBlockOffset;
    (total / HexWidgetTypes.BLOCK_SIZE, total % HexWidgetTypes.BLOCK_SIZE)
  }

  /** The cache that `updateDataCache` builds for a screen at `start` of `bytesPerScreen` bytes. */
  predicate CacheFor(mem: u64 -> u8, cache: MemoryCache, start: u64, bytesPerScreen: int) {
    cache.firstBlockAddr == start / HexWidgetTypes.BLOCK_SIZE * HexWidgetTypes.BLOCK_SIZE &&
    cache.firstBlockOffset == start % HexWidgetTypes.BLOCK_SIZE &&
    |cache.blocks| == (cache.firstBlockOffset + bytesPerScreen + HexWidgetTypes.BLOCK_SIZE - 1) / HexWidgetTypes.BLOCK_SIZE &&
    forall i :: 0 <= i < |cache.blocks| ==>
      cache.blocks[i] == HexWidgetTypes.ReadBlock(mem, cache.firstBlockAddr + i * HexWidgetTypes.BLOCK_SIZE)
  }

  /** Every byte of the screen is found through `dataPtr` and is the byte of memory at its address. */
  lemma {:induction false} DataPtrReadsScreen(mem: u64 -> u8, cache: MemoryCache, start: u64, bytesPerScreen: int, offset: int)
    requires CacheFor(mem, cache, start, bytesPerScreen)
    requires 0 <= offset < bytesPerScreen
    ensures var p := DataPtr(cache, offset);
      0 <= p.0 < |cache.blocks| && cache.blocks[p.0][p.1] == mem(Wrap64(start + offset))
  {
    var p := DataPtr(cache, offset);
    var total := offset + cache.firstBlockOffset;
    assert p.0 * HexWidgetTypes.BLOCK_SIZE <= total;
    assert p.0 < |cache.blocks|;
    assert cache.firstBlockAddr + p.0 * HexWidgetTypes.BLOCK_SIZE + p.1 == start + offset;
  }

  // ------------------------------------------------------------------- widget

  /** The switch of `updateItemLength`: item size, character width and prefix width for a format. */
  method ItemLengths(format: ItemFormat, byteLen: int, charLen: int, showExHex: bool)
    returns (byteLen': int, charLen': int, prefixLen: int)
    ensures format == Float ==> byteLen' == Max(byteLen, 4) && charLen' == 3 * byteLen'
    ensures format != Float ==> byteLen' == byteLen
    ensures prefixLen == if format == Hex && byteLen' > 1 && showExHex then HEX_PREFIX_LEN else 0
    ensures format == Hex ==> charLen' == 2 * byteLen' + prefixLen
    ensures format == Oct ==> charLen' == (byteLen' * 8 + 3) / 3
    ensures format == Dec ==> charLen' == if IsItemSize(byteLen) then DecWidth(byteLen) else charLen
    ensures format == SignedDec ==> charLen' == if IsItemSize(byteLen) then SignedDecWidth(byteLen) else charLen
  {
    byteLen', charLen', prefixLen := byteLen, charLen, 0;
    match format {
      case Hex =>
        charLen' := 2 * byteLen;
        if byteLen > 1 && showExHex {
          prefixLen := HEX_PREFIX_LEN;
        }
      case Oct =>
        charLen' := (byteLen * 8 + 3) / 3;
      case Dec =>
        if IsItemSize(byteLen) {
          charLen' := DecWidth(byteLen);
        }
      case SignedDec =>
        if IsItemSize(byteLen) {
          charLen' := SignedDecWidth(byteLen);
        }
      case Float =>
        if byteLen < 4 {
          byteLen' := 4;
        }
        charLen' := 3 * byteLen';
    }
    charLen' := charLen' + prefixLen;
  }

  class HexWidget {
    var itemByteLen: int
    var itemFormat: ItemFormat
    var itemCharLen: int
    var itemPrefixLen: int
    var showExHex: bool
    var itemColumns: int
    var itemGroupSize: int
    var itemBigEndian: bool
    /** Enabled state of the float format, big-endian and hex-pairs actions. */
    var floatFormatEnabled: bool
    var bigEndianEnabled: bool
    var hexPairsEnabled: bool
    var hexPairsChecked: bool
    var startAddress: u64
    var cursorAddress: u64
    var cursorEnabled: bool
    var cursorVisible: bool
    const selection: HexWidgetTypes.HexSelection
    var memCache: MemoryCache
    var rowBytes: int
    var visibleLines: int

    constructor (rows: int, lines: int)
      requires rows >= 1 && lines >= 0
      ensures itemByteLen == 1 && itemGroupSize == 1 && itemColumns == 16 && itemFormat == Hex
      ensures showExHex && !itemBigEndian && cursorEnabled
      ensures startAddress == 0 && cursorAddress == 0 && selection.empty
      ensures rowBytes == rows && visibleLines == lines
    {
      itemByteLen, itemGroupSize, itemColumns, itemFormat := 1, 1, 16, Hex;
      showExHex, itemBigEndian, cursorEnabled := true, false, true;
      itemCharLen, itemPrefixLen := 2, 0;
      floatFormatEnabled, bigEndianEnabled, hexPairsEnabled, hexPairsChecked := false, false, true, false;
      startAddress, cursorAddress, cursorVisible := 0, 0, true;
      selection := new HexWidgetTypes.HexSelection();
      memCache := MemoryCache(0, 0, []);
      rowBytes, visibleLines := rows, lines;
    }

    function BytesPerScreen(): int
      reads this
    {
      rowBytes * visibleLines
    }

    /** The widget geometry the cache and cursor arithmetic rely on. */
    predicate Geometry()
      reads this
    {
      rowBytes >= 1 && visibleLines >= 0 && rowBytes * visibleLines + 2 * HexWidgetTypes.BLOCK_SIZE < 0x8000_0000
    }

    /** `updateItemLength`: item character width and prefix from format and size. */
    method UpdateItemLength()
      modifies this
      ensures itemFormat == Float ==> itemByteLen == Max(old(itemByteLen), 4) && itemCharLen == 3 * itemByteLen
      ensures itemFormat != Float ==> itemByteLen == old(itemByteLen)
      ensures itemPrefixLen == if itemFormat == Hex && itemByteLen > 1 && showExHex then HEX_PREFIX_LEN else 0
      ensures itemFormat == Hex ==> itemCharLen == 2 * itemByteLen + itemPrefixLen
      ensures itemFormat == Oct ==> itemCharLen == (itemByteLen * 8 + 3) / 3
      ensures itemFormat == Dec && IsItemSize(itemByteLen) ==> itemCharLen == DecWidth(itemByteLen)
      ensures itemFormat == SignedDec && IsItemSize(itemByteLen) ==> itemCharLen == SignedDecWidth(itemByteLen)
      ensures hexPairsEnabled <==> itemByteLen == 1 && itemFormat == Hex
      ensures hexPairsEnabled ==> hexPairsChecked == old(hexPairsChecked) && itemGroupSize == old(itemGroupSize)
      ensures !hexPairsEnabled ==> !hexPairsChecked && itemGroupSize == 1
      ensures itemFormat == old(itemFormat) && showExHex == old(showExHex) && itemColumns == old(itemColumns)
      ensures startAddress == old(startAddress) && cursorAddress == old(cursorAddress) && memCache == old(memCache)
      ensures rowBytes == old(rowBytes) && visibleLines == old(visibleLines)
      ensures floatFormatEnabled == old(floatFormatEnabled) && bigEndianEnabled == old(bigEndianEnabled)
    {
      var byteLen, charLen, prefixLen := ItemLengths(itemFormat, itemByteLen, itemCharLen, showExHex);
      itemByteLen, itemCharLen, itemPrefixLen := byteLen, charLen, prefixLen;
      if byteLen == 1 && itemFormat == Hex {
        hexPairsEnabled := true;
      } else {
        hexPairsEnabled := false;
        hexPairsChecked := false;
        itemGroupSize := 1;
      }
    }

    /** `updateDataCache`: reloads the blocks covering the screen. */
    method UpdateDataCache(mem: u64 -> u8)
      requires Geometry()
      modifies this
      ensures CacheFor(mem, memCache, startAddress, BytesPerScreen())
      ensures startAddress == old(startAddress) && cursorAddress == old(cursorAddress)
      ensures rowBytes == old(rowBytes) && visibleLines == old(visibleLines)
      ensures itemByteLen == old(itemByteLen) && itemFormat == old(itemFormat) && itemCharLen == old(itemCharLen)
      ensures itemPrefixLen == old(itemPrefixLen) && itemColumns == old(itemColumns) && itemGroupSize == old(itemGroupSize)
      ensures hexPairsEnabled == old(hexPairsEnabled) && hexPairsChecked == old(hexPairsChecked)
      ensures floatFormatEnabled == old(floatFormatEnabled) && bigEndianEnabled == old(bigEndianEnabled)
      ensures cursorEnabled == old(cursorEnabled) && cursorVisible == old(cursorVisible)
    {
      var aligned: u64 := startAddress / HexWidgetTypes.BLOCK_SIZE * HexWidgetTypes.BLOCK_SIZE;
      var offset := startAddress - aligned;
      var count := (offset + BytesPerScreen() + (HexWidgetTypes.BLOCK_SIZE - 1)) / HexWidgetTypes.BLOCK_SIZE;
      var blocks := ReadBlocks(mem, aligned, count);
      memCache := MemoryCache(aligned, offset, blocks);
    }

    /**
     * `setCursorAddr`: moves the cursor, extends or restarts the selection,
     * scrolls to it; the cursor blinks again exactly when nothing is selected.
     */
    method SetCursorAddr(mem: u64 -> u8, addr: u64, select: bool)
      requires Geometry()
      modifies this, selection
      ensures Geometry() && rowBytes == old(rowBytes) && visibleLines == old(visibleLines)
      ensures cursorAddress == addr && cursorVisible == !select
      ensures cursorEnabled == selection.empty
      ensures !select || old(selection.empty) ==> selection.init == HexWidgetTypes.BasicCursor(old(cursorAddress), false)
      ensures select && !old(selection.empty) ==> selection.init == old(selection.init)
      ensures !select ==> selection.empty
      ensures select ==> (HexWidgetTypes.Span(selection.start, selection.end, selection.empty)
                       == HexWidgetTypes.UpdatedSpan(selection.init, HexWidgetTypes.BasicCursor(addr, false)))
      ensures OnScreen(old(startAddress), addr, BytesPerScreen()) ==>
                startAddress == old(startAddress) && memCache == old(memCache)
      ensures !OnScreen(old(startAddress), addr, BytesPerScreen()) ==>
                startAddress == ScrollTarget(old(startAddress), addr, rowBytes, BytesPerScreen()) &&
                CacheFor(mem, memCache, startAddress, BytesPerScreen())
      ensures itemByteLen == old(itemByteLen) && itemFormat == old(itemFormat)
    {
      if !select || selection.empty {
        selection.Init(HexWidgetTypes.BasicCursor(cursorAddress, false));
      }
      cursorAddress := addr;
      cursorEnabled := false;
      if select {
        selection.Update(HexWidgetTypes.BasicCursor(addr, false));
      }
      if !OnScreen(startAddress, addr, BytesPerScreen()) {
        startAddress := ScrollTarget(startAddress, addr, rowBytes, BytesPerScreen());
        UpdateDataCache(mem);
      }
      cursorVisible := !select;
      cursorEnabled := selection.empty;
    }

    /** `moveCursor`: a backwards move past address 0 stops at 0; forward moves wrap in 64 bits. */
    method MoveCursor(mem: u64 -> u8, offset: i32, select: bool)
      requires Geometry()
      modifies this, selection
      ensures cursorAddress == if offset < 0 && old(cursorAddress) < -(offset as int) then 0
                               else Wrap64(old(cursorAddress) + offset)
      ensures Geometry() && rowBytes == old(rowBytes) && visibleLines == old(visibleLines)
    {
      if offset < 0 && cursorAddress < -(offset as int) {
        SetCursorAddr(mem, 0, select);
        return;
      }
      SetCursorAddr(mem, Wrap64(cursorAddress + offset), select);
    }

    /**
     * `wheelEvent`: three rows up (dy > 0) or down (dy < 0); scrolling up
     * stops at address 0. The cursor blinks again only when it is on screen
     * and nothing is selected.
     */
    method WheelEvent(mem: u64 -> u8, dy: int)
      requires Geometry()
      modifies this
      ensures dy == 0 ==> startAddress == old(startAddress) && cursorEnabled == old(cursorEnabled)
      ensures dy > 0 ==> startAddress == Max(old(startAddress) - 3 * rowBytes, 0)
      ensures dy < 0 ==> startAddress == Wrap64(old(startAddress) + 3 * rowBytes)
      ensures dy != 0 ==> CacheFor(mem, memCache, startAddress, BytesPerScreen())
      ensures dy != 0 ==>
        var visible := startAddress <= cursorAddress <= Wrap64(startAddress + BytesPerScreen());
        (visible && selection.empty ==> cursorEnabled) &&
        (visible && !selection.empty ==> cursorEnabled == old(cursorEnabled)) &&
        (!visible ==> !cursorEnabled)
      ensures cursorAddress == old(cursorAddress) && rowBytes == old(rowBytes) && visibleLines == old(visibleLines)
    {
      var delta := 3 * rowBytes;
      if dy > 0 {
        delta := -delta;
      }
      if dy == 0 {
        return;
      }
      if delta < 0 && startAddress < -delta {
        startAddress := 0;
      } else {
        startAddress := Wrap64(startAddress + delta);
      }
      UpdateDataCache(mem);
      if cursorAddress >= startAddress && cursorAddress <= Wrap64(startAddress + BytesPerScreen()) {
        if selection.empty {
          cursorEnabled := true;
        }
      } else {
        cursorEnabled := false;
      }
    }

    /** `setItemSize`: only sizes 1, 2, 4 and 8 are accepted; anything else changes nothing. */
    method SetItemSize(mem: u64 -> u8, nbytes: int)
      requires Geometry()
      modifies this
      ensures !IsItemSize(nbytes) ==>
        itemByteLen == old(itemByteLen) && itemCharLen == old(itemCharLen) && itemPrefixLen == old(itemPrefixLen) &&
        memCache == old(memCache) && floatFormatEnabled == old(floatFormatEnabled) &&
        bigEndianEnabled == old(bigEndianEnabled) && itemGroupSize == old(itemGroupSize) &&
        hexPairsEnabled == old(hexPairsEnabled) && hexPairsChecked == old(hexPairsChecked)
      ensures IsItemSize(nbytes) ==>
        floatFormatEnabled == (nbytes >= 4) && bigEndianEnabled == (nbytes != 1) &&
        (itemFormat != Float ==> itemByteLen == nbytes) &&
        (itemFormat == Float ==> itemByteLen == Max(nbytes, 4)) &&
        CacheFor(mem, memCache, startAddress, BytesPerScreen())
      ensures itemFormat == old(itemFormat) && startAddress == old(startAddress) && cursorAddress == old(cursorAddress)
    {
      if !IsItemSize(nbytes) {
        return;
      }
      itemByteLen := nbytes;
      floatFormatEnabled := nbytes >= 4;
      bigEndianEnabled := nbytes != 1;
      UpdateItemLength();
      UpdateDataCache(mem);
    }

    /**
     * `onHexPairsModeEnabled`: pairs halve the column count (C++ division,
     * truncating) and group items by two; leaving the mode doubles it again.
     */
    method OnHexPairsModeEnabled(mem: u64 -> u8, enable: bool)
      requires Geometry()
      modifies this
      ensures enable ==> itemColumns == TruncDiv2(old(itemColumns)) && itemGroupSize == 2
      ensures !enable ==> itemColumns == 2 * old(itemColumns) && itemGroupSize == 1
      ensures CacheFor(mem, memCache, startAddress, BytesPerScreen())
      ensures itemByteLen == old(itemByteLen) && startAddress == old(startAddress)
    {
      if enable {
        itemColumns := TruncDiv2(itemColumns);
        SetItemGroupSize(mem, 2);
      } else {
        itemColumns := itemColumns * 2;
        SetItemGroupSize(mem, 1);
      }
    }

    /** `setItemGroupSize`: stores the size and reloads the cache. */
    method SetItemGroupSize(mem: u64 -> u8, size: int)
      requires Geometry()
      modifies this
      ensures itemGroupSize == size && itemColumns == old(itemColumns)
      ensures CacheFor(mem, memCache, startAddress, BytesPerScreen())
      ensures itemByteLen == old(itemByteLen) && startAddress == old(startAddress)
    {
      itemGroupSize := size;
      UpdateDataCache(mem);
    }
  }

  /** Enabling and then leaving hex-pairs mode restores an even column count. */
  lemma {:induction false} HexPairsRoundTrip(columns: int)
    requires columns % 2 == 0
    ensures 2 * TruncDiv2(columns) == columns
  {
  }

  /** C++ `x / 2` on `int`: rounds toward zero. */
  function TruncDiv2(x: int): (r: int)
    ensures x >= 0 ==> r == x / 2
    ensures x < 0 ==> r == -((-x) / 2)
  {
    if x >= 0 then x / 2 else -((-x) / 2)
  }

  /** The read loop of `updateDataCache`: `count` consecutive blocks from `aligned`, the address wrapping in 64 bits. */
  method ReadBlocks(mem: u64 -> u8, aligned: u64, count: nat) returns (blocks: seq<seq<u8>>)
    ensures |blocks| == count
    ensures forall j :: 0 <= j < count ==> blocks[j] == HexWidgetTypes.ReadBlock(mem, aligned + j * HexWidgetTypes.BLOCK_SIZE)
  {
    blocks := [];
    var addr: u64 := aligned;
    var i := 0;
    while i < count
      invariant 0 <= i <= count && |blocks| == i
      invariant addr == Wrap64(aligned + i * HexWidgetTypes.BLOCK_SIZE)
      invariant forall j :: 0 <= j < i ==> blocks[j] == HexWidgetTypes.ReadBlock(mem, aligned + j * HexWidgetTypes.BLOCK_SIZE)
    {
      ReadBlockWrap(mem, aligned + i * HexWidgetTypes.BLOCK_SIZE);
      blocks := blocks + [HexWidgetTypes.ReadBlock(mem, addr)];
      WrapAddWrap(aligned + i * HexWidgetTypes.BLOCK_SIZE, HexWidgetTypes.BLOCK_SIZE);
      addr := Wrap64(addr + HexWidgetTypes.BLOCK_SIZE);
      i := i + 1;
    }
  }

  lemma {:induction false} WrapAddWrap(x: int, j: int)
    ensures Wrap64(Wrap64(x) + j) == Wrap64(x + j)
  {
  }

  lemma {:induction false} ReadBlockWrap(mem: u64 -> u8, x: int)
    ensures HexWidgetTypes.ReadBlock(mem, Wrap64(x)) == HexWidgetTypes.ReadBlock(mem, x)
  {
    forall i | 0 <= i < HexWidgetTypes.BLOCK_SIZE
      ensures HexWidgetTypes.ReadBlock(mem, Wrap64(x))[i] == HexWidgetTypes.ReadBlock(mem, x)[i]
    {
      WrapAddWrap(x, i);
    }
  }

  /** The screen shows the bytes from `start` up to `start + bytesPerScreen`, compared in 64-bit arithmetic. */
  predicate OnScreen(start: u64, addr: u64, bytesPerScreen: int) {
    start <= addr < Wrap64(start + bytesPerScreen)
  }

  /**
   * Where `setCursorAddr` scrolls for an off-screen cursor: one row down when
   * the cursor's row is the one just below the screen, otherwise to the
   * start of the cursor's row.
   */
  function ScrollTarget(start: u64, addr: u64, rowBytes: int, bytesPerScreen: int): (s: u64)
    requires rowBytes >= 1
  {
    var rowStart := if rowBytes != 1 then addr - addr % rowBytes else addr;
    if rowStart == Wrap64(start + bytesPerScreen) then Wrap64(start + rowBytes) else rowStart
  }

  /**
   * After a cursor jump off screen the cursor is on the new screen, provided
   * the screen holds at least one row and does not run past UINT64_MAX.
   */
  lemma {:induction false} SetCursorAddrShowsCursor(start: u64, addr: u64, rowBytes: int, bytesPerScreen: int)
    requires 1 <= rowBytes <= bytesPerScreen
    requires start + bytesPerScreen + rowBytes <= UINT64_MAX
    requires addr + bytesPerScreen <= UINT64_MAX
    requires !OnScreen(start, addr, bytesPerScreen)
    ensures OnScreen(ScrollTarget(start, addr, rowBytes, bytesPerScreen), addr, bytesPerScreen)
  {
    var rowStart := if rowBytes != 1 then addr - addr % rowBytes else addr;
    assert rowStart <= addr < rowStart + rowBytes;
    var target := ScrollTarget(start, addr, rowBytes, bytesPerScreen);
    assert Wrap64(start + bytesPerScreen) == start + bytesPerScreen;
    if rowStart == start + bytesPerScreen {
      assert target == start + rowBytes;
      assert Wrap64(target + bytesPerScreen) == target + bytesPerScreen;
    } else {
      assert target == rowStart;
      assert Wrap64(target + bytesPerScreen) == target + bytesPerScreen;
    }
  }
}
