/**
 * The value types and data sources declared in src/widgets/HexWidget.h:
 * the saturating BasicCursor, HexSelection, the in-memory BufferData and the
 * block-aligned MemoryData cache.
 *
 * BasicCursor is a small struct that the widget copies by value (HexSelection
 * keeps its own copy in m_init), so it is a datatype here and its `+=`
 * operators are functions returning the moved cursor.
 */
module HexWidgetTypes {
  import opened Common

  // ---------------------------------------------------------------- BasicCursor

  datatype BasicCursor = BasicCursor(address: u64, pastEnd: bool)

  /** pastEnd is only ever set together with the saturated address UINT64_MAX. */
  predicate WellFormed(c: BasicCursor) {
    c.pastEnd ==> c.address == UINT64_MAX
  }

  /** `operator+=(int64_t)`: saturating move, reporting an overflow at the top. */
  function AddSigned(c: BasicCursor, offset: int): (r: BasicCursor)
    requires -0x8000_0000_0000_0000 <= offset < 0x8000_0000_0000_0000
    ensures WellFormed(r)
    ensures r.address == if c.address + offset < 0 then 0
                         else if c.address + offset > UINT64_MAX then UINT64_MAX
                         else c.address + offset
    ensures r.pastEnd <==> c.address + offset > UINT64_MAX
  {
    if offset < 0 && -offset > c.address then BasicCursor(0, false)
    else if offset > 0 && offset > UINT64_MAX - c.address then BasicCursor(UINT64_MAX, true)
    else BasicCursor(c.address + offset, false)
  }

  /** `operator+=(uint64_t)`: saturates at UINT64_MAX. */
  function AddUnsigned(c: BasicCursor, offset: u64): (r: BasicCursor)
    ensures WellFormed(r)
    ensures r.address == Min(c.address + offset, UINT64_MAX)
    ensures r.pastEnd <==> c.address + offset > UINT64_MAX
  {
    if offset > UINT64_MAX - c.address then BasicCursor(UINT64_MAX, true)
    else BasicCursor(c.address + offset, false)
  }

  /**
   * `moveChecked(int)`: moves like `+= int` and reports whether
   * `address - oldAddress == uint64_t(offset)` in 64-bit arithmetic.
   */
  function MoveChecked(c: BasicCursor, offset: i32): (BasicCursor, bool)
  {
    var moved := AddSigned(c, offset);
    (moved, Wrap64(moved.address - c.address) == Wrap64(offset))
  }

  /** The check succeeds exactly when the move was not clamped. */
  lemma {:induction false} MoveCheckedExact(c: BasicCursor, offset: i32)
    ensures MoveChecked(c, offset).1 <==> 0 <= c.address + offset <= UINT64_MAX
    ensures MoveChecked(c, offset).0 == AddSigned(c, offset)
  {
    var moved := AddSigned(c, offset);
    if c.address + offset < 0 {
      assert moved.address == 0;
      assert Wrap64(offset) == U64_MODULUS + offset;
      if c.address == 0 {
        assert Wrap64(0 - c.address) == 0;
      } else {
        assert Wrap64(0 - c.address) == U64_MODULUS - c.address;
      }
    } else if c.address + offset > UINT64_MAX {
      assert moved.address == UINT64_MAX;
      assert Wrap64(offset) == offset;
    }
  }

  /** `operator<`: `address < r.address || pastEnd < r.pastEnd`. */
  predicate Less(a: BasicCursor, b: BasicCursor) {
    a.address < b.address || (!a.pastEnd && b.pastEnd)
  }

  /** On well-formed cursors `<` is a strict total order. */
  lemma {:induction false} LessStrictTotalOrder(a: BasicCursor, b: BasicCursor, c: BasicCursor)
    requires WellFormed(a) && WellFormed(b) && WellFormed(c)
    ensures !Less(a, a)
    ensures Less(a, b) ==> !Less(b, a)
    ensures Less(a, b) && Less(b, c) ==> Less(a, c)
    ensures Less(a, b) || Less(b, a) || a == b
  {
  }

  /** Without the pastEnd invariant the operator is not antisymmetric. */
  lemma {:induction false} LessNeedsWellFormed()
    ensures Less(BasicCursor(5, false), BasicCursor(3, true))
    ensures Less(BasicCursor(3, true), BasicCursor(5, false))
    ensures !WellFormed(BasicCursor(3, true))
  {
  }

  // --------------------------------------------------------------- HexSelection

  /** The (start, end, empty) triple that `HexSelection::update` computes. */
  datatype Span = Span(start: u64, end: u64, empty: bool)

  function UpdatedSpan(init: BasicCursor, addr: BasicCursor): Span
  {
    if Less(init, addr) then
      Span(init.address, Wrap64(addr.address - if addr.pastEnd then 0 else 1), false)
    else if Less(addr, init) then
      Span(addr.address, Wrap64(init.address - if init.pastEnd then 0 else 1), false)
    else
      Span(init.address, init.address, true)
  }

  /**
   * Selecting from `init` to `addr` selects the addresses from the smaller
   * cursor up to, and not including, the larger one; a larger cursor that
   * is past the end includes UINT64_MAX itself.
   */
  lemma {:induction false} UpdatedSpanSelects(init: BasicCursor, addr: BasicCursor, p: int)
    requires WellFormed(init) && WellFormed(addr)
    ensures var s := UpdatedSpan(init, addr);
      (!s.empty ==> s.start <= s.end) &&
      (s.empty <==> init == addr) &&
      ((!s.empty && s.start <= p <= s.end) <==>
        (Lo(init, addr) <= p < Hi(init, addr) ||
         (p == UINT64_MAX && (init.pastEnd || addr.pastEnd) && init != addr)))
  {
  }

  function Lo(a: BasicCursor, b: BasicCursor): int { Common.Min(a.address, b.address) }
  function Hi(a: BasicCursor, b: BasicCursor): int { Common.Max(a.address, b.address) }

  class HexSelection {
    var init: BasicCursor
    var start: u64
    var end: u64
    var empty: bool

    constructor ()
      ensures empty && start == 0 && end == 0 && init == BasicCursor(0, false)
    {
      empty := true;
      start, end := 0, 0;
      init := BasicCursor(0, false);
    }

    /** `init`: remembers the anchor and marks the selection empty. */
    method Init(addr: BasicCursor)
      modifies this
      ensures empty && init == addr && start == old(start) && end == old(end)
    {
      empty := true;
      init := addr;
    }

    /** `set`: an explicit non-empty range whose anchor is its start. */
    method Set(s: u64, e: u64)
      modifies this
      ensures !empty && init == BasicCursor(s, false) && start == s && end == e
    {
      empty := false;
      init := BasicCursor(s, false);
      start, end := s, e;
    }

    /** `update`: extends the selection from the anchor to `addr`. */
    method Update(addr: BasicCursor)
      modifies this
      ensures init == old(init)
      ensures Span(start, end, empty) == UpdatedSpan(old(init), addr)
    {
      empty := false;
      if Less(init, addr) {
        start := init.address;
        end := addr.address;
        if !addr.pastEnd {
          end := Wrap64(end - 1);
        }
      } else if Less(addr, init) {
        start := addr.address;
        end := init.address;
        if !init.pastEnd {
          end := Wrap64(end - 1);
        }
      } else {
        start, end := init.address, init.address;
        empty := true;
      }
    }

    predicate Contains(pos: u64)
      reads this
    {
      !empty && start <= pos && pos <= end
    }

    /** `intersects(s, e)`: the selection shares an address with [s, e]. */
    predicate Intersects(s: u64, e: u64)
      reads this
    {
      !empty && end >= s && start <= e
    }

    /** `size()`: `end - start + 1` in 64-bit arithmetic, 0 when empty. */
    function Size(): u64
      reads this
    {
      if empty then 0 else Wrap64(end - start + 1)
    }
  }

  /** intersects is exactly "some address of [s, e] is contained". */
  lemma {:induction false} IntersectsMeansSharedAddress(sel: HexSelection, s: u64, e: u64)
    requires sel.start <= sel.end && s <= e
    ensures sel.Intersects(s, e) <==> exists p: u64 :: s <= p <= e && sel.Contains(p)
  {
    if sel.Intersects(s, e) {
      var p: u64 := Common.Max(s, sel.start);
      assert s <= p <= e && sel.Contains(p);
    }
  }

  /** size counts the contained addresses, except the full range whose count 2^64 wraps to 0. */
  lemma {:induction false} SizeCountsAddresses(sel: HexSelection)
    requires sel.start <= sel.end
    ensures sel.empty ==> sel.Size() == 0
    ensures !sel.empty && !(sel.start == 0 && sel.end == UINT64_MAX) ==>
      sel.Size() == |set p: int | sel.start <= p <= sel.end && InSpan(sel.start, sel.end, p)|
    ensures !sel.empty && sel.start == 0 && sel.end == UINT64_MAX ==> sel.Size() == 0
  {
    RangeCardinality(sel.start, sel.end);
  }

  predicate InSpan(lo: int, hi: int, p: int) { lo <= p <= hi }

  lemma {:induction false} RangeCardinality(lo: int, hi: int)
    requires lo <= hi + 1
    ensures |set p: int | lo <= p <= hi && InSpan(lo, hi, p)| == hi - lo + 1
    decreases hi - lo
  {
    if lo <= hi {
      var below := hi - 1;
      RangeCardinality(lo, below);
      assert (set p: int | lo <= p <= hi && InSpan(lo, hi, p)) == (set p: int | lo <= p <= below && InSpan(lo, below, p)) + {hi};
    } else {
      assert (set p: int | lo <= p <= hi && InSpan(lo, hi, p)) == {};
    }
  }

  // ----------------------------------------------------------------- BufferData

  /**
   * The bounds test of `BufferData::copy` and `BufferData::write` as written:
   * `addr < size && (size - addr) < len`.
   */
  predicate BufferGuardAsWritten(size: nat, addr: u64, len: u64) {
    addr < size && size - addr < len
  }

  /** The test those operations need before touching `len` bytes at `addr`. */
  predicate BufferGuard(size: nat, addr: u64, len: u64) {
    addr < size && len <= size - addr
  }

  /**
   * The written test is the needed one inverted: it admits exactly the copies
   * that run past the end and refuses every one that fits (for len > 0).
   */
  lemma {:induction false} BufferGuardInverted(size: nat, addr: u64, len: u64)
    ensures BufferGuardAsWritten(size, addr, len) ==> addr + len > size
    ensures addr < size && len > 0 ==> (BufferGuardAsWritten(size, addr, len) <==> !BufferGuard(size, addr, len))
    ensures BufferGuardAsWritten(1, 0, 2) && !BufferGuard(1, 0, 2)
    ensures !BufferGuardAsWritten(1, 0, 1) && BufferGuard(1, 0, 1)
  {
  }

  class BufferData {
    var buffer: seq<u8>

    /** An empty input buffer is replaced by a single zero byte. */
    constructor (input: seq<u8>)
      ensures buffer == if input == [] then [0] else input
    {
      buffer := if input == [] then [0] else input;
    }

    ghost predicate Valid()
      reads this
    {
      |buffer| >= 1
    }

    /** `copy` with the bounds test corrected; fails without touching `out`'s source. */
    method Copy(addr: u64, len: u64) returns (ok: bool, out: seq<u8>)
      ensures ok <==> BufferGuard(|buffer|, addr, len)
      ensures ok ==> out == buffer[addr..addr + len]
      ensures !ok ==> out == []
    {
      ok := BufferGuard(|buffer|, addr, len);
      out := if ok then buffer[addr..addr + len] else [];
    }

    /** `write` with the bounds test corrected. */
    method Write(input: seq<u8>, addr: u64) returns (ok: bool)
      requires |input| < U64_MODULUS
      modifies this
      ensures ok <==> BufferGuard(|old(buffer)|, addr, |input|)
      ensures ok ==> buffer == old(buffer[..addr]) + input + old(buffer[addr + |input|..])
      ensures !ok ==> buffer == old(buffer)
      ensures |buffer| == |old(buffer)|
    {
      ok := BufferGuard(|buffer|, addr, |input|);
      if ok {
        buffer := buffer[..addr] + input + buffer[addr + |input|..];
      }
    }

    /** `maxIndex`: the last valid index, `size - 1`. */
    function MaxIndex(): (r: int)
      requires Valid()
      reads this
      ensures 0 <= r < |buffer| && r + 1 == |buffer|
    {
      |buffer| - 1
    }
  }

  // ----------------------------------------------------------------- MemoryData

  const BLOCK_SIZE: nat := 4096

  /** Block layout that `MemoryData::fetch` derives from an address and a length. */
  datatype FetchPlan = FetchPlan(firstBlockAddr: u64, lastValidAddr: u64, blockCount: nat)

  /**
   * The requests whose block-rounded byte count fits in `fetch`'s `int len`:
   * the offset in the first block, the length and `blockSize - 1` add up to
   * at most INT_MAX (the rounding is done in `uint64_t`).
   */
  predicate FetchFits(address: u64, length: nat)
  {
    address % BLOCK_SIZE + length + BLOCK_SIZE - 1 < 0x8000_0000
  }

  /**
   * `fetch` as written, with the C++ conversions spelled out: `len` is an
   * `int` and the adjusted length `m_lastValidAddr - m_firstBlockAddr + 1` is
   * truncated to 32 bits; the loop bound `len / blockSize` converts `len` back
   * to `uint64_t`.
   */
  function FetchPlanAsWritten(address: u64, length: nat): FetchPlan
    requires FetchFits(address, length)
  {
    var aligned := (address / BLOCK_SIZE) * BLOCK_SIZE;
    var offset := address - aligned;
    var len := ((offset + length + BLOCK_SIZE - 1) / BLOCK_SIZE) * BLOCK_SIZE;
    var last: u64 := if length != 0 then Wrap64(aligned + len - 1) else 0;
    if last < aligned then
      var adjusted := ToInt32(Wrap64(UINT64_MAX - aligned + 1));
      FetchPlan(aligned, UINT64_MAX, Wrap64(adjusted) / BLOCK_SIZE)
    else
      FetchPlan(aligned, last, len / BLOCK_SIZE)
  }

  /**
   * Fetching zero bytes at an address of 0x1000 or more drops into the
   * wrap-around branch: the last valid address becomes UINT64_MAX and the
   * loop asks for 2^52 - 1 blocks.
   */
  lemma {:induction false} FetchEmptyAsWrittenLoadsHugeRange()
    ensures FetchPlanAsWritten(0x1000, 0) == FetchPlan(0x1000, UINT64_MAX, 0x10_0000_0000_0000 - 1)
  {
    assert ToInt32(Wrap64(UINT64_MAX - 0x1000 + 1)) == -4096;
  }

  /**
   * `fetch` as evidently intended: the wrap-around adjustment applies only to
   * a non-empty range that runs past UINT64_MAX, so an empty request never
   * asks for more than one block.
   */
  function FetchPlanFor(address: u64, length: nat): (p: FetchPlan)
    ensures p.firstBlockAddr % BLOCK_SIZE == 0
    ensures p.firstBlockAddr <= address < p.firstBlockAddr + BLOCK_SIZE
    ensures length == 0 ==> p.lastValidAddr == 0 && p.blockCount <= 1
    ensures length > 0 ==> p.lastValidAddr == Common.Min(p.firstBlockAddr + p.blockCount * BLOCK_SIZE - 1, UINT64_MAX)
    ensures length > 0 ==> p.lastValidAddr >= Common.Min(address + length - 1, UINT64_MAX)
    ensures p.firstBlockAddr + p.blockCount * BLOCK_SIZE <= U64_MODULUS
    ensures p.blockCount * BLOCK_SIZE < length + 2 * BLOCK_SIZE
  {
    var aligned := (address / BLOCK_SIZE) * BLOCK_SIZE;
    var offset := address - aligned;
    var len := ((offset + length + BLOCK_SIZE - 1) / BLOCK_SIZE) * BLOCK_SIZE;
    if length != 0 && aligned + len - 1 > UINT64_MAX then
      FetchPlan(aligned, UINT64_MAX, (U64_MODULUS - aligned) / BLOCK_SIZE)
    else
      FetchPlan(aligned, if length != 0 then aligned + len - 1 else 0, len / BLOCK_SIZE)
  }

  /** Away from the empty-request defect the written and the intended plans agree. */
  lemma {:induction false} FetchPlanAgrees(address: u64, length: nat)
    requires FetchFits(address, length)
    requires length > 0 || address < BLOCK_SIZE
    ensures FetchPlanAsWritten(address, length) == FetchPlanFor(address, length)
  {
    var aligned := (address / BLOCK_SIZE) * BLOCK_SIZE;
    var offset := address - aligned;
    var len := ((offset + length + BLOCK_SIZE - 1) / BLOCK_SIZE) * BLOCK_SIZE;
    if length != 0 && aligned + len - 1 > UINT64_MAX {
      assert Wrap64(aligned + len - 1) == aligned + len - 1 - U64_MODULUS;
      var adjusted := U64_MODULUS - aligned;
      assert adjusted < len;
      assert ToInt32(Wrap64(adjusted)) == adjusted;
    }
  }

  /** The `len` bytes of simulated memory read by `Core()->ioRead(a, len)`. */
  function ReadBlock(mem: u64 -> u8, a: int): (b: seq<u8>)
    ensures |b| == BLOCK_SIZE
    ensures forall i :: 0 <= i < BLOCK_SIZE ==> b[i] == mem(Wrap64(a + i))
  {
    seq<u8>(BLOCK_SIZE, (i: int) => mem(Wrap64(a + i)))
  }

  predicate UniformBlocks(blocks: seq<seq<u8>>) {
    forall k :: 0 <= k < |blocks| ==> |blocks[k]| == BLOCK_SIZE
  }

  /** The cached bytes, block after block. */
  function Flat(blocks: seq<seq<u8>>): (r: seq<u8>)
    ensures UniformBlocks(blocks) ==> |r| == BLOCK_SIZE * |blocks|
  {
    if blocks == [] then [] else blocks[0] + Flat(blocks[1..])
  }

  lemma {:induction false} FlatAt(blocks: seq<seq<u8>>, id: nat)
    requires UniformBlocks(blocks) && id < |blocks|
    ensures Flat(blocks) == Flat(blocks[..id]) + blocks[id] + Flat(blocks[id + 1..])
    ensures |Flat(blocks[..id])| == BLOCK_SIZE * id
  {
    assert UniformBlocks(blocks[..id]);
    if id > 0 {
      var tail := blocks[1..];
      assert UniformBlocks(tail);
      FlatAt(tail, id - 1);
      assert blocks[..id][1..] == tail[..id - 1];
      assert tail[id - 1 + 1..] == blocks[id + 1..];
      assert Flat(blocks[..id]) == blocks[0] + Flat(tail[..id - 1]);
    }
  }

  /** Overwriting part of one block overwrites the same bytes of the flat image. */
  lemma {:induction false} FlatUpdate(blocks: seq<seq<u8>>, id: nat, bo: nat, piece: seq<u8>, l: nat, nb: seq<seq<u8>>, at: nat, atEnd: nat)
    requires UniformBlocks(blocks) && id < |blocks| && |piece| == l && bo + l <= BLOCK_SIZE
    requires nb == blocks[id := blocks[id][..bo] + piece + blocks[id][bo + l..]]
    requires at == id * BLOCK_SIZE + bo && atEnd == at + l
    ensures UniformBlocks(nb)
    ensures Flat(nb) == Flat(blocks)[..at] + piece + Flat(blocks)[atEnd..]
  {
    assert UniformBlocks(nb);
    FlatAt(blocks, id);
    FlatAt(nb, id);
    assert nb[..id] == blocks[..id];
    assert nb[id + 1..] == blocks[id + 1..];
    Splice3(Flat(blocks[..id]), blocks[id], Flat(blocks[id + 1..]), bo, piece, at, atEnd);
  }

  /** Replacing bytes inside the middle part of a concatenation. */
  lemma {:induction false} Splice3(front: seq<u8>, b: seq<u8>, back: seq<u8>, bo: nat, piece: seq<u8>, at: nat, atEnd: nat)
    requires bo + |piece| <= |b| && at == |front| + bo && atEnd == at + |piece|
    ensures (front + b + back)[..at] + piece + (front + b + back)[atEnd..]
        == front + (b[..bo] + piece + b[bo + |piece|..]) + back
  {
    var whole := front + b + back;
    assert whole[..at] == front + b[..bo];
    assert whole[atEnd..] == b[bo + |piece|..] + back;
  }

  lemma {:induction false} BlockMul(a: nat, b: nat)
    requires a <= b
    ensures a * BLOCK_SIZE <= b * BLOCK_SIZE
    ensures a < b ==> a * BLOCK_SIZE + BLOCK_SIZE <= b * BLOCK_SIZE
    ensures a == b ==> a * BLOCK_SIZE == b * BLOCK_SIZE
  {
  }

  /** After writing `l` bytes at `at`, what is left starts at the next block, which is past the cache only at its end. */
  lemma {:induction false} NextBlock(id: nat, bo: nat, at: nat, len: nat, l: nat, n: nat)
    requires bo < BLOCK_SIZE && id < n && id * BLOCK_SIZE + bo == at
    requires len > 0 && l == Common.Min(BLOCK_SIZE - bo, len)
    ensures len - l > 0 ==> (id + 1) * BLOCK_SIZE == at + l
    ensures len - l > 0 && id + 1 >= n ==> at + l == BLOCK_SIZE * n
  {
    BlockMul(id + 1, n);
  }

  /** The cache image with `input[skip..skip + done]` written at `offset`. */
  function Spliced(flat0: seq<u8>, offset: nat, input: seq<u8>, skip: nat, done: nat): seq<u8>
    requires offset + done <= |flat0| && skip + done <= |input|
  {
    flat0[..offset] + input[skip..skip + done] + flat0[offset + done..]
  }

  /** One pass of the block loop of `writeToCache`: the written prefix grows from `done` to `done'` bytes. */
  lemma {:induction false} WriteStep(blocks: seq<seq<u8>>, id: nat, bo: nat, flat0: seq<u8>, offset: nat,
                  input: seq<u8>, skip: nat, done: nat, l: nat, updated: seq<seq<u8>>, done': nat)
    requires UniformBlocks(blocks) && id < |blocks| && bo + l <= BLOCK_SIZE
    requires id * BLOCK_SIZE + bo == offset + done && skip + done + l <= |input|
    requires |flat0| == BLOCK_SIZE * |blocks|
    requires Flat(blocks) == Spliced(flat0, offset, input, skip, done)
    requires updated == blocks[id := blocks[id][..bo] + input[skip + done..skip + done + l] + blocks[id][bo + l..]]
    requires done' == done + l
    ensures UniformBlocks(updated) && |updated| == |blocks| && offset + done' <= |flat0|
    ensures Flat(updated) == Spliced(flat0, offset, input, skip, done')
  {
    var piece := input[skip + done..skip + done + l];
    var at, atEnd := offset + done, offset + done';
    BlockMul(id + 1, |blocks|);
    FlatUpdate(blocks, id, bo, piece, l, updated, at, atEnd);
    SpliceGrow(flat0, offset, input, skip, done, done', Flat(blocks), piece, at, atEnd);
  }

  /** One more chunk of input spliced in after the part already written. */
  lemma {:induction false} SpliceGrow(flat0: seq<u8>, offset: nat, input: seq<u8>, skip: nat, done: nat, done': nat,
                   before: seq<u8>, piece: seq<u8>, at: nat, atEnd: nat)
    requires done <= done' && offset + done' <= |flat0| && skip + done' <= |input|
    requires at == offset + done && atEnd == offset + done'
    requires before == Spliced(flat0, offset, input, skip, done)
    requires piece == input[skip + done..skip + done']
    ensures before[..at] + piece + before[atEnd..] == Spliced(flat0, offset, input, skip, done')
  {
    assert before[..at] == flat0[..offset] + input[skip..skip + done];
    assert before[atEnd..] == flat0[atEnd..];
    assert input[skip..skip + done'] == input[skip..skip + done] + piece;
  }

  /** The flat image of the blocks `fetch` loads, one memory read per block. */
  lemma {:induction false} FlatOfFetched(mem: u64 -> u8, first: u64, blocks: seq<seq<u8>>, k: nat)
    requires first + |blocks| * BLOCK_SIZE <= U64_MODULUS
    requires forall j :: 0 <= j < |blocks| ==> blocks[j] == ReadBlock(mem, first + j * BLOCK_SIZE)
    requires k < |blocks| * BLOCK_SIZE
    ensures UniformBlocks(blocks)
    ensures Flat(blocks)[k] == mem(first + k)
  {
    assert UniformBlocks(blocks);
    var id := k / BLOCK_SIZE;
    var o := k % BLOCK_SIZE;
    assert k == id * BLOCK_SIZE + o;
    FlatAt(blocks, id);
    assert Flat(blocks)[k] == blocks[id][o];
    assert Wrap64(first + id * BLOCK_SIZE + o) == first + k;
  }

  /** What `copy(out, addr, len)` produces from a cache state: `None` is the 0xff-filled failure. */
  function CopyResult(blocks: seq<seq<u8>>, first: u64, last: u64, addr: u64, len: nat): (r: Option<seq<u8>>)
    requires UniformBlocks(blocks)
    requires first <= last && |blocks| > 0 ==> last - first < BLOCK_SIZE * |blocks|
    ensures r.Some? <==> first <= addr <= last && len <= last - addr + 1 && |blocks| > 0
    ensures r.Some? ==> |r.value| == len
  {
    if addr < first || addr > last || last - addr + 1 < len || |blocks| == 0 then None
    else Some(Flat(blocks)[addr - first..addr - first + len])
  }

  /** Right after a fetch, a successful copy returns the bytes of memory at the requested addresses. */
  lemma {:induction false} CopyAfterFetch(mem: u64 -> u8, address: u64, length: nat, blocks: seq<seq<u8>>, addr: u64, len: nat, i: nat)
    requires FetchFits(address, length)
    requires var p := FetchPlanFor(address, length);
      |blocks| == p.blockCount &&
      forall j :: 0 <= j < |blocks| ==> blocks[j] == ReadBlock(mem, p.firstBlockAddr + j * BLOCK_SIZE)
    requires i < len
    ensures UniformBlocks(blocks)
    ensures var p := FetchPlanFor(address, length);
      var r := CopyResult(blocks, p.firstBlockAddr, p.lastValidAddr, addr, len);
      r.Some? ==> addr + i <= UINT64_MAX && r.value[i] == mem(addr + i)
  {
    var p := FetchPlanFor(address, length);
    assert UniformBlocks(blocks);
    var r := CopyResult(blocks, p.firstBlockAddr, p.lastValidAddr, addr, len);
    if r.Some? {
      FlatOfFetched(mem, p.firstBlockAddr, blocks, addr - p.firstBlockAddr + i);
    }
  }

  /**
   * The bytes `writeToCache` skips before the cache and the length that remains,
   * as written: `if (prefix <= len) return;`. `None` means nothing is written.
   */
  function WriteStartAsWritten(first: u64, adr: u64, len: u64): Option<(nat, u64)>
  {
    if adr < first then
      var prefix := first - adr;
      if prefix <= len then None else Some((prefix, Wrap64(len - prefix)))
    else Some((0, len))
  }

  /** The same step as evidently intended: give up only when the whole write lies before the cache. */
  function WriteStart(first: u64, adr: u64, len: u64): (r: Option<(nat, u64)>)
    ensures r.None? <==> adr < first && adr + len <= first
    ensures r.Some? ==> r.value.0 + r.value.1 == len && adr + r.value.0 == Common.Max(adr, first)
  {
    if adr < first then
      var prefix := first - adr;
      if prefix >= len then None else Some((prefix, len - prefix))
    else Some((0, len))
  }

  /**
   * A write straddling the start of the cache is dropped, while one that ends
   * before the cache goes ahead with an underflowed length, skipping more
   * input bytes than it was given.
   */
  lemma {:induction false} WriteStartAsWrittenInverted()
    ensures WriteStartAsWritten(0x1000, 0xFFF, 2).None? && WriteStart(0x1000, 0xFFF, 2) == Some((1, 1))
    ensures WriteStartAsWritten(0x1000, 0xF00, 0x10) == Some((0x100, 0xFFFF_FFFF_FFFF_FF10 as u64))
    ensures WriteStart(0x1000, 0xF00, 0x10).None?
  {
  }

  /**
   * The cache after the corrected `writeToCache(in, adr, |in|)`: the part of
   * the write from the first cached address on is copied in, clipped at the
   * end of the last block, unless it starts after lastValidAddr.
   */
  function CacheAfterWrite(flat: seq<u8>, first: u64, last: u64, input: seq<u8>, adr: u64): (r: seq<u8>)
    requires |input| < U64_MODULUS
    ensures |r| == |flat|
  {
    match WriteStart(first, adr, |input|)
    case None => flat
    case Some((skip, _)) =>
      var a := adr + skip;
      if a > last || a - first >= |flat| then flat
      else
        var off := a - first;
        var n := Common.Min(|input| - skip, |flat| - off);
        flat[..off] + input[skip..skip + n] + flat[off + n..]
  }

  /** The state in which the block loop of `writeToCache` stops is the specified cache. */
  lemma {:induction false} WriteFinished(flat0: seq<u8>, first: u64, last: u64, input: seq<u8>, adr: u64,
                      skip: nat, offset: nat, done: nat, count: nat, result: seq<u8>)
    requires |input| < U64_MODULUS && |flat0| == BLOCK_SIZE * count
    requires first <= last && count > 0 ==> last - first < |flat0|
    requires WriteStart(first, adr, |input|).Some? && WriteStart(first, adr, |input|).value.0 == skip
    requires adr + skip <= last && offset == adr + skip - first
    requires skip + done <= |input|
    requires count > 0 ==> offset + done <= |flat0|
    requires count > 0 ==> done == |input| - skip || offset + done == |flat0|
    requires count == 0 ==> result == flat0
    requires count > 0 ==> result == Spliced(flat0, offset, input, skip, done)
    ensures result == CacheAfterWrite(flat0, first, last, input, adr)
  {
  }

  /**
   * The block loop of `writeToCache`: copies `input[skip..]` into the blocks
   * from byte `offset` of the cache on, block by block, until the input or
   * the last block runs out.
   */
  method WriteBlocks(blocks: seq<seq<u8>>, input: seq<u8>, skip: nat, offset: nat) returns (bs: seq<seq<u8>>)
    requires UniformBlocks(blocks) && skip <= |input|
    requires |blocks| > 0 ==> offset < BLOCK_SIZE * |blocks|
    ensures UniformBlocks(bs) && |bs| == |blocks|
    ensures |blocks| == 0 ==> bs == blocks
    ensures |blocks| > 0 ==>
      Flat(bs) == Spliced(Flat(blocks), offset, input, skip, Common.Min(|input| - skip, BLOCK_SIZE * |blocks| - offset))
  {
    var len := |input| - skip;
    var blockId := offset / BLOCK_SIZE;
    var blockOffset := offset % BLOCK_SIZE;
    bs := blocks;
    if |blocks| == 0 {
      return;
    }
    ghost var flat0 := Flat(blocks);
    var done: nat := 0;
    WriteProgressStart(blocks, input, skip, offset);
    while len > 0 && blockId < |bs|
      invariant WriteProgress(flat0, offset, input, skip, bs, blockId, blockOffset, done, len)
      invariant |bs| == |blocks|
      decreases len
    {
      var l := Common.Min(BLOCK_SIZE - blockOffset, len);
      var piece := input[skip + done..skip + done + l];
      var updated := bs[blockId := bs[blockId][..blockOffset] + piece + bs[blockId][blockOffset + l..]];
      WriteProgressStep(flat0, offset, input, skip, bs, blockId, blockOffset, done, len, l, updated);
      bs := updated;
      len := len - l;
      blockOffset := 0;
      blockId := blockId + 1;
      done := done + l;
    }
    WriteProgressEnd(flat0, offset, input, skip, bs, blockId, blockOffset, done, len);
  }

  /**
   * The state of the block loop of `writeToCache` after `done` bytes: the
   * first `done` input bytes are spliced in at `offset`, `len` are left, and
   * while some are left the next one goes to byte `blockOffset` of block
   * `blockId`, or the cache is full.
   */
  ghost predicate WriteProgress(flat0: seq<u8>, offset: nat, input: seq<u8>, skip: nat,
                                bs: seq<seq<u8>>, blockId: int, blockOffset: int, done: nat, len: int)
  {
    UniformBlocks(bs) && |flat0| == BLOCK_SIZE * |bs| && 0 <= blockId && 0 <= blockOffset < BLOCK_SIZE
    && 0 <= len && skip + done + len == |input| && offset + done <= |flat0|
    && Flat(bs) == Spliced(flat0, offset, input, skip, done)
    && (len > 0 && blockId < |bs| ==> blockId * BLOCK_SIZE + blockOffset == offset + done)
    && (len > 0 && blockId >= |bs| ==> offset + done == |flat0|)
  }

  lemma {:induction false} WriteProgressStart(blocks: seq<seq<u8>>, input: seq<u8>, skip: nat, offset: nat)
    requires UniformBlocks(blocks) && skip <= |input| && |blocks| > 0 && offset < BLOCK_SIZE * |blocks|
    ensures WriteProgress(Flat(blocks), offset, input, skip, blocks, offset / BLOCK_SIZE, offset % BLOCK_SIZE, 0, |input| - skip)
  {
    assert Spliced(Flat(blocks), offset, input, skip, 0) == Flat(blocks);
  }

  lemma {:induction false} WriteProgressStep(flat0: seq<u8>, offset: nat, input: seq<u8>, skip: nat,
                                             bs: seq<seq<u8>>, blockId: int, blockOffset: int, done: nat, len: int,
                                             l: nat, updated: seq<seq<u8>>)
    requires WriteProgress(flat0, offset, input, skip, bs, blockId, blockOffset, done, len)
    requires len > 0 && blockId < |bs| && l == Common.Min(BLOCK_SIZE - blockOffset, len)
    requires updated == bs[blockId := bs[blockId][..blockOffset] + input[skip + done..skip + done + l] + bs[blockId][blockOffset + l..]]
    ensures WriteProgress(flat0, offset, input, skip, updated, blockId + 1, 0, done + l, len - l)
  {
    WriteStep(bs, blockId, blockOffset, flat0, offset, input, skip, done, l, updated, done + l);
    NextBlock(blockId, blockOffset, offset + done, len, l, |bs|);
  }

  lemma {:induction false} WriteProgressEnd(flat0: seq<u8>, offset: nat, input: seq<u8>, skip: nat,
                                            bs: seq<seq<u8>>, blockId: int, blockOffset: int, done: nat, len: int)
    requires WriteProgress(flat0, offset, input, skip, bs, blockId, blockOffset, done, len)
    requires !(len > 0 && blockId < |bs|)
    ensures UniformBlocks(bs) && Flat(bs) == Spliced(flat0, offset, input, skip, Common.Min(|input| - skip, |flat0| - offset))
  {
  }

  /** Each cached byte is either overwritten by the input byte for its address or left alone. */
  lemma {:induction false} CacheAfterWriteBytes(flat: seq<u8>, first: u64, last: u64, input: seq<u8>, adr: u64, k: nat)
    requires |input| < U64_MODULUS && k < |flat|
    requires first <= last ==> last - first < |flat|
    ensures var r := CacheAfterWrite(flat, first, last, input, adr);
      r[k] == if adr <= first + k < adr + |input| && Common.Max(adr, first) <= last
              then input[first + k - adr] else flat[k]
  {
  }

  /** Writing a range that lies in [firstBlockAddr, lastValidAddr] and copying it back returns what was written. */
  lemma {:induction false} WriteThenCopy(blocks: seq<seq<u8>>, newBlocks: seq<seq<u8>>, first: u64, last: u64, input: seq<u8>, adr: u64)
    requires UniformBlocks(blocks) && UniformBlocks(newBlocks) && |blocks| > 0
    requires first <= last && last - first < BLOCK_SIZE * |blocks|
    requires |input| < U64_MODULUS && first <= adr <= last && adr + |input| - 1 <= last
    requires Flat(newBlocks) == CacheAfterWrite(Flat(blocks), first, last, input, adr)
    ensures CopyResult(newBlocks, first, last, adr, |input|) == Some(input)
  {
    var r := Flat(newBlocks);
    assert BLOCK_SIZE * |newBlocks| == BLOCK_SIZE * |blocks|;
    assert |newBlocks| == |blocks|;
    forall k | 0 <= k < |input|
      ensures r[adr - first + k] == input[k]
    {
      CacheAfterWriteBytes(Flat(blocks), first, last, input, adr, adr - first + k);
    }
    assert r[adr - first..adr - first + |input|] == input;
  }

  /**
   * The block-aligned window onto memory. `blocks` are the 4096-byte blocks
   * starting at `firstBlockAddr`; `lastValidAddr` is the last address a copy
   * may read.
   */
  class MemoryData {
    var blocks: seq<seq<u8>>
    var firstBlockAddr: u64
    var lastValidAddr: u64

    constructor ()
      ensures blocks == [] && firstBlockAddr == 0 && lastValidAddr == 0
    {
      blocks := [];
      firstBlockAddr := 0;
      lastValidAddr := 0;
    }

    ghost predicate Valid()
      reads this
    {
      UniformBlocks(blocks) &&
      firstBlockAddr + |blocks| * BLOCK_SIZE <= U64_MODULUS &&
      (firstBlockAddr <= lastValidAddr && |blocks| > 0 ==>
        lastValidAddr - firstBlockAddr < BLOCK_SIZE * |blocks|)
    }

    /**
     * `fetch(address, length)` with the empty-request defect corrected; the
     * memory behind `Core()->ioRead` is the parameter `mem`.
     */
    method Fetch(mem: u64 -> u8, address: u64, length: nat)
      requires FetchFits(address, length)
      modifies this
      ensures Valid()
      ensures var p := FetchPlanFor(address, length);
        firstBlockAddr == p.firstBlockAddr && lastValidAddr == p.lastValidAddr &&
        |blocks| == p.blockCount
      ensures forall j :: 0 <= j < |blocks| ==> blocks[j] == ReadBlock(mem, firstBlockAddr + j * BLOCK_SIZE)
    {
      var p := FetchPlanFor(address, length);
      firstBlockAddr := p.firstBlockAddr;
      lastValidAddr := p.lastValidAddr;
      blocks := [];
      var addr: u64 := firstBlockAddr;
      var i := 0;
      while i < p.blockCount
        invariant 0 <= i <= p.blockCount && |blocks| == i
        invariant firstBlockAddr == p.firstBlockAddr && lastValidAddr == p.lastValidAddr
        invariant addr == Wrap64(firstBlockAddr + i * BLOCK_SIZE)
        invariant forall j :: 0 <= j < i ==> blocks[j] == ReadBlock(mem, firstBlockAddr + j * BLOCK_SIZE)
      {
        assert i * BLOCK_SIZE < p.blockCount * BLOCK_SIZE;
        assert addr == firstBlockAddr + i * BLOCK_SIZE;
        blocks := blocks + [ReadBlock(mem, addr)];
        addr := Wrap64(addr + BLOCK_SIZE);
        i := i + 1;
      }
    }

    /** `copy(out, addr, len)`: the cached bytes, taken from at most two blocks, or 0xff bytes and false. */
    method Copy(addr: u64, len: nat) returns (ok: bool, out: seq<u8>)
      requires Valid()
      requires CopyResult(blocks, firstBlockAddr, lastValidAddr, addr, len).Some? ==>
        len <= 2 * BLOCK_SIZE - (addr - firstBlockAddr) % BLOCK_SIZE
      ensures ok <==> CopyResult(blocks, firstBlockAddr, lastValidAddr, addr, len).Some?
      ensures ok ==> out == CopyResult(blocks, firstBlockAddr, lastValidAddr, addr, len).value
      ensures !ok ==> out == Repeat8(0xff, len)
    {
      if addr < firstBlockAddr || addr > lastValidAddr || lastValidAddr - addr + 1 < len || |blocks| == 0 {
        return false, Repeat8(0xff, len);
      }
      var totalOffset := addr - firstBlockAddr;
      var blockId := totalOffset / BLOCK_SIZE;
      var blockOffset := totalOffset % BLOCK_SIZE;
      var firstPart := BLOCK_SIZE - blockOffset;
      FlatAt(blocks, blockId);
      if firstPart >= len {
        out := blocks[blockId][blockOffset..blockOffset + len];
      } else {
        FlatAt(blocks, blockId + 1);
        out := blocks[blockId][blockOffset..] + blocks[blockId + 1][..len - firstPart];
        assert Flat(blocks[blockId + 1..]) == blocks[blockId + 1] + Flat(blocks[blockId + 2..]);
      }
      ok := true;
    }

    /** `writeToCache(in, adr, |in|)` with the prefix test corrected. */
    method WriteToCache(input: seq<u8>, adr: u64)
      requires Valid() && |input| < U64_MODULUS
      modifies this
      ensures Valid()
      ensures firstBlockAddr == old(firstBlockAddr) && lastValidAddr == old(lastValidAddr)
      ensures |blocks| == |old(blocks)|
      ensures Flat(blocks) == CacheAfterWrite(old(Flat(blocks)), firstBlockAddr, lastValidAddr, input, adr)
    {
      var skip := 0;
      var len: nat := |input|;
      var a := adr;
      if a < firstBlockAddr {
        var prefix := firstBlockAddr - a;
        if prefix >= len {
          return;
        }
        skip := prefix;
        a := a + prefix;
        len := len - prefix;
      }
      if a > lastValidAddr {
        return;
      }
      var offset := a - firstBlockAddr;
      assert |blocks| > 0 ==> offset < |Flat(blocks)|;
      var bs := WriteBlocks(blocks, input, skip, offset);
      ghost var n := if |blocks| > 0 then Common.Min(|input| - skip, |Flat(blocks)| - offset) else 0;
      WriteFinished(Flat(blocks), firstBlockAddr, lastValidAddr, input, adr, skip, offset, n, |blocks|, Flat(bs));
      blocks := bs;
    }

    /**
     * `minIndex`: the first cached address. No copy starting below it
     * succeeds, and when anything is cached a one-byte copy at it does.
     */
    function MinIndex(): (r: u64)
      requires Valid()
      reads this
      ensures forall a: u64 :: a < r ==> CopyResult(blocks, firstBlockAddr, lastValidAddr, a, 1).None?
      ensures |blocks| > 0 && r <= lastValidAddr ==> CopyResult(blocks, firstBlockAddr, lastValidAddr, r, 1).Some?
    {
      firstBlockAddr
    }
  }

  /** `memset(out, b, n)`. */
  function Repeat8(b: u8, n: nat): (s: seq<u8>)
    ensures |s| == n && forall i :: 0 <= i < n ==> s[i] == b
  {
    seq(n, _ => b)
  }
}
