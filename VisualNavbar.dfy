/**
 * The navigation bar of src/widgets/VisualNavbar.cpp: how many statistics
 * blocks it asks for (`statsWidth`, a power of two at least the widget
 * width), how each block is classified and how runs of blocks of one kind
 * become one coloured rectangle.
 *
 * Rectangle edges are kept as distances from `stats.from` in bytes: the
 * source scales them by the double `width / (to - from)`, which is left
 * out. The block statistics `Core()` returns are a parameter.
 */
module VisualNavbar {
  import opened Common

  type u32 = x: int | 0 <= x < 0x1_0000_0000

  // ---------------------------------------------------------------- nextPow2

  /** The number of `n >>= 1` steps until `n` is zero. */
  function BitLength(n: nat): nat
  {
    if n == 0 then 0 else 1 + BitLength(n / 2)
  }

  /** `1 << BitLength(n)` is the least power of two above `n`: 1 for 0, at most `2n` otherwise. */
  lemma {:induction false} BitLengthBounds(n: nat)
    ensures Pow2(BitLength(n)) > n
    ensures n > 0 ==> Pow2(BitLength(n)) <= 2 * n
    ensures n > 0 ==> Pow2(BitLength(n) - 1) <= n
    decreases n
  {
    if n > 0 {
      BitLengthBounds(n / 2);
    }
  }

  /** `nextPow2`: a shift loop counting the bits of `n`. */
  method NextPow2(n: u32) returns (p: nat)
    ensures p == Pow2(BitLength(n))
    ensures p > n && (n == 0 ==> p == 1) && (n > 0 ==> p <= 2 * n)
  {
    var m: nat := n;
    var b: nat := 0;
    while m != 0
      invariant b + BitLength(m) == BitLength(n)
    {
      m := m / 2;
      b := b + 1;
    }
    BitLengthBounds(n);
    p := Pow2(b);
  }

  // ---------------------------------------------------------------- blocks

  /** What `Core()->getBlockStatistics` reports for one block. */
  datatype Block = Block(addr: u64, size: u64, functions: nat, strings: nat, symbols: nat, inFunctions: nat)

  datatype BlockStatistics = BlockStatistics(from: u64, to: u64, blocks: seq<Block>)

  datatype DataType = Empty | Code | String | Symbol

  /** The if-chain of `updateGraphicsScene`: functions first, then strings, symbols, and code inside functions. */
  function Classify(b: Block): (t: DataType)
    ensures t == Code <==> b.functions > 0 || (b.strings == 0 && b.symbols == 0 && b.inFunctions > 0)
    ensures t == String <==> b.functions == 0 && b.strings > 0
    ensures t == Symbol <==> b.functions == 0 && b.strings == 0 && b.symbols > 0
    ensures t == Empty <==> b.functions == 0 && b.strings == 0 && b.symbols == 0 && b.inFunctions == 0
  {
    if b.functions > 0 then Code
    else if b.strings > 0 then String
    else if b.symbols > 0 then Symbol
    else if b.inFunctions > 0 then Code
    else Empty
  }

  /** One `xToAddress` entry, without its x coordinates. */
  datatype AddressRange = AddressRange(addressFrom: u64, addressTo: u64)

  /** A coloured rectangle: its kind and its edges as byte distances from `stats.from`. */
  datatype DataItem = DataItem(kind: DataType, left: u64, right: u64)

  /** The state the drawing loop carries: the rectangles so far and `lastDataType`. */
  datatype Scene = Scene(items: seq<DataItem>, last: DataType)

  /** `lastDataType` names the kind of the last rectangle, and no rectangle is empty. */
  predicate SceneInv(s: Scene)
  {
    (s.last != Empty ==> |s.items| > 0 && s.items[|s.items| - 1].kind == s.last) &&
    forall i :: 0 <= i < |s.items| ==> s.items[i].kind != Empty
  }

  /**
   * One pass of the drawing loop: an empty block ends the run, a block of the
   * run's kind widens its rectangle, any other starts a rectangle over
   * itself. The source only sets the rectangle once the run is widened
   * (`SceneStepAsWritten`); here every rectangle has its edges.
   */
  function SceneStep(s: Scene, from: u64, b: Block): (r: Scene)
    requires SceneInv(s)
    ensures SceneInv(r)
    ensures |r.items| <= |s.items| + 1
  {
    var t := Classify(b);
    var right := Wrap64(Wrap64(b.addr + b.size) - from);
    if t == Empty then Scene(s.items, Empty)
    else if t == s.last then
      var item := s.items[|s.items| - 1];
      Scene(s.items[..|s.items| - 1] + [item.(right := if right > item.right then right else item.right)], t)
    else Scene(s.items + [DataItem(t, Wrap64(b.addr - from), right)], t)
  }

  function SceneOf(blocks: seq<Block>, from: u64): (s: Scene)
    ensures SceneInv(s)
    ensures |s.items| <= |blocks|
    decreases |blocks|
  {
    if blocks == [] then Scene([], Empty)
    else SceneStep(SceneOf(blocks[..|blocks| - 1], from), from, blocks[|blocks| - 1])
  }

  /** A run of blocks of one kind, with no empty block between, is drawn as one rectangle. */
  lemma {:induction false} RunIsOneItem(blocks: seq<Block>, from: u64, b: Block)
    requires blocks != [] && Classify(blocks[|blocks| - 1]) != Empty && Classify(b) == Classify(blocks[|blocks| - 1])
    ensures |SceneOf(blocks + [b], from).items| == |SceneOf(blocks, from).items|
  {
    assert (blocks + [b])[..|blocks|] == blocks;
  }

  /** An empty block is never drawn, and one of another kind than the previous block starts a new rectangle. */
  lemma {:induction false} KindChangeStartsItem(blocks: seq<Block>, from: u64, b: Block)
    requires Classify(b) != Empty && (blocks == [] || Classify(b) != Classify(blocks[|blocks| - 1]))
    ensures var s, r := SceneOf(blocks, from), SceneOf(blocks + [b], from);
      |r.items| == |s.items| + 1 && r.items[|s.items|].kind == Classify(b) &&
      r.items[|s.items|].left == Wrap64(b.addr - from)
  {
    assert (blocks + [b])[..|blocks|] == blocks;
    if blocks != [] {
      var init := blocks[..|blocks| - 1];
      assert blocks == init + [blocks[|blocks| - 1]];
      assert SceneOf(blocks, from).last == Classify(blocks[|blocks| - 1]);
    }
  }

  // ---------------------------------------------------------------- the rectangles as written

  /**
   * A rectangle item as the loop leaves it: `setRect` is only called when a
   * run is extended, so an item that never was still has Qt's empty rect
   * (`None`).
   */
  datatype WrittenItem = WrittenItem(kind: DataType, rect: Option<(u64, u64)>)

  /** The loop state as written: the items, `lastDataType` and the edges of `dataItemRect`. */
  datatype WrittenScene = WrittenScene(items: seq<WrittenItem>, last: DataType, left: u64, right: u64)

  predicate WrittenInv(s: WrittenScene)
  {
    s.last != Empty ==> |s.items| > 0
  }

  /** One pass of the drawing loop as written: a new item gets no rect, an extended one gets `dataItemRect`. */
  function SceneStepAsWritten(s: WrittenScene, from: u64, b: Block): (r: WrittenScene)
    requires WrittenInv(s)
    ensures WrittenInv(r) && |s.items| <= |r.items| <= |s.items| + 1
  {
    var t := Classify(b);
    var right := Wrap64(Wrap64(b.addr + b.size) - from);
    if t == Empty then s.(last := Empty)
    else if t == s.last then
      var r := if right > s.right then right else s.right;
      var item := s.items[|s.items| - 1];
      s.(items := s.items[..|s.items| - 1] + [item.(rect := Some((s.left, r)))], right := r)
    else WrittenScene(s.items + [WrittenItem(t, None)], t, Wrap64(b.addr - from), right)
  }

  function SceneOfAsWritten(blocks: seq<Block>, from: u64): (s: WrittenScene)
    ensures WrittenInv(s)
    decreases |blocks|
  {
    if blocks == [] then WrittenScene([], Empty, 0, 0)
    else SceneStepAsWritten(SceneOfAsWritten(blocks[..|blocks| - 1], from), from, blocks[|blocks| - 1])
  }

  /**
   * The same items, of the same kinds; an item whose rect was set has
   * exactly the edges of the corrected one, and `dataItemRect` holds the
   * edges of the last one.
   */
  predicate Agree(w: WrittenScene, c: Scene)
  {
    |w.items| == |c.items| && w.last == c.last &&
    (forall i :: 0 <= i < |w.items| ==> w.items[i].kind == c.items[i].kind) &&
    (forall i :: 0 <= i < |w.items| && w.items[i].rect.Some? ==> w.items[i].rect.value == (c.items[i].left, c.items[i].right)) &&
    (c.last != Empty ==> |c.items| > 0 && (w.left, w.right) == (c.items[|c.items| - 1].left, c.items[|c.items| - 1].right))
  }

  lemma {:induction false} AgreeStep(w: WrittenScene, c: Scene, from: u64, b: Block)
    requires WrittenInv(w) && SceneInv(c) && Agree(w, c)
    ensures Agree(SceneStepAsWritten(w, from, b), SceneStep(c, from, b))
  {
    var w', c' := SceneStepAsWritten(w, from, b), SceneStep(c, from, b);
    var t := Classify(b);
    if t != Empty && t == c.last {
      forall i | 0 <= i < |w'.items| - 1
        ensures w'.items[i] == w.items[i] && c'.items[i] == c.items[i]
      {
      }
    } else if t != Empty {
      forall i | 0 <= i < |w.items|
        ensures w'.items[i] == w.items[i] && c'.items[i] == c.items[i]
      {
      }
    }
  }

  /** The loop as written agrees with `SceneOf` on every item it has set a rect for. */
  lemma {:induction false} AsWrittenAgrees(blocks: seq<Block>, from: u64)
    ensures Agree(SceneOfAsWritten(blocks, from), SceneOf(blocks, from))
    decreases |blocks|
  {
    if blocks != [] {
      var init := blocks[..|blocks| - 1];
      AsWrittenAgrees(init, from);
      AgreeStep(SceneOfAsWritten(init, from), SceneOf(init, from), from, blocks[|blocks| - 1]);
    }
  }

  /**
   * A run of a single block is never given a rect: the item keeps Qt's empty
   * rect, while `SceneOf` draws it over the block.
   */
  lemma OneBlockRunUndrawn(b: Block, from: u64)
    requires Classify(b) != Empty
    ensures SceneOfAsWritten([b], from).items == [WrittenItem(Classify(b), None)]
    ensures SceneOf([b], from).items == [DataItem(Classify(b), Wrap64(b.addr - from), Wrap64(Wrap64(b.addr + b.size) - from))]
  {
    assert [b][..0] == [];
  }

  /** The addresses an `xToAddress` entry covers; the end wraps like `RVA` arithmetic. */
  function RangeOf(b: Block): AddressRange
  {
    AddressRange(b.addr, Wrap64(b.addr + b.size))
  }

  /** The loop over `stats.blocks`: one address range per block and the rectangles of the runs. */
  method DrawBlocks(blocks: seq<Block>, from: u64) returns (ranges: seq<AddressRange>, drawn: seq<DataItem>)
    ensures |ranges| == |blocks| && forall i :: 0 <= i < |blocks| ==> ranges[i] == RangeOf(blocks[i])
    ensures drawn == SceneOf(blocks, from).items
  {
    var scene := Scene([], Empty);
    ranges := [];
    var i := 0;
    while i < |blocks|
      invariant 0 <= i <= |blocks|
      invariant scene == SceneOf(blocks[..i], from)
      invariant |ranges| == i && forall k :: 0 <= k < i ==> ranges[k] == RangeOf(blocks[k])
    {
      ranges := ranges + [RangeOf(blocks[i])];
      assert blocks[..i + 1][..i] == blocks[..i];
      scene := SceneStep(scene, from, blocks[i]);
      i := i + 1;
    }
    assert blocks[..i] == blocks;
    drawn := scene.items;
  }

  /** What `updateGraphicsScene` leaves for the statistics: nothing unless `to > from`, else every block mapped and the runs drawn. */
  predicate Drawn(stats: BlockStatistics, xToAddress: seq<AddressRange>, items: seq<DataItem>)
  {
    (stats.to <= stats.from ==> xToAddress == [] && items == []) &&
    (stats.to > stats.from ==>
       |xToAddress| == |stats.blocks| &&
       (forall i :: 0 <= i < |stats.blocks| ==> xToAddress[i] == RangeOf(stats.blocks[i])) &&
       items == SceneOf(stats.blocks, stats.from).items)
  }

  class Navbar {
    var statsWidth: u32
    var previousWidth: u32
    var stats: BlockStatistics
    var xToAddress: seq<AddressRange>
    var items: seq<DataItem>

    constructor ()
      ensures statsWidth == 0 && previousWidth == 0 && xToAddress == [] && items == []
    {
      statsWidth, previousWidth := 0, 0;
      stats := BlockStatistics(0, 0, []);
      xToAddress, items := [], [];
    }

    /** `updateGraphicsScene`: nothing is drawn unless `stats.to > stats.from`. */
    method UpdateGraphicsScene()
      modifies this
      ensures Drawn(stats, xToAddress, items)
      ensures stats == old(stats) && statsWidth == old(statsWidth) && previousWidth == old(previousWidth)
    {
      xToAddress, items := [], [];
      if stats.to <= stats.from {
        return;
      }
      var ranges, drawn := DrawBlocks(stats.blocks, stats.from);
      xToAddress, items := ranges, drawn;
    }

    /**
     * `paintEvent` with the widget width and the statistics `Core()` would
     * return for the new `statsWidth`: a width above `statsWidth` raises it to
     * the next power of two, one a quarter of it or less halves it; either
     * fetches the statistics again. Returns whether the scene was redrawn.
     */
    method PaintEvent(width: int, fetched: BlockStatistics) returns (redrawn: bool)
      requires 0 <= width < 0x8000_0000
      modifies this
      ensures old(statsWidth) < width ==>
        statsWidth == Pow2(BitLength(width)) && width < statsWidth <= 2 * width && stats == fetched && redrawn
      ensures width <= old(statsWidth) && old(statsWidth) > (width * 4) % U32_MODULUS ==>
        statsWidth == old(statsWidth) / 2 && stats == fetched && redrawn
      ensures width <= old(statsWidth) <= (width * 4) % U32_MODULUS ==>
        statsWidth == old(statsWidth) && stats == old(stats) && (redrawn <==> old(previousWidth) != width)
      ensures redrawn ==> Drawn(stats, xToAddress, items)
      ensures !redrawn ==> xToAddress == old(xToAddress) && items == old(items)
      ensures previousWidth == if old(statsWidth) < width || old(statsWidth) > (width * 4) % U32_MODULUS
                               then old(previousWidth) else width
    {
      var w: u32 := width;
      var fetch := false;
      if statsWidth < w {
        var p := NextPow2(w);
        statsWidth := p;
        fetch := true;
      } else if statsWidth > (w * 4) % U32_MODULUS {
        var halved: int := if statsWidth > 0 then statsWidth / 2 else 0;
        statsWidth := halved;
        fetch := true;
      }
      redrawn := false;
      if fetch {
        stats := fetched;
        UpdateGraphicsScene();
        redrawn := true;
      } else if previousWidth != w {
        previousWidth := w;
        UpdateGraphicsScene();
        redrawn := true;
      }
    }
  }

  /**
   * After `statsWidth` grew to fit a width, painting at that width again
   * does not fetch, for widths below 2^30 where `width * 4` does not wrap.
   */
  lemma {:induction false} GrownWidthIsStable(width: int)
    requires 0 < width < 0x4000_0000
    ensures var s := Pow2(BitLength(width)); width <= s <= (width * 4) % U32_MODULUS
  {
    BitLengthBounds(width);
  }
}
