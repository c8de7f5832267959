/**
 * The bookkeeping of the disassembly graph (src/widgets/DisassemblerGraphView.cpp):
 * building a block and its outgoing edges from the analysis description,
 * cleaning up the edges, which instruction contains an address, which
 * instruction a mouse row points at, and following a branch.
 *
 * The analysis description (the JSON of the function) is a parameter. The
 * instruction text is left out except for the number of lines it takes.
 * `std::unordered_map` iteration order is a parameter where a loop's result
 * depends on it.
 */
module DisassemblerGraphView {
  import opened Common

  /** `Instr`: an instruction's address, its size, and how many text lines it takes. */
  datatype Instr = Instr(addr: u64, size: u64, lines: nat)

  /** `DisassemblyBlock`: the header text's line count, the instructions, and where its branches go. */
  datatype DisassemblyBlock = DisassemblyBlock(entry: u64, headerLines: nat, instrs: seq<Instr>,
                                               truePath: u64, falsePath: u64)

  /** One op of a block in the analysis description: its address. */
  datatype OpDesc = OpDesc(offset: u64)
  /**
   * One block of the analysis description: `fail`/`jump` (0 when absent), the
   * switch cases (`None` for a case whose target does not parse), and the ops.
   */
  datatype BlockDesc = BlockDesc(offset: u64, size: u64, fail: u64, jump: u64,
                                 cases: seq<Option<u64>>, ops: seq<OpDesc>)

  // ---------------------------------------------------------------- instructions

  /** `Instr::contains`: the address lies in `[addr, addr + size)`; the difference is taken only once it cannot wrap. */
  predicate Contains(i: Instr, a: u64) {
    i.addr <= a && Wrap64(a - i.addr) < i.size
  }

  /** Containment is the half-open interval test, so an empty instruction contains nothing. */
  lemma {:induction false} ContainsInterval(i: Instr, a: u64)
    ensures Contains(i, a) <==> i.addr <= a < i.addr + i.size
    ensures i.size == 0 ==> !Contains(i, a)
  {
    if i.addr <= a {
      assert Wrap64(a - i.addr) == a - i.addr;
    }
  }

  // ---------------------------------------------------------------- building a block

  /** The edges the description gives a block: fail, then jump, then the parsed switch cases in order. */
  function DescribedEdges(b: BlockDesc): seq<u64> {
    (if b.fail != 0 then [b.fail] else []) + (if b.jump != 0 then [b.jump] else [])
    + FilterMap(b.cases, (c: Option<u64>) => c)
  }

  /** The size of op k: the distance to the next op, or to the block end for the last one, both modulo 2^64. */
  function OpSize(b: BlockDesc, k: nat): u64
    requires k < |b.ops|
  {
    if k < |b.ops| - 1 then Wrap64(b.ops[k + 1].offset - b.ops[k].offset)
    else Wrap64(Wrap64(b.offset + b.size) - b.ops[k].offset)
  }

  /**
   * The block `loadCurrentGraph` builds for one block description: the false
   * branch is `fail`, the true branch is `jump` only when `fail` is there too,
   * and each op becomes a one-line instruction reaching to the next op.
   */
  function BlockOf(b: BlockDesc, headerLines: nat): DisassemblyBlock
  {
    DisassemblyBlock(b.offset, headerLines,
                     seq(|b.ops|, k requires 0 <= k < |b.ops| => Instr(b.ops[k].offset, OpSize(b, k), 1)),
                     if b.fail != 0 && b.jump != 0 then b.jump else RVA_INVALID,
                     if b.fail != 0 then b.fail else RVA_INVALID)
  }

  /**
   * The block and edges `loadCurrentGraph` builds for one block description.
   * Every instruction text is one line, since it is made from one rich-text list.
   */
  method LoadBlock(b: BlockDesc, headerLines: nat) returns (db: DisassemblyBlock, edges: seq<u64>)
    ensures db == BlockOf(b, headerLines)
    ensures db.entry == b.offset && db.headerLines == headerLines
    ensures db.falsePath == (if b.fail != 0 then b.fail else RVA_INVALID)
    ensures db.truePath == (if b.fail != 0 && b.jump != 0 then b.jump else RVA_INVALID)
    ensures edges == DescribedEdges(b)
    ensures |db.instrs| == |b.ops|
    ensures forall k :: 0 <= k < |b.ops| ==> db.instrs[k] == Instr(b.ops[k].offset, OpSize(b, k), 1)
  {
    var truePath, falsePath := RVA_INVALID, RVA_INVALID;
    edges := [];
    if b.fail != 0 {
      falsePath := b.fail;
      edges := edges + [b.fail];
    }
    if b.jump != 0 {
      if b.fail != 0 {
        truePath := b.jump;
      }
      edges := edges + [b.jump];
    }
    ghost var fixed := edges;
    var c := 0;
    while c < |b.cases|
      invariant c <= |b.cases| && edges == fixed + FilterMap(b.cases[..c], (o: Option<u64>) => o)
    {
      assert b.cases[..c + 1][..c] == b.cases[..c];
      if b.cases[c].Some? {
        edges := edges + [b.cases[c].value];
      }
      c := c + 1;
    }
    assert b.cases[..c] == b.cases;
    var instrs: seq<Instr> := [];
    var k := 0;
    while k < |b.ops|
      invariant k <= |b.ops| && |instrs| == k
      invariant forall j :: 0 <= j < k ==> instrs[j] == Instr(b.ops[j].offset, OpSize(b, j), 1)
    {
      var size: u64;
      if k < |b.ops| - 1 {
        size := Wrap64(b.ops[k + 1].offset - b.ops[k].offset);
      } else {
        size := Wrap64(Wrap64(b.offset + b.size) - b.ops[k].offset);
      }
      instrs := instrs + [Instr(b.ops[k].offset, size, 1)];
      k := k + 1;
    }
    db := DisassemblyBlock(b.offset, headerLines, instrs, truePath, falsePath);
    assert db.instrs == BlockOf(b, headerLines).instrs;
  }

  /** The ops lie in increasing order inside the block, which does not wrap around. */
  predicate WellLaidOut(b: BlockDesc) {
    b.offset + b.size < U64_MODULUS
    && (forall k :: 0 <= k < |b.ops| ==> b.offset <= b.ops[k].offset < b.offset + b.size)
    && (forall k :: 0 <= k < |b.ops| - 1 ==> b.ops[k].offset < b.ops[k + 1].offset)
  }

  /** For a well laid out block, each instruction ends where the next starts and the last ends at the block end. */
  lemma {:induction false} SizesTile(b: BlockDesc, k: nat)
    requires WellLaidOut(b) && k < |b.ops|
    ensures b.ops[k].offset + OpSize(b, k) == if k < |b.ops| - 1 then b.ops[k + 1].offset else b.offset + b.size
    ensures OpSize(b, k) > 0
  {
  }

  /**
   * For a well laid out block, every address from the first op to the block
   * end lies in the instruction of exactly one op.
   */
  lemma {:induction false} InstructionsPartitionBlock(b: BlockDesc, a: u64)
    requires WellLaidOut(b) && |b.ops| > 0 && b.ops[0].offset <= a < b.offset + b.size
    ensures exists k :: 0 <= k < |b.ops| && Contains(Instr(b.ops[k].offset, OpSize(b, k), 1), a)
    ensures forall k1, k2 :: 0 <= k1 < k2 < |b.ops| && Contains(Instr(b.ops[k1].offset, OpSize(b, k1), 1), a)
              ==> !Contains(Instr(b.ops[k2].offset, OpSize(b, k2), 1), a)
  {
    var k := 0;
    while k + 1 < |b.ops| && b.ops[k + 1].offset <= a
      invariant k < |b.ops| && b.ops[k].offset <= a
    {
      k := k + 1;
    }
    SizesTile(b, k);
    ContainsInterval(Instr(b.ops[k].offset, OpSize(b, k), 1), a);
    forall k1, k2 | 0 <= k1 < k2 < |b.ops| && Contains(Instr(b.ops[k1].offset, OpSize(b, k1), 1), a)
      ensures !Contains(Instr(b.ops[k2].offset, OpSize(b, k2), 1), a)
    {
      SizesTile(b, k1);
      ContainsInterval(Instr(b.ops[k1].offset, OpSize(b, k1), 1), a);
      ContainsInterval(Instr(b.ops[k2].offset, OpSize(b, k2), 1), a);
      OffsetsIncrease(b, k1 + 1, k2);
    }
  }

  lemma {:induction false} OffsetsIncrease(b: BlockDesc, i: nat, j: nat)
    requires WellLaidOut(b) && i <= j < |b.ops|
    ensures b.ops[i].offset <= b.ops[j].offset
    decreases j - i
  {
    if i < j {
      OffsetsIncrease(b, i + 1, j);
    }
  }

  // ---------------------------------------------------------------- edge cleanup

  /**
   * The edges `cleanupEdges` keeps, in order: those whose target is a block
   * and was not kept already.
   */
  function CleanEdges(edges: seq<u64>, blockSet: set<u64>): seq<u64>
  {
    if edges == [] then []
    else
      var kept := CleanEdges(edges[..|edges| - 1], blockSet);
      var t := edges[|edges| - 1];
      kept + (if t in blockSet && t !in kept then [t] else [])
  }

  /** A target is kept iff it is a block and occurs among the edges. */
  lemma {:induction false} CleanEdgesMembership(edges: seq<u64>, blockSet: set<u64>, t: u64)
    ensures t in CleanEdges(edges, blockSet) <==> t in edges && t in blockSet
    decreases |edges|
  {
    if edges != [] {
      CleanEdgesMembership(edges[..|edges| - 1], blockSet, t);
      assert edges == edges[..|edges| - 1] + [edges[|edges| - 1]];
    }
  }

  /** No target is kept twice. */
  lemma {:induction false} CleanEdgesDistinct(edges: seq<u64>, blockSet: set<u64>)
    ensures Distinct(CleanEdges(edges, blockSet))
    decreases |edges|
  {
    if edges != [] {
      CleanEdgesDistinct(edges[..|edges| - 1], blockSet);
    }
  }

  /** The kept targets are in the order of their first occurrences among the edges. */
  lemma {:induction false} CleanEdgesOrder(edges: seq<u64>, blockSet: set<u64>, i: nat, j: nat)
    requires i < j < |CleanEdges(edges, blockSet)|
    ensures CleanEdges(edges, blockSet)[i] in edges && CleanEdges(edges, blockSet)[j] in edges
    ensures IndexOf(edges, CleanEdges(edges, blockSet)[i]) < IndexOf(edges, CleanEdges(edges, blockSet)[j])
    decreases |edges|
  {
    var init := edges[..|edges| - 1];
    var kept := CleanEdges(init, blockSet);
    var last := edges[|edges| - 1];
    assert edges == init + [last];
    var r := CleanEdges(edges, blockSet);
    CleanEdgesMembership(init, blockSet, r[i]);
    assert r[i] == kept[i];
    IndexOfAppend(init, r[i], last);
    if j < |kept| {
      CleanEdgesMembership(init, blockSet, r[j]);
      CleanEdgesOrder(init, blockSet, i, j);
      IndexOfAppend(init, r[j], last);
    } else {
      assert r[j] == last && last !in kept;
      CleanEdgesMembership(init, blockSet, last);
      IndexOfUnique(edges, last, |init|);
    }
  }

  /** An index holding `c` with no `c` before it is the first occurrence. */
  lemma {:induction false} IndexOfUnique(s: seq<u64>, c: u64, i: nat)
    requires i < |s| && s[i] == c && c !in s[..i]
    ensures IndexOf(s, c) == i
    decreases i
  {
    if i > 0 {
      assert s[..i][0] == s[0];
      assert s[1..][..i - 1] == s[..i][1..];
      IndexOfUnique(s[1..], c, i - 1);
    }
  }

  /** Appending does not move the first occurrence of a value already present. */
  lemma {:induction false} IndexOfAppend(init: seq<u64>, c: u64, x: u64)
    requires c in init
    ensures IndexOf(init + [x], c) == IndexOf(init, c)
  {
    var i := IndexOf(init, c);
    assert (init + [x])[..i] == init[..i];
    IndexOfUnique(init + [x], c, i);
  }

  // ---------------------------------------------------------------- the graph view

  /** The total text lines of the first `n` instructions. */
  function LinesBefore(instrs: seq<Instr>, n: nat): nat
    requires n <= |instrs|
  {
    if n == 0 then 0 else LinesBefore(instrs, n - 1) + instrs[n - 1].lines
  }

  lemma {:induction false} LinesBeforeMono(instrs: seq<Instr>, i: nat, j: nat)
    requires i <= j <= |instrs|
    ensures LinesBefore(instrs, i) <= LinesBefore(instrs, j)
    decreases j
  {
    if i < j {
      LinesBeforeMono(instrs, i, j - 1);
    }
  }

  /** An instruction `blockForAddress` does not skip, and that contains the address. */
  predicate HoldsAddress(i: Instr, a: u64) {
    i.addr != RVA_INVALID && i.size != RVA_INVALID && Contains(i, a)
  }

  ghost predicate BlockHolds(db: DisassemblyBlock, a: u64) {
    exists k :: 0 <= k < |db.instrs| && HoldsAddress(db.instrs[k], a)
  }

  /** The first block, in the iteration order `order`, with an instruction containing the address. */
  ghost function FirstHolding(order: seq<u64>, dbs: map<u64, DisassemblyBlock>, a: u64): (r: Option<u64>)
    ensures r.Some? ==> r.value in order && r.value in dbs && BlockHolds(dbs[r.value], a)
    ensures r.None? ==> forall k :: k in order && k in dbs ==> !BlockHolds(dbs[k], a)
  {
    if order == [] then None
    else if order[0] in dbs && BlockHolds(dbs[order[0]], a) then Some(order[0])
    else FirstHolding(order[1..], dbs, a)
  }

  /** The graph of the current function: the layout blocks' edges and the disassembly blocks, both by entry. */
  class DisassemblerGraph {
    var blocks: map<u64, seq<u64>>
    var disassemblyBlocks: map<u64, DisassemblyBlock>

    constructor ()
      ensures blocks == map[] && disassemblyBlocks == map[]
    {
      blocks, disassemblyBlocks := map[], map[];
    }

    /** Compacts one edge vector in place: `outIt` trails the reading position, and the tail is erased. */
    static method CompactEdges(edges: seq<u64>, blockSet: set<u64>) returns (r: seq<u64>)
      ensures r == CleanEdges(edges, blockSet)
    {
      var e := edges;
      var outIt := 0;
      var seen: set<u64> := {};
      var it := 0;
      while it < |e|
        invariant outIt <= it <= |e| == |edges| && forall j :: it <= j < |e| ==> e[j] == edges[j]
        invariant e[..outIt] == CleanEdges(edges[..it], blockSet)
        invariant forall t :: t in seen <==> t in e[..outIt]
      {
        assert edges[..it + 1] == edges[..it] + [e[it]];
        var t := e[it];
        if t in blockSet && t !in seen {
          e := e[outIt := t];
          assert e[..outIt + 1] == e[..outIt] + [t];
          outIt := outIt + 1;
          seen := seen + {t};
        }
        it := it + 1;
      }
      assert edges[..it] == edges;
      r := e[..outIt];
    }

    /** `cleanupEdges`: every block keeps only the edges to blocks, each target once, in order. */
    method CleanupEdges()
      modifies this
      ensures blocks.Keys == old(blocks).Keys
      ensures forall k :: k in blocks ==> blocks[k] == CleanEdges(old(blocks)[k], old(blocks).Keys)
      ensures disassemblyBlocks == old(disassemblyBlocks)
    {
      var todo := blocks.Keys;
      ghost var original := blocks;
      while todo != {}
        invariant todo <= blocks.Keys == original.Keys && disassemblyBlocks == old(disassemblyBlocks)
        invariant forall k :: k in blocks ==> blocks[k] == if k in todo then original[k] else CleanEdges(original[k], original.Keys)
        decreases todo
      {
        var k :| k in todo;
        var cleaned := CompactEdges(blocks[k], blocks.Keys);
        blocks := blocks[k := cleaned];
        todo := todo - {k};
      }
    }

    /**
     * `getInstrForMouseEvent`: the first instruction whose text ends below the
     * row, counting rows from the top of the header; none past the last line.
     */
    static method InstrForRow(db: DisassemblyBlock, mouseRow: int) returns (r: Option<nat>)
      ensures r.None? <==> |db.instrs| == 0 || mouseRow >= db.headerLines + LinesBefore(db.instrs, |db.instrs|)
      ensures r.Some? ==> r.value < |db.instrs| && mouseRow < db.headerLines + LinesBefore(db.instrs, r.value + 1)
      ensures r.Some? ==> mouseRow >= db.headerLines ==> db.headerLines + LinesBefore(db.instrs, r.value) <= mouseRow
    {
      var curRow := db.headerLines;
      var i := 0;
      while i < |db.instrs|
        invariant i <= |db.instrs| && curRow == db.headerLines + LinesBefore(db.instrs, i)
        invariant i > 0 ==> mouseRow >= curRow
      {
        assert LinesBefore(db.instrs, i + 1) == LinesBefore(db.instrs, i) + db.instrs[i].lines;
        if mouseRow < curRow + db.instrs[i].lines {
          LinesBeforeMono(db.instrs, i + 1, |db.instrs|);
          return Some(i);
        }
        curRow := curRow + db.instrs[i].lines;
        i := i + 1;
      }
      return None;
    }

    /** `getAddrForMouseEvent`: header rows give the block entry, instruction rows that instruction's address. */
    static method AddrForRow(db: DisassemblyBlock, mouseRow: int) returns (a: u64)
      ensures mouseRow < db.headerLines ==> a == db.entry
      ensures db.headerLines <= mouseRow < db.headerLines + LinesBefore(db.instrs, |db.instrs|)
              ==> exists k :: 0 <= k < |db.instrs| && a == db.instrs[k].addr
                    && db.headerLines + LinesBefore(db.instrs, k) <= mouseRow < db.headerLines + LinesBefore(db.instrs, k + 1)
      ensures mouseRow >= db.headerLines + LinesBefore(db.instrs, |db.instrs|) ==> a == RVA_INVALID
    {
      if mouseRow < db.headerLines {
        return db.entry;
      }
      var instr := InstrForRow(db, mouseRow);
      if instr.Some? {
        return db.instrs[instr.value].addr;
      }
      return RVA_INVALID;
    }

    /** Whether some instruction of the block, not skipped, contains the address. */
    static method HasInstrAt(db: DisassemblyBlock, a: u64) returns (found: bool)
      ensures found <==> BlockHolds(db, a)
    {
      var k := 0;
      while k < |db.instrs|
        invariant k <= |db.instrs| && forall j :: 0 <= j < k ==> !HoldsAddress(db.instrs[j], a)
      {
        var i := db.instrs[k];
        if i.addr == RVA_INVALID || i.size == RVA_INVALID {
        } else if i.addr <= a && Wrap64(a - i.addr) < i.size {
          return true;
        }
        k := k + 1;
      }
      return false;
    }

    /**
     * `blockForAddress`: the first block, in the map's iteration order
     * `order`, with an instruction containing the address.
     */
    method BlockForAddress(order: seq<u64>, a: u64) returns (r: Option<u64>)
      requires forall k :: k in order <==> k in disassemblyBlocks
      ensures r.Some? ==> r.value in disassemblyBlocks && BlockHolds(disassemblyBlocks[r.value], a)
      ensures r.Some? ==> exists n :: 0 <= n < |order| && order[n] == r.value
                            && forall m :: 0 <= m < n ==> !BlockHolds(disassemblyBlocks[order[m]], a)
      ensures r.None? <==> forall k :: k in disassemblyBlocks ==> !BlockHolds(disassemblyBlocks[k], a)
      ensures r == FirstHolding(order, disassemblyBlocks, a)
    {
      var n := 0;
      while n < |order|
        invariant n <= |order| && forall m :: 0 <= m < n ==> !BlockHolds(disassemblyBlocks[order[m]], a)
        invariant FirstHolding(order[n..], disassemblyBlocks, a) == FirstHolding(order, disassemblyBlocks, a)
      {
        assert order[n..][1..] == order[n + 1..];
        var found := HasInstrAt(disassemblyBlocks[order[n]], a);
        if found {
          return Some(order[n]);
        }
        n := n + 1;
      }
      forall k | k in disassemblyBlocks ensures !BlockHolds(disassemblyBlocks[k], a) {
        var m := IndexOf(order, k);
      }
      return None;
    }

    /**
     * `takeTrue` / `takeFalse`: from the first block holding the current
     * offset, seek to the chosen branch if it has one, else to its first
     * edge's target; without a block, or with neither, do not seek. Looking
     * up the block's edges with `operator[]` inserts an empty entry when there
     * is none.
     */
    method TakeBranch(order: seq<u64>, offset: u64, takeTrue: bool) returns (seek: Option<u64>)
      requires forall k :: k in order <==> k in disassemblyBlocks
      modifies this
      ensures disassemblyBlocks == old(disassemblyBlocks)
      ensures var hit := FirstHolding(order, disassemblyBlocks, offset);
        seek == (if hit.None? then None else TakenTarget(disassemblyBlocks[hit.value], old(blocks), takeTrue))
      ensures (forall k :: k in disassemblyBlocks ==> !BlockHolds(disassemblyBlocks[k], offset))
              ==> seek.None? && blocks == old(blocks)
      ensures forall e :: e in old(blocks) ==> e in blocks && blocks[e] == old(blocks)[e]
      ensures forall e :: e in blocks && e !in old(blocks) ==> blocks[e] == []
    {
      var db := BlockForAddress(order, offset);
      if db.None? {
        return None;
      }
      var block := disassemblyBlocks[db.value];
      var path := if takeTrue then block.truePath else block.falsePath;
      if path != RVA_INVALID {
        return Some(path);
      }
      if block.entry !in blocks {
        blocks := blocks[block.entry := []];
      }
      if |blocks[block.entry]| > 0 {
        return Some(blocks[block.entry][0]);
      }
      return None;
    }

    /** `takeTrue`. */
    method TakeTrue(order: seq<u64>, offset: u64) returns (seek: Option<u64>)
      requires forall k :: k in order <==> k in disassemblyBlocks
      modifies this
      ensures disassemblyBlocks == old(disassemblyBlocks)
      ensures var hit := FirstHolding(order, disassemblyBlocks, offset);
        seek == (if hit.None? then None else TakenTarget(disassemblyBlocks[hit.value], old(blocks), true))
      ensures forall e :: e in old(blocks) ==> e in blocks && blocks[e] == old(blocks)[e]
    {
      seek := TakeBranch(order, offset, true);
    }

    /** `takeFalse`. */
    method TakeFalse(order: seq<u64>, offset: u64) returns (seek: Option<u64>)
      requires forall k :: k in order <==> k in disassemblyBlocks
      modifies this
      ensures disassemblyBlocks == old(disassemblyBlocks)
      ensures var hit := FirstHolding(order, disassemblyBlocks, offset);
        seek == (if hit.None? then None else TakenTarget(disassemblyBlocks[hit.value], old(blocks), false))
      ensures forall e :: e in old(blocks) ==> e in blocks && blocks[e] == old(blocks)[e]
    {
      seek := TakeBranch(order, offset, false);
    }
  }

  /**
   * Where taking a branch of a block leads: the branch if set, else the
   * first edge's target, else nowhere.
   */
  function TakenTarget(db: DisassemblyBlock, blocks: map<u64, seq<u64>>, takeTrue: bool): Option<u64> {
    var path := if takeTrue then db.truePath else db.falsePath;
    if path != RVA_INVALID then Some(path)
    else if db.entry in blocks && |blocks[db.entry]| > 0 then Some(blocks[db.entry][0])
    else None
  }

  /**
   * A block loaded from a description with both `fail` and `jump` takes its
   * true branch to `jump` and its false one to `fail`; with `fail` alone the
   * false branch goes to `fail`; with either one missing the true branch
   * follows the block's first edge, and there is no seek when it has none.
   */
  lemma {:induction false} LoadedBranches(b: BlockDesc, headerLines: nat, blocks: map<u64, seq<u64>>)
    ensures var db := BlockOf(b, headerLines);
      b.fail != 0 && b.fail != RVA_INVALID ==> TakenTarget(db, blocks, false) == Some(b.fail)
    ensures var db := BlockOf(b, headerLines);
      b.fail != 0 && b.jump != 0 && b.jump != RVA_INVALID ==> TakenTarget(db, blocks, true) == Some(b.jump)
    ensures var db := BlockOf(b, headerLines);
      (b.fail == 0 || b.jump == 0) ==>
        TakenTarget(db, blocks, true) == (if b.offset in blocks && |blocks[b.offset]| > 0 then Some(blocks[b.offset][0]) else None)
  {
  }

}
