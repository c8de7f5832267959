# Cutter core algorithms in Dafny

Cutter is a Qt desktop front end for the radare2 and Rizin reverse-engineering
engines. Most of the application adapts engine answers into widgets. Beside
that glue it holds a set of self-contained algorithms with clear contracts, and
this project models those and proves their properties. The source tree holds
two generations of several files: the current one under `src/` and an older
one (`widgets/`, `dialogs/`, `src/Cutter.cpp`). Both are modelled where both are
part of the core. The older modules have the prefix `Legacy`.

Modules, following the source files:

- `Common`: the shared vocabulary.
  - fixed-width unsigned integers with their 64-bit wrap-around written out;
  - C++ truncating division;
  - the `RVA_INVALID`/`RVA_MAX` sentinel (both are `UINT64_MAX`);
  - hexadecimal and octal text forms;
  - small sequence helpers.
- `BinaryTrees`, `LazySegmentTrees`, `LinkedListPool` (`src/common/BinaryTrees.h`, `src/common/LinkedListPool.h`):
  - the bottom-up point-set segment tree and its min tree with leftmost and rightmost "less than" searches;
  - the lazy range-assign max tree;
  - the pool of singly linked lists stored in one vector.

  All three are classes over arrays, proved against value-level functions.
- `HexWidgetTypes`, `HexWidget`, `HexTextView`, `HexdumpRangeDialog`: the hex views.
  - the saturating cursor, the selection, the buffer and the block-aligned memory cache;
  - item decoding and widths, colours, cursor and wheel arithmetic, the screen cache;
  - the text hexdump with its position-to-address conversions and window bounds;
  - the range dialog with its 64-bit overflow checks.
- `RichTextPainter`: cropping rich text to a number of columns, and rendering it as HTML.
- `LegacyGraphGridLayout`, `GraphGridLayout`, `GridEdges`: the control-flow graph grid layouts of both generations.
  - depth-first topological sort and level assignment;
  - tree selection;
  - recursive block placement;
  - the "first free lane" search for edge routing.
- `DisassemblerGraphView`: the graph view's bookkeeping.
  - block and edge construction;
  - edge cleanup;
  - instruction containment;
  - mapping a row to an instruction;
  - following branches.
- `LegacyDisassemblyWidget`, `DisassemblyWidget`: the linear disassembly view.
  - refreshing and scrolling;
  - the seek history;
  - the `Range` helper and the first arrow levels;
  - the left panel's arrow store.
- `DecompilerWidget`, `SyntaxColor`: the decompiler output.
  - UTF-8 offset remapping and annotation lookups;
  - the annotated-code container and its single-pass colouring printer.
- `ConsoleWidget`, `R2ui`, `SettingsUpgrade`, `NewFileDialog`, `LegacyNewFileDialog`, `VisualNavbar`: small state machines and transforms.
  - the console history and the web UI's navigation history;
  - the settings migrations;
  - the recent-file lists and shellcode extraction;
  - the navigation bar's statistics width and block classification.
- `CutterCore`, `LegacyCutterCore`: the string transforms and list builders of the two cores.
  - `sanitizeStringForCommand` is identical in `src/Cutter.cpp:146-150` and `src/core/Cutter.cpp:352-356`.
  - It is modelled once, as `CutterCore.SanitizeStringForCommand`.

Where the source works by updating state, the model is a class with `modifies`
clauses. Each of its methods is proved against a value-level function, and
lemmas state the properties of that function. Data obtained from the engine
through `Core()` becomes a parameter. Examples are memory bytes, flags,
disassembly lines and JSON answers.

## Model

| member | source | states |
|---|---|---|
| BinaryTrees.BuildInnerNodes | src/common/BinaryTrees.h:56-61 | every inner node 1..size-1 ends up the combine of its two children; the leaves are untouched |
| BinaryTrees.BuildStartEmptyTree | src/common/BinaryTrees.h:58 | for an empty tree the unsigned loop start `size - 1` is `SIZE_MAX`, outside the empty node vector |
| BinaryTrees.NodeMin | src/common/BinaryTrees.h:108-111 | under the min invariant every node holds the minimum of the leaves of its range, and one of them attains it |
| BinaryTrees.PointSetMinTree.constructor | src/common/BinaryTrees.h:17-21 | `2 * size` nodes, every position reads 0 |
| BinaryTrees.PointSetMinTree.Filled | src/common/BinaryTrees.h:23-27 | every position reads the initial value and the min invariant holds |
| BinaryTrees.PointSetMinTree.Set | src/common/BinaryTrees.h:81-90 | the position reads the new value, every other position keeps its value, and the min invariant is restored |
| BinaryTrees.PointSetMinTree.RightMostLessThan | src/common/BinaryTrees.h:119-154 | -1 exactly when no position in 0..position is below the value; otherwise the largest such position |
| BinaryTrees.PointSetMinTree.LeftMostLessThan | src/common/BinaryTrees.h:162-197 | -1 exactly when no position in position..size-1 is below the value; otherwise the smallest such position |
| BinaryTrees.SearchRight | src/common/BinaryTrees.h:125-142 | the upward loop finds 0 when nothing in 0..position is below the value, else a node whose range holds the rightmost such leaf |
| BinaryTrees.DescendRight | src/common/BinaryTrees.h:147-152 | the downward loop reaches exactly that rightmost leaf |
| BinaryTrees.SearchLeft | src/common/BinaryTrees.h:168-185 | the upward loop finds 0 when nothing in position..size-1 is below the value, else a node whose range holds the leftmost such leaf |
| BinaryTrees.DescendLeft | src/common/BinaryTrees.h:190-195 | the downward loop reaches exactly that leftmost leaf |
| LazySegmentTrees.RangeAssignMaxTree.constructor | src/common/BinaryTrees.h:205-222 | the height h is the bit length of size, and every position logically holds the initial value |
| LazySegmentTrees.RangeAssignMaxTree.PushDown | src/common/BinaryTrees.h:283-297 | a set promise copies the node's value to both children, passes the promise to inner children and is cleared; the lazy invariant is kept |
| LazySegmentTrees.PushInv | src/common/BinaryTrees.h:283-297 | pushing a promise down keeps the lazy invariant: every inner node without a promise is the maximum of its children |
| LazySegmentTrees.PushEff | src/common/BinaryTrees.h:283-297 | pushing down a node with nothing pending above it changes no position's logical value |
| LazySegmentTrees.RangeAssignMaxTree.PushDownFromRoot | src/common/BinaryTrees.h:243-248 | after pushing from the root down, no strict ancestor of p holds a promise, no position's value changed, and clear paths stay clear |
| LazySegmentTrees.PathEnds | src/common/BinaryTrees.h:210-215 | with h the bit length of size, every node's path reaches the root within h halvings, so the loop from h covers every ancestor |
| LazySegmentTrees.RangeAssignMaxTree.UpdateUntilRoot | src/common/BinaryTrees.h:250-259 | every ancestor of p without a promise is recomputed as the maximum of its children; no position's value changes |
| LazySegmentTrees.UpdateStep | src/common/BinaryTrees.h:252-258 | recomputing a parent without a promise makes it combined and changes no position's value |
| LazySegmentTrees.UpdateSkip | src/common/BinaryTrees.h:254 | a parent with a promise is skipped and stays outside the invariant's obligations |
| LazySegmentTrees.RangeAssignMaxTree.SetRange | src/common/BinaryTrees.h:299-323 | positions in [l, r) hold the value, every other position keeps its value, and the lazy invariant holds again |
| LazySegmentTrees.RangeAssignMaxTree.EmptyEndRangeLeavesTree | src/common/BinaryTrees.h:299-322 | for the empty range at the end the source starts its left path at leaf index `2 * size`, past the last node; the push-down reads inside the promise vector at every level but the last, which reads `promise[size]`, one past its end, as does the first step of the climb |
| LazySegmentTrees.RangeAssignMaxTree.AssignLevels | src/common/BinaryTrees.h:305-320 | the level loop assigns exactly the positions of [left, right) |
| LazySegmentTrees.RangeAssignMaxTree.AssignLeftNode | src/common/BinaryTrees.h:306-312 | an odd left bound's node is assigned and its range joins the assigned positions |
| LazySegmentTrees.RangeAssignMaxTree.AssignRightNode | src/common/BinaryTrees.h:313-319 | an odd right bound's left neighbour is assigned and its range joins the assigned positions |
| LazySegmentTrees.AssignNode | src/common/BinaryTrees.h:307-310 | writing a node, with a promise when it is inner, makes exactly the positions of its range hold the value |
| LazySegmentTrees.AssignDone | src/common/BinaryTrees.h:305 | when the bounds meet, exactly [left, right) holds the value and every other position is unchanged |
| LazySegmentTrees.NodeMax | src/common/BinaryTrees.h:278-281 | a node with nothing pending above it is the maximum of its range's logical values, attained by one of them |
| LazySegmentTrees.PendingRange | src/common/BinaryTrees.h:283-297 | below a node with a set promise and nothing above it, every position logically holds that node's value |
| LazySegmentTrees.RangeAssignMaxTree.RangeOperation | src/common/BinaryTrees.h:224-240 | the result is at least the initial value, bounds every position in [l, r), equals the initial value or one of them; no position's value changes |
| LazySegmentTrees.RangeAssignMaxTree.QueryLevels | src/common/BinaryTrees.h:231-238 | the level loop folds in exactly the positions of [left, right) |
| LazySegmentTrees.RangeAssignMaxTree.FoldLeftNode | src/common/BinaryTrees.h:232-234 | an odd left bound's node is folded in and the folded part grows by its range |
| LazySegmentTrees.RangeAssignMaxTree.FoldRightNode | src/common/BinaryTrees.h:235-237 | an odd right bound's left neighbour is folded in and the folded part grows by its range |
| LazySegmentTrees.FoldNode | src/common/BinaryTrees.h:233 | folding a node next to the folded positions folds in the maximum of its whole range |
| LazySegmentTrees.RangeAssignMaxTree.RangeMaximum | src/common/BinaryTrees.h:325-328 | the maximum of the positions in [l, r), or the least int for an empty range; no position's value changes |
| LinkedListPool.LinkedListPool.constructor | src/common/LinkedListPool.h:114-118 | the pool holds only the sentinel item, linked to nothing |
| LinkedListPool.LinkedListPool.MakeList | src/common/LinkedListPool.h:127-132 | one item is appended; the new list's head and tail are its index and its chain holds exactly the given value |
| LinkedListPool.ChainGrows | src/common/LinkedListPool.h:130 | appending an item to the vector keeps every existing list and its values |
| LinkedListPool.LinkedListPool.SplitTail | src/common/LinkedListPool.h:144-147 | the list runs from the iterator to the old tail; when the iterator is on the list, it is the rest of the chain from that item and holds exactly the values from that position on; nothing in the pool changes |
| LinkedListPool.SplitTailChain | src/common/LinkedListPool.h:144-147 | a list started at the j-th item of a chain is the rest of that chain |
| LinkedListPool.LinkedListPool.SplitHead | src/common/LinkedListPool.h:156-170 | an invalid end keeps the list, end at the head gives the empty list, otherwise the list is cut before end: its chain and values are the first j of the old ones and only one link changes |
| LinkedListPool.SplitHeadChain | src/common/LinkedListPool.h:164-169 | clearing the link of the (j-1)-th item leaves a list of exactly the first j items with their values |
| LinkedListPool.SplitHeadRest | src/common/LinkedListPool.h:168 | the items from the j-th on keep their links and values and still form a list |
| LinkedListPool.LinkedListPool.Append | src/common/LinkedListPool.h:187-198 | an empty first list gives the second, an empty second the first; otherwise one link joins them and, for disjoint chains, the values are the first list's followed by the second's |
| LinkedListPool.AppendChain | src/common/LinkedListPool.h:195-197 | linking the tail of one chain to the head of a disjoint one gives a list whose chain is the two concatenated |
| LinkedListPool.WalkFollowsChain | src/common/LinkedListPool.h:57-61 | incrementing an iterator from a list's head visits its items in order and then arrives at `end(list)` |
| LinkedListPool.IncrementIsWalk | src/common/LinkedListPool.h:57-61 | one increment of an iterator advances the walk by one step |
| HexWidgetTypes.AddSigned | src/widgets/HexWidget.h:19-32 | the address is the exact sum clamped to [0, UINT64_MAX]; pastEnd is set exactly when the sum overflowed at the top |
| HexWidgetTypes.AddUnsigned | src/widgets/HexWidget.h:46-56 | the address is the sum saturated at UINT64_MAX; pastEnd is set exactly on overflow |
| HexWidgetTypes.MoveCheckedExact | src/widgets/HexWidget.h:39-44 | moveChecked reports true exactly when the cursor moved by the whole offset, i.e. no clamping happened |
| HexWidgetTypes.LessStrictTotalOrder | src/widgets/HexWidget.h:57-60 | on cursors where pastEnd implies UINT64_MAX, `<` is irreflexive, asymmetric, transitive and total |
| HexWidgetTypes.LessNeedsWellFormed | src/widgets/HexWidget.h:57-60 | without that invariant two cursors are each less than the other |
| HexWidgetTypes.UpdatedSpanSelects | src/widgets/HexWidget.h:262-279 | the updated selection holds exactly the addresses from the smaller cursor up to the larger one, the larger one included only when it is past the end; equal cursors select nothing |
| HexWidgetTypes.HexSelection.constructor | src/widgets/HexWidget.h:242-246 | an empty selection at 0 |
| HexWidgetTypes.HexSelection.Init | src/widgets/HexWidget.h:248-252 | the anchor is set and the selection is empty; the bounds are kept |
| HexWidgetTypes.HexSelection.Set | src/widgets/HexWidget.h:254-260 | a non-empty selection [start, end] anchored at start |
| HexWidgetTypes.HexSelection.Update | src/widgets/HexWidget.h:262-279 | the bounds and emptiness become the span from the anchor to the cursor; the anchor is kept |
| HexWidgetTypes.IntersectsMeansSharedAddress | src/widgets/HexWidget.h:281-286 | intersects(s, e) holds exactly when some address of [s, e] is contained |
| HexWidgetTypes.SizeCountsAddresses | src/widgets/HexWidget.h:288-294 | size is 0 when empty and otherwise the number of contained addresses, except the full 64-bit range whose count wraps to 0 |
| HexWidgetTypes.BufferGuardInverted | src/widgets/HexWidget.h:114-132 | the written guard admits only accesses that run past the end of the buffer and, for a non-empty access, refuses every one that fits |
| HexWidgetTypes.BufferData.constructor | src/widgets/HexWidget.h:101-108 | an empty input becomes one zero byte; any other input is kept |
| HexWidgetTypes.BufferData.Copy | src/widgets/HexWidget.h:114-122 | succeeds exactly when [addr, addr+len) lies in the buffer and then returns those bytes |
| HexWidgetTypes.BufferData.Write | src/widgets/HexWidget.h:124-132 | succeeds exactly when [addr, addr+len) lies in the buffer; then those bytes are replaced and the rest kept, else nothing changes |
| HexWidgetTypes.BufferData.MaxIndex | src/widgets/HexWidget.h:134 | the last valid index of the non-empty buffer |
| HexWidgetTypes.FetchEmptyAsWrittenLoadsHugeRange | src/widgets/HexWidget.h:147-165 | fetching 0 bytes at 0x1000 makes the last valid address UINT64_MAX and asks for 2^52 - 1 blocks |
| HexWidgetTypes.FetchPlanFor | src/widgets/HexWidget.h:150-159 | the first block is the address rounded down to 4096; the loaded blocks cover the requested bytes up to UINT64_MAX, with fewer than two blocks of slack, and none for an empty request |
| HexWidgetTypes.FetchPlanAgrees | src/widgets/HexWidget.h:150-159 | for non-empty requests, or addresses below 4096, the written and corrected plans coincide |
| HexWidgetTypes.ReadBlock | src/widgets/HexWidget.h:163 | one block holds the 4096 memory bytes from its address on, wrapping at 2^64 |
| HexWidgetTypes.FlatOfFetched | src/widgets/HexWidget.h:161-164 | byte k of the loaded blocks is memory at firstBlockAddr + k |
| HexWidgetTypes.CopyResult | src/widgets/HexWidget.h:167-189 | the copy succeeds exactly when [addr, addr+len) lies in [firstBlockAddr, lastValidAddr] and blocks are loaded, and then yields len bytes |
| HexWidgetTypes.CopyAfterFetch | src/widgets/HexWidget.h:147-189 | after a fetch, a successful copy returns the memory bytes at the requested addresses |
| HexWidgetTypes.WriteStart | src/widgets/HexWidget.h:193-201 | the write is dropped exactly when it ends at or before the cache start; otherwise the skipped prefix and the remaining length add up to len and the write starts at max(adr, first) |
| HexWidgetTypes.WriteStartAsWrittenInverted | src/widgets/HexWidget.h:193-201 | a write straddling the cache start is dropped, and one ending before it goes on with an underflowed length |
| HexWidgetTypes.CacheAfterWrite | src/widgets/HexWidget.h:191-218 | the cache after a write has the same size |
| HexWidgetTypes.CacheAfterWriteBytes | src/widgets/HexWidget.h:191-218 | every cached byte is either the input byte for its address or unchanged |
| HexWidgetTypes.WriteBlocks | src/widgets/HexWidget.h:205-217 | the block loop copies the input into the flat cache from the offset on, until the input or the last block runs out |
| HexWidgetTypes.WriteStep | src/widgets/HexWidget.h:209-216 | one pass of the block loop extends the written part by the bytes of that block |
| HexWidgetTypes.WriteFinished | src/widgets/HexWidget.h:208 | when the loop stops, the cache is the specified result of the write |
| HexWidgetTypes.WriteThenCopy | src/widgets/HexWidget.h:167-218 | writing a range inside the cache and copying it back returns the written bytes |
| HexWidgetTypes.MemoryData.constructor | src/widgets/HexWidget.h:143 | no blocks; both addresses 0 |
| HexWidgetTypes.MemoryData.Fetch | src/widgets/HexWidget.h:147-165 | for any request whose rounded length fits in an `int`, the addresses follow the corrected fetch plan and block j holds the memory read at firstBlockAddr + j * 4096 |
| HexWidgetTypes.MemoryData.Copy | src/widgets/HexWidget.h:167-189 | the cached bytes when the range is loaded, otherwise len bytes of 0xff and false; a loaded copy may span two blocks |
| HexWidgetTypes.MemoryData.WriteToCache | src/widgets/HexWidget.h:191-218 | the addresses and block count are kept, and the flat cache becomes the corrected write's result |
| HexWidgetTypes.MemoryData.MinIndex | src/widgets/HexWidget.h:231 | no copy below the returned address can succeed, and when anything is cached a one-byte copy at it succeeds |
| HexWidgetTypes.Repeat8 | src/widgets/HexWidget.h:173 | n copies of the byte |
| HexWidget.DecodeLE | src/widgets/HexWidget.cpp:891-892 | the little-endian value of n bytes is below 2^(8n) |
| HexWidget.DecodeBE | src/widgets/HexWidget.cpp:889-890 | the big-endian value of n bytes is below 2^(8n) |
| HexWidget.EncodeLE | src/widgets/HexWidget.cpp:891-892 | encoding gives exactly n bytes |
| HexWidget.DecodeEncodeLE | src/widgets/HexWidget.cpp:891-892 | decoding the encoding of a value that fits in n bytes gives the value back |
| HexWidget.EncodeDecodeLE | src/widgets/HexWidget.cpp:891-892 | encoding the decoded value gives the bytes back |
| HexWidget.DecodeBEReversed | src/widgets/HexWidget.cpp:888-892 | big-endian decoding reads the same bytes backwards |
| HexWidget.EncodeDecodeBE | src/widgets/HexWidget.cpp:888-892 | the big-endian value encoded little-endian gives the bytes reversed |
| HexWidget.Reverse | src/widgets/HexWidget.cpp:888-890 | the bytes in reverse order |
| HexWidget.SignExtend | src/widgets/HexWidget.cpp:887 | the two's-complement reading of an n-byte value: in the signed range, equal to it when the top bit is clear and 2^(8n) less otherwise |
| HexWidget.ReadItem | src/widgets/HexWidget.cpp:868-929 | a value exactly for sizes 1, 2, 4 and 8 outside the float cases; unsigned formats give a value below 2^(8n), SignedDec a value in the signed n-byte range |
| HexWidget.ReadItemRoundTrip | src/widgets/HexWidget.cpp:868-929 | re-encoding the item value modulo 2^(8n) in the same byte order gives back the bytes read |
| HexWidget.ReadItemUnsigned | src/widgets/HexWidget.cpp:868-929 | the item value modulo 2^(8n) is the unsigned reading of the bytes in the chosen order |
| HexWidget.ItemColor | src/widgets/HexWidget.cpp:851-866 | 0x00, 0x7f and 0xff each get their own colour, other printable bytes the printable colour, and the rest the default one; each case exactly |
| HexWidget.RenderAscii | src/widgets/HexWidget.cpp:961-971 | a printable byte is shown as its own character, any other as '.', so the result is always printable |
| HexWidget.ItemWidthsFitWidest | src/widgets/HexWidget.cpp:461-490 | each decimal width is the digit count of the largest unsigned value of that size, each signed width that of the most negative value plus its sign, and the octal and hex widths fit the largest value exactly |
| HexWidget.ItemWidthsFor | src/widgets/HexWidget.cpp:453-459 | the octal width (8n+3)/3 and the hex width 2n are the digit counts of the largest n-byte value |
| HexWidget.ItemLengths | src/widgets/HexWidget.cpp:448-501 | Float raises the item size to at least 4 and uses 3 characters per byte; Hex uses 2 per byte plus a prefix for multi-byte items when shown; Oct (8n+3)/3; Dec and SignedDec the fixed widths per size |
| HexWidget.HexWidget.constructor | src/widgets/HexWidget.cpp:19-116 | one-byte hex items, 16 columns, group size 1, little-endian, cursor and start at 0, empty selection |
| HexWidget.HexWidget.UpdateItemLength | src/widgets/HexWidget.cpp:448-512 | the widths follow the format rules above; hex pairs are enabled exactly for one-byte hex, otherwise unchecked with group size 1; nothing else changes |
| HexWidget.DataPtr | src/widgets/HexWidget.cpp:1050-1056 | the block and the in-block offset of a screen byte, the latter below 4096, with block * 4096 + offset equal to the byte's offset from the first block |
| HexWidget.DataPtrReadsScreen | src/widgets/HexWidget.cpp:973-986 | after a cache update, every screen byte found through dataPtr is the memory byte at its address |
| HexWidget.ReadBlocks | src/widgets/HexWidget.cpp:980-985 | count consecutive blocks from the aligned address, each the memory read at its address |
| HexWidget.HexWidget.UpdateDataCache | src/widgets/HexWidget.cpp:973-986 | the cache covers the screen from the start address; nothing else changes |
| HexWidget.HexWidget.SetCursorAddr | src/widgets/HexWidget.cpp:773-814 | the cursor moves to the address; the selection restarts, or extends from its anchor when selecting; an address off screen scrolls the start to its row; the cursor is shown unless selecting, and blinks again exactly when the selection is empty |
| HexWidget.SetCursorAddrShowsCursor | src/widgets/HexWidget.cpp:788-804 | after a jump off screen the cursor lies on the new screen |
| HexWidget.HexWidget.MoveCursor | src/widgets/HexWidget.cpp:762-771 | a backwards move past address 0 stops at 0; a forward move adds the offset modulo 2^64 |
| HexWidget.HexWidget.WheelEvent | src/widgets/HexWidget.cpp:325-350 | scrolling up moves the start back three rows but not below 0; scrolling down moves it three rows on, wrapping in 64 bits; the cache then covers the new screen |
| HexWidget.HexWidget.SetItemSize | src/widgets/HexWidget.cpp:136-153 | only sizes 1, 2, 4 and 8 are accepted; any other value changes nothing |
| HexWidget.HexWidget.OnHexPairsModeEnabled | src/widgets/HexWidget.cpp:413-422 | enabling halves the columns (truncating) with group size 2; disabling doubles them with group size 1 |
| HexWidget.HexPairsRoundTrip | src/widgets/HexWidget.cpp:413-422 | enabling then leaving hex-pairs mode restores an even column count |
| HexWidget.TruncDiv2 | src/widgets/HexWidget.cpp:416 | C++ halving of an int, rounding toward zero |
| HexWidget.HexWidget.SetItemGroupSize | src/widgets/HexWidget.cpp:173-182 | the group size is stored and the columns kept |
| HexTextView.ByteItem | src/widgets/HexTextView.cpp:395-403 | one byte as an item is exactly as wide as the format's item width |
| HexTextView.ByteItemRoundTrip | src/widgets/HexTextView.cpp:395-403 | the item is the byte zero-padded to 2 hex or 3 octal digits, and parsing it back gives the byte |
| HexTextView.AsciiChar | src/widgets/HexTextView.cpp:389-393 | the ASCII column never shows a newline for a byte |
| HexTextView.FetchHexdump | src/widgets/HexTextView.cpp:368-412 | the three columns hold exactly max(lines, 0) lines: the line addresses, the items of each line separated by single spaces, and the ASCII characters, each line ended by a newline |
| HexTextView.FetchLine | src/widgets/HexTextView.cpp:382-409 | one pass of the outer loop appends line i to each column and moves the address to line i + 1 |
| HexTextView.FetchRow | src/widgets/HexTextView.cpp:383-404 | the inner loop produces the item text and the ASCII text of the line's cols bytes |
| HexTextView.NextLineStart | src/widgets/HexTextView.cpp:408 | the next line starts cols bytes later, modulo 2^64 |
| HexTextView.LineStartIs | src/widgets/HexTextView.cpp:381-408 | line i starts i * cols bytes after the first address, modulo 2^64 |
| HexTextView.LinesSucc | src/widgets/HexTextView.cpp:405-407 | each column of i + 1 lines is the column of i lines followed by line i and a newline |
| HexTextView.HexRowTextAt | src/widgets/HexTextView.cpp:383-403 | item j of a line starts at j times the stride and is the byte's item |
| HexTextView.HexAddressRoundTrip | src/widgets/HexTextView.cpp:628-660 | a loaded address converted to a hex position and back is the same address, in both formats |
| HexTextView.HexPositionRoundTrip | src/widgets/HexTextView.cpp:628-660 | a hex position converted to an address and back lands on the first character of its item |
| HexTextView.AsciiAddressRoundTrip | src/widgets/HexTextView.cpp:643-667 | a loaded address converted to an ASCII position and back is the same address |
| HexTextView.AsciiPositionRoundTrip | src/widgets/HexTextView.cpp:643-667 | an ASCII position that is not a line end converted to an address and back is the same position |
| HexTextView.HexDumpShowsAddress | src/widgets/HexTextView.cpp:368-412 | the item around any character of the byte column is the memory byte at the address hexPositionToAddress gives for it |
| HexTextView.AsciiDumpShowsAddress | src/widgets/HexTextView.cpp:368-412 | every ASCII character that is not a line end shows the memory byte at the address asciiPositionToAddress gives for it |
| HexTextView.UpdateHeaders | src/widgets/HexTextView.cpp:317-365 | the headers are the specified digit rows for max(cols, 0) columns: digit i & 0xF per column, with separators before every column after the first, or every even one in pairs mode |
| HexTextView.HexHeaderAligned | src/widgets/HexTextView.cpp:348-354 | without pairs the header is exactly as wide as a line of items and the digit of column j sits above the last character of item j |
| HexTextView.SeekLineAsWrittenWraps | src/widgets/HexTextView.cpp:279-288 | for an address near RVA_MAX the written rule lets the window run past RVA_MAX, so the last loaded address wraps below the seek |
| HexTextView.SeekLine | src/widgets/HexTextView.cpp:279-285 | the seek line is at most the number of loaded lines, the window never starts below 0 nor ends past RVA_MAX, and away from both ends it is the buffer size |
| HexTextView.SeekAbove | src/widgets/HexTextView.cpp:279-281 | the seek line is lowered to the whole lines above the address, and kept when there are enough |
| HexTextView.SeekBelowFits | src/widgets/HexTextView.cpp:283-285 | raising the seek line keeps the lines below the address within RVA_MAX |
| HexTextView.RefreshWindow | src/widgets/HexTextView.cpp:261-288 | cols is the configured count or 16 for 0; the buffer is ten screens; the first loaded address is the seek minus its line's offset and the window spans the loaded lines |
| HexTextView.WindowBounds | src/widgets/HexTextView.cpp:287-288 | the first and one-past-last loaded addresses around the seek line |
| HexTextView.HexTextView.constructor | src/widgets/HexTextView.cpp:18-71 | an empty window at address 0 in the given format, with the current position 0 |
| HexTextView.HexTextView.Refresh | src/widgets/HexTextView.cpp:245-315 | `RVA_INVALID`, the default argument, refreshes around the current position and any other address becomes the current position; the window and seek line follow RefreshWindow with the corrected seek line for that position, and the three columns are the hexdump of the loaded lines |
| HexTextView.HexTextView.LoadAround | src/widgets/HexTextView.cpp:253-315 | the window is loaded around the given position, which its seek line holds, and the three columns are the hexdump of the loaded lines; the current position is kept |
| HexTextView.ScrollUpAsWrittenShiftsWithoutLines | src/widgets/HexTextView.cpp:757-767 | from address 5 with 16 columns the written code moves the window start to 0 although no line is loaded |
| HexTextView.ScrollDownAsWrittenShiftsPastLines | src/widgets/HexTextView.cpp:784-795 | near RVA_MAX the written code shifts by 83 bytes while appending only five 16-byte lines |
| HexTextView.ScrollUpShift | src/widgets/HexTextView.cpp:758-763 | the upward shift is a whole number of lines, at most the buffer and at most the first loaded address, and the full buffer when that fits |
| HexTextView.ScrollDownShift | src/widgets/HexTextView.cpp:785-790 | the downward shift is a whole number of lines, at most the buffer and never past RVA_MAX, and the full buffer when that fits |
| HexTextView.HexTextView.ScrollUp | src/widgets/HexTextView.cpp:757-780 | the window moves up by the corrected shift and keeps its line count |
| HexTextView.HexTextView.ScrollDown | src/widgets/HexTextView.cpp:784-804 | the window moves down by the corrected shift, keeps its line count and ends at or before RVA_MAX |
| HexTextView.HexTextView.ScrollChanged | src/widgets/HexTextView.cpp:752-806 | the window keeps its line count, and does not move while the view is at least half a buffer from both ends |
| RichTextPainter.Name | src/utils/RichTextPainter.cpp:76 | a colour name is `#` followed by six hexadecimal digits |
| RichTextPainter.Truncate | src/utils/RichTextPainter.cpp:155 | truncation keeps the first n characters, all of a shorter string, and none for a negative n |
| RichTextPainter.CropFits | src/utils/RichTextPainter.cpp:146-160 | a list whose total length fits in the columns is copied unchanged and is not reported as cropped |
| RichTextPainter.CropBound | src/utils/RichTextPainter.cpp:146-160 | the copying loop keeps at most maxCols columns and never more pieces than it was given |
| RichTextPainter.CropCut | src/utils/RichTextPainter.cpp:153-158 | a cropped result is the pieces before the cut followed by the cut piece truncated to the columns left |
| RichTextPainter.CropCutFills | src/utils/RichTextPainter.cpp:153-158 | a cropped result fills the columns exactly |
| RichTextPainter.CropPrefix | src/utils/RichTextPainter.cpp:146-152 | an uncropped result is a prefix of the list; when pieces were dropped the columns were filled exactly and the next piece did not fit |
| RichTextPainter.ExactFitNotReported | src/utils/RichTextPainter.cpp:151-152 | when the columns are filled exactly before a piece that does not fit, the rest is dropped but croppedOut stays false |
| RichTextPainter.IndicateEmpty | src/utils/RichTextPainter.cpp:168-178 | the indicator loop empties the list exactly when the whole list is shorter than the indicator length |
| RichTextPainter.IndicateShape | src/utils/RichTextPainter.cpp:168-178 | a non-empty result is a prefix of the list whose last piece has its last characters replaced by the indicator |
| RichTextPainter.IndicateLastPiece | src/utils/RichTextPainter.cpp:171-174 | when the last piece is long enough, the indicator replaces its end and the loop stops |
| RichTextPainter.IndicateEarlierPiece | src/utils/RichTextPainter.cpp:176-177 | when the last piece is too short, it is dropped and the remaining length is replaced earlier |
| RichTextPainter.IndicateEndsWith | src/utils/RichTextPainter.cpp:162-179 | a non-empty result of the indicator loop ends with the indicator |
| RichTextPainter.IndicateLength | src/utils/RichTextPainter.cpp:162-179 | the indicator loop changes the total length by the indicator length minus the replaced length, unless it empties the list |
| RichTextPainter.CroppedSpec | src/utils/RichTextPainter.cpp:138-185 | a list that fits is returned as is and not reported; with an indicator no longer than maxCols the result never exceeds maxCols; a cropped non-empty result ends with a non-empty indicator |
| RichTextPainter.CroppedList | src/utils/RichTextPainter.cpp:138-185 | the loops of `cropped` compute exactly the specified cropped list and flag |
| RichTextPainter.EscapeNoTags | src/utils/RichTextPainter.cpp:96 | escaped text contains no `<`, `>` or double quote |
| RichTextPainter.HtmlEscapeRoundTrip | src/utils/RichTextPainter.cpp:96 | reading the entities of escaped text back gives the text |
| RichTextPainter.PlainLength | src/utils/RichTextPainter.cpp:100 | the plain text has as many characters as the pieces together |
| RichTextPainter.AppendSpan | src/utils/RichTextPainter.cpp:71-99 | the loop body for a non-blank piece appends exactly that piece's span |
| RichTextPainter.HtmlRichText | src/utils/RichTextPainter.cpp:63-102 | both outputs keep their previous content; the HTML gets every piece's markup and the plain text the concatenated texts |
| RichTextPainter.HtmlOfShape | src/utils/RichTextPainter.cpp:66-99 | a blank piece is a bare space; any other piece is one span, optionally underlined, around its escaped text |
| RichTextPainter.HtmlOfReadBack | src/utils/RichTextPainter.cpp:66-99 | one piece's markup, with tags removed and entities read back, is its own text |
| RichTextPainter.HtmlReadsAsPlain | src/utils/RichTextPainter.cpp:63-102 | removing the tags of the HTML and reading its entities back gives the plain text |
| HexdumpRangeDialog.Validate | src/dialogs/HexdumpRangeDialog.cpp:76-127 | end mode succeeds exactly when end > start or, allowing empty ranges, end == start; length mode exactly when the length is 0 and empty ranges are allowed, or the range start + length - 1 does not overflow; a non-empty range ends at or after start, has the requested length and warns exactly when it is longer than 0x25000 |
| HexdumpRangeDialog.Dialog.constructor | src/dialogs/HexdumpRangeDialog.cpp:9-29 | the dialog keeps allowEmpty and starts with an empty range |
| HexdumpRangeDialog.Dialog.ValidateFields | src/dialogs/HexdumpRangeDialog.cpp:76-127 | the fields take the validation's addresses and emptiness, and the text fields and warning change only where the branch sets them |
| HexdumpRangeDialog.Dialog.TextEdited | src/dialogs/HexdumpRangeDialog.cpp:129-133 | the OK button is enabled exactly when validation succeeds |
| ConsoleWidget.IsForbidden | src/widgets/ConsoleWidget.cpp:69-88 | the check returns before its tests, so no command is forbidden |
| ConsoleWidget.Added | src/widgets/ConsoleWidget.cpp:269-278 | the input becomes the newest entry; the history never exceeds its maximum, dropping the oldest entry when full and keeping all others in order |
| ConsoleWidget.PrevPosition | src/widgets/ConsoleWidget.cpp:241-250 | one step older, stopping at the oldest entry; the result is always a valid index |
| ConsoleWidget.NextPosition | src/widgets/ConsoleWidget.cpp:220-239 | one step newer down to -1; -1 stays; a position past the oldest entry is first brought back to it |
| ConsoleWidget.PrevThenNext | src/widgets/ConsoleWidget.cpp:220-250 | stepping older and then newer returns to the same position unless the oldest entry was reached |
| ConsoleWidget.Console.constructor | src/widgets/ConsoleWidget.cpp:90-143 | an empty history with no browsing position |
| ConsoleWidget.Console.HistoryAdd | src/widgets/ConsoleWidget.cpp:269-278 | the history becomes Added(history, input) and the browsing position is invalidated; the input line is kept |
| ConsoleWidget.Console.HistoryPrev | src/widgets/ConsoleWidget.cpp:241-250 | an empty history changes nothing; otherwise the position moves as PrevPosition says and the input shows that entry |
| ConsoleWidget.Console.HistoryNext | src/widgets/ConsoleWidget.cpp:220-239 | nothing changes for an empty history or no position; otherwise the position moves as NextPosition says and the input shows that entry, or is cleared at -1 |
| ConsoleWidget.Console.Clear | src/widgets/ConsoleWidget.cpp:252-261 | the input is emptied and the browsing position invalidated; the history is kept |
| R2ui.At | src/html/graph/lib/js/r2ui.js:126-133 | indexing yields the element exactly inside the array, `undefined` otherwise |
| R2ui.KeepFirst | src/html/graph/lib/js/r2ui.js:108 | the kept part of the splice is the first idx entries, none for a negative idx, all for an idx past the end |
| R2ui.Last | src/html/graph/lib/js/r2ui.js:119-123 | `undefined` for an empty history, the entry before the position otherwise |
| R2ui.WebUI.constructor | src/html/graph/lib/js/r2ui.js:36-38 | an empty history at position 0 and no stored blocks |
| R2ui.WebUI.Push | src/html/graph/lib/js/r2ui.js:105-112 | a repeat of the last entry changes nothing; otherwise everything after the position is dropped and the entry appended at the end; afterwards the last entry is the pushed one |
| R2ui.WebUI.Pop | src/html/graph/lib/js/r2ui.js:114-117 | returns and drops the newest entry, moving the position back when it was at the end; a pop on an empty history leaves position -1 |
| R2ui.WebUI.LastEntry | src/html/graph/lib/js/r2ui.js:119-123 | the entry before the position, as Last says |
| R2ui.WebUI.Prev | src/html/graph/lib/js/r2ui.js:125-128 | steps back, never below position 1, and returns the entry before the new position |
| R2ui.WebUI.Next | src/html/graph/lib/js/r2ui.js:130-134 | returns the entry at the old position and steps forward while not at the end |
| R2ui.WebUI.UpdateBB | src/html/graph/lib/js/r2ui.js:89-98 | without sdb the info is stored under the block offset; nothing else changes |
| R2ui.WebUI.GetBB | src/html/graph/lib/js/r2ui.js:40-62 | without sdb the stored info, `undefined` for a block never stored |
| R2ui.UpdateThenGet | src/html/graph/lib/js/r2ui.js:40-98 | reading a block back after storing it gives the stored info, and every other block keeps its info |
| R2ui.PushAfterEmptyPop | src/html/graph/lib/js/r2ui.js:105-117 | after a pop on an empty history the next push leaves the position one short of the end, so the pushed entry is not the last one |
| SettingsUpgrade.Migrated1 | src/common/SettingsUpgrade.cpp:43-46 | exactly the `settings_migrated` and `updated_custom_themes` keys (and the keys under them) are removed; every other value is kept |
| SettingsUpgrade.Settings.MigrateTo1 | src/common/SettingsUpgrade.cpp:43-46 | the store becomes Migrated1 of the old store |
| SettingsUpgrade.ReplacedInStrings | src/common/SettingsUpgrade.cpp:51 | each entry has every occurrence of the pattern replaced; order and number of entries are kept |
| SettingsUpgrade.ReplaceAllLength | src/common/SettingsUpgrade.cpp:51 | replacing by a text of the same length keeps the length |
| SettingsUpgrade.ReplaceAllAbsent | src/common/SettingsUpgrade.cpp:51 | a text without the pattern comes back unchanged |
| SettingsUpgrade.Migrated2 | src/common/SettingsUpgrade.cpp:48-52 | `docks` becomes a string list with as many entries as before; every other key is kept |
| SettingsUpgrade.Migrated2Docks | src/common/SettingsUpgrade.cpp:48-52 | each dock name keeps its length, and a name without `PseudocodeWidget` is kept as it was |
| SettingsUpgrade.Settings.MigrateTo2 | src/common/SettingsUpgrade.cpp:48-52 | the store becomes Migrated2 of the old store |
| SettingsUpgrade.Settings.BuildViewProperties | src/common/SettingsUpgrade.cpp:70-79 | the loop builds the dock map: one entry per listed dock, synchronized unless the dock is in `unsync` |
| SettingsUpgrade.Migrated3Layouts | src/common/SettingsUpgrade.cpp:54-95 | layouts 1 and 2 are named Default and Debug, share one dock map holding exactly the listed docks with a dock unsynchronized exactly when it is in `unsync`, and carry the default and debug geometry and state |
| SettingsUpgrade.Migrated3Keys | src/common/SettingsUpgrade.cpp:96-103 | the legacy keys are removed and every other key outside the layouts array is kept with its value |
| SettingsUpgrade.LayoutKeyNotLegacy | src/common/SettingsUpgrade.cpp:81-103 | no key of the layouts array is removed by the legacy-key cleanup |
| SettingsUpgrade.Settings.MigrateTo3 | src/common/SettingsUpgrade.cpp:54-104 | the store becomes Migrated3 of the old store |
| SettingsUpgrade.Renamed | src/common/SettingsUpgrade.cpp:107-113 | an absent old key changes nothing; otherwise its value moves to the new key, the old key is gone and every unrelated key is kept |
| SettingsUpgrade.Settings.RenameOption | src/common/SettingsUpgrade.cpp:107-113 | the store becomes Renamed of the old store |
| SettingsUpgrade.Settings.MigrateTo4 | src/common/SettingsUpgrade.cpp:106-116 | the store has both assembler options renamed, in order |
| SettingsUpgrade.Settings.Migrate | src/common/SettingsUpgrade.cpp:134-145 | version v selects exactly the migration to v, and any other version changes nothing |
| SettingsUpgrade.ToIntNumberText | src/common/SettingsUpgrade.cpp:123 | a 32-bit version written as text (as an INI file stores it) reads back through `toInt` as the same number |
| SettingsUpgrade.ToBoolText | src/common/SettingsUpgrade.cpp:12 | any text read as a flag is false exactly when it is empty, "0", or "false" spelled in any mix of cases, and true otherwise |
| SettingsUpgrade.ToBoolWritten | src/common/SettingsUpgrade.cpp:12 | a flag, whether stored as a boolean or as the text "true" or "false" an INI file holds for it, reads back as itself |
| SettingsUpgrade.Pre18Spec | src/common/SettingsUpgrade.cpp:10-29 | without the flag and with legacy settings, every legacy key is copied over the store, other keys keep their values, the flag is set and the legacy settings are emptied; otherwise nothing changes |
| SettingsUpgrade.Pre18Idempotent | src/common/SettingsUpgrade.cpp:10-29 | a second import changes nothing |
| SettingsUpgrade.Settings.CopyLegacy | src/common/SettingsUpgrade.cpp:21-23 | the copy loop leaves the store overwritten by every legacy key |
| SettingsUpgrade.Settings.MigratePre18 | src/common/SettingsUpgrade.cpp:10-29 | the store and legacy settings become Pre18 of the old ones, and the result says whether anything was imported |
| SettingsUpgrade.Initialized | src/common/SettingsUpgrade.cpp:118-150 | after initialisation the version key holds the current version |
| SettingsUpgrade.MigratedFromOne | src/common/SettingsUpgrade.cpp:128-146 | migrating from version 1 runs the migrations to 1, 2, 3 and 4 in that order |
| SettingsUpgrade.InitializedFromZero | src/common/SettingsUpgrade.cpp:118-150 | a store at version 0 first imports the pre-1.8 settings and then, if not empty, goes through the migrations to 1, 2, 3 and 4 in order |
| SettingsUpgrade.InitializedFromTwo | src/common/SettingsUpgrade.cpp:118-150 | a store at version 2 gets only the migrations to 3 and 4, and the legacy settings are not touched |
| SettingsUpgrade.InitializedSkips | src/common/SettingsUpgrade.cpp:118-150 | an empty store with nothing to import, or one with a version above the current one or below 0, is not migrated but still gets the current version |
| SettingsUpgrade.InitializedIdempotent | src/common/SettingsUpgrade.cpp:118-150 | initialising twice is the same as initialising once |
| SettingsUpgrade.Settings.InitializeSettings | src/common/SettingsUpgrade.cpp:118-150 | the store and the legacy settings become Initialized of the old ones |
| SettingsUpgrade.Settings.MigrateFrom | src/common/SettingsUpgrade.cpp:132-146 | running the migrations from `first` up to the current version in order leaves the store `MigratedFrom` the old one |
| SettingsUpgrade.Pruned | src/common/SettingsUpgrade.cpp:163-169 | the pruned theme holds exactly the theme's keys that are known options, with their values |
| SettingsUpgrade.SavedThemesSpec | src/common/SettingsUpgrade.cpp:155-172 | exactly the listed custom themes are saved, each pruned to the known options |
| SettingsUpgrade.Settings.MigrateThemes | src/common/SettingsUpgrade.cpp:174-182 | at the current theme version nothing changes and nothing is saved; at any other version the listed custom themes are saved pruned and the theme version becomes current |
| NewFileDialog.HexPairsShape | src/dialogs/NewFileDialog.cpp:124-129 | the extracted code is made of whole pairs of hexadecimal digits |
| NewFileDialog.HexPairsOfHex | src/dialogs/NewFileDialog.cpp:124-129 | text that already is an even run of hexadecimal digits is extracted whole |
| NewFileDialog.HexPairsIdempotent | src/dialogs/NewFileDialog.cpp:124-129 | extracting again from extracted code changes nothing |
| NewFileDialog.ExtractShellcode | src/dialogs/NewFileDialog.cpp:124-129 | the match loop appends exactly the hexadecimal pairs found left to right |
| NewFileDialog.ShellcodeButton | src/dialogs/NewFileDialog.cpp:120-134 | the code is loaded, with half its length as size, exactly when at least one pair was found |
| NewFileDialog.EventFilter | src/dialogs/NewFileDialog.cpp:374-401 | the event is consumed exactly for Ctrl with Return or Enter, and then does what the shellcode button does; any other event loads nothing |
| NewFileDialog.RemoveAllMembership | src/dialogs/NewFileDialog.cpp:331 | after removing x, an entry is present exactly when it was present and is not x |
| NewFileDialog.RemoveAllSpec | src/dialogs/NewFileDialog.cpp:179 | after a removal the removed path is nowhere in the list and every other entry stays |
| NewFileDialog.RecentSpec | src/dialogs/NewFileDialog.cpp:331-334 | the opened file is first and occurs once, the list holds at most the maximum, and the rest is the earlier list without the file, in order, cut at the end |
| NewFileDialog.AddRecent | src/dialogs/NewFileDialog.cpp:331-334 | the removeAll, prepend and removeLast loop computes exactly that list |
| NewFileDialog.FillFilesList | src/dialogs/NewFileDialog.cpp:237-267 | the in-place iterator removal keeps exactly the files that exist, in order |
| NewFileDialog.FilterStep | src/dialogs/NewFileDialog.cpp:248-262 | one iterator step either drops the entry or keeps it after the kept ones |
| NewFileDialog.FillFilesListSpec | src/dialogs/NewFileDialog.cpp:237-267 | a file is listed exactly when it was in the list and exists |
| NewFileDialog.Dialog.constructor | src/dialogs/NewFileDialog.cpp:54-82 | the recent files and projects are filled at once: each configured list keeps exactly its paths that exist, in order, and its widget lists them; the line edits are empty and the load button is off |
| NewFileDialog.Dialog.FillRecentFilesList | src/dialogs/NewFileDialog.cpp:269-276 | the configured list keeps only the existing files, those are listed, and the result says whether any remain |
| NewFileDialog.Dialog.FillProjectsList | src/dialogs/NewFileDialog.cpp:278-284 | the same for the recent projects |
| NewFileDialog.Dialog.UpdateLoadProjectButton | src/dialogs/NewFileDialog.cpp:312-315 | the button is enabled exactly when the trimmed project path is not empty |
| NewFileDialog.Dialog.LoadFile | src/dialogs/NewFileDialog.cpp:317-348 | with the default plugin, a failed probe and no fileless opening nothing changes; otherwise the file joins the recent list as RecentSpec says and the plugin prefix plus the name is opened |
| NewFileDialog.Dialog.RemoveItem | src/dialogs/NewFileDialog.cpp:170-183 | without a current row nothing changes; otherwise every copy of that path leaves the configuration, the row leaves the list and the path field is cleared |
| NewFileDialog.Dialog.ClearAll | src/dialogs/NewFileDialog.cpp:185-190 | the recent files, their list and the path field are emptied; projects are kept |
| NewFileDialog.Dialog.RemoveProject | src/dialogs/NewFileDialog.cpp:192-204 | the same removal for the recent projects |
| NewFileDialog.Dialog.ClearProjects | src/dialogs/NewFileDialog.cpp:206-211 | the recent projects, their list and the project field are emptied; files are kept |
| LegacyNewFileDialog.Dialog.constructor | dialogs/NewFileDialog.cpp:54-81 | the recent list is filled at once: the saved list keeps exactly its paths that exist, in order, and the widget lists them; the line edit is empty |
| LegacyNewFileDialog.Dialog.FillRecentFilesList | dialogs/NewFileDialog.cpp:268-307 | the settings list keeps only the existing files, those are listed, and the result says whether any remain |
| LegacyNewFileDialog.Dialog.LoadFile | dialogs/NewFileDialog.cpp:360-392 | with the default plugin, a failed probe and no fileless opening nothing changes; otherwise the file joins the recent list as in the newer dialog and the plugin prefix plus the name is opened |
| LegacyNewFileDialog.Dialog.RemoveItem | dialogs/NewFileDialog.cpp:185-204 | without a current row nothing changes; otherwise every copy of that path leaves the settings, the row leaves the list and the path field is cleared |
| LegacyNewFileDialog.Dialog.ClearAll | dialogs/NewFileDialog.cpp:206-217 | the recent list, the widget list and the path field are emptied |
| VisualNavbar.BitLengthBounds | src/widgets/VisualNavbar.cpp:70-78 | the next power of two of `n` lies strictly above `n`: it is 1 for 0 and at most `2n` otherwise |
| VisualNavbar.NextPow2 | src/widgets/VisualNavbar.cpp:70-78 | the shift loop returns that power of two |
| VisualNavbar.Classify | src/widgets/VisualNavbar.cpp:158-170 | functions give code, else strings give a string, else symbols a symbol, else code inside functions gives code, else the block is empty |
| VisualNavbar.SceneStep | src/widgets/VisualNavbar.cpp:157-188 | one block adds at most one rectangle, every rectangle has a kind, and `lastDataType` is the kind of the last rectangle drawn |
| VisualNavbar.RunIsOneItem | src/widgets/VisualNavbar.cpp:172-180 | a block of the same kind as the previous one adds no rectangle |
| VisualNavbar.KindChangeStartsItem | src/widgets/VisualNavbar.cpp:182-187 | in the corrected scene, a non-empty block of a new kind adds exactly one rectangle of that kind, starting at the block's offset |
| VisualNavbar.DrawBlocks | src/widgets/VisualNavbar.cpp:145-191 | the loop records one address range per block and draws the rectangles of the runs as the corrected scene `SceneOf` gives them |
| VisualNavbar.SceneStepAsWritten | src/widgets/VisualNavbar.cpp:157-190 | as written, one block adds at most one item, and `lastDataType` names a kind only once an item exists |
| VisualNavbar.AgreeStep | src/widgets/VisualNavbar.cpp:157-190 | one pass of the loop as written keeps it in step with `SceneStep`: same items and kinds, set rects equal to the corrected edges |
| VisualNavbar.AsWrittenAgrees | src/widgets/VisualNavbar.cpp:145-191 | the loop as written makes the same items of the same kinds as `SceneOf`, and every rect it sets has exactly the edges `SceneOf` gives that item |
| VisualNavbar.OneBlockRunUndrawn | src/widgets/VisualNavbar.cpp:172-190 | a run of a single block gets an item whose rect is never set, where `SceneOf` draws it over the block |
| VisualNavbar.Navbar.constructor | src/widgets/VisualNavbar.cpp:17-68 | the widths start at zero and nothing is drawn |
| VisualNavbar.Navbar.UpdateGraphicsScene | src/widgets/VisualNavbar.cpp:117-197 | nothing is drawn unless the statistics cover a non-empty range; otherwise every block is mapped and the runs are drawn; the statistics and widths are kept |
| VisualNavbar.Navbar.PaintEvent | src/widgets/VisualNavbar.cpp:80-113 | a width above `statsWidth` raises it to the next power of two and fetches; a `statsWidth` above four times the width (in 32-bit arithmetic) is halved and fetches; otherwise the scene is redrawn only when the width changed, which alone records the width; a redraw leaves the scene of the statistics in force, and no redraw leaves the scene as it was |
| VisualNavbar.GrownWidthIsStable | src/widgets/VisualNavbar.cpp:86-95 | once `statsWidth` was raised for a width below 2^30, the same width neither raises nor halves it again |
| CutterCore.SanitizeStringForCommand | src/core/Cutter.cpp:352-356 | every `;` and `@` becomes `_` and every other character is kept in place |
| CutterCore.SanitizeIdempotent | src/core/Cutter.cpp:352-356 | no command separator survives, so sanitising twice is sanitising once |
| CutterCore.FunctionName | src/core/Cutter.cpp:1318-1321 | the name handed on is never longer than the one given |
| CutterCore.FunctionNameSpec | src/core/Cutter.cpp:1318-1321 | a character is in the new name exactly when it is in the given one and in `[a-zA-Z0-9_.]`; a name made only of those is kept whole |
| CutterCore.CreateFunctionAt | src/core/Cutter.cpp:1316-1327 | the function is added at the address, recursively exactly when `analysis.calls` is not zero, under FunctionName of the given name: exactly its allowed characters, in order |
| CutterCore.SetToData | src/core/Cutter.cpp:841-854 | a size or count that is not positive marks nothing and announces nothing; otherwise `repeat` items are marked, the i-th at `addr + i * size` modulo 2^64, and the change is announced at `addr` |
| CutterCore.DecompilerRegistry.constructor | src/core/Cutter.cpp:1340-1348 | the registry starts empty and its ids are distinct |
| CutterCore.DecompilerRegistry.GetDecompilerById | src/core/Cutter.cpp:1340-1348 | none exactly when no decompiler has the id; otherwise the first one that has it |
| CutterCore.DecompilerRegistry.RegisterDecompiler | src/core/Cutter.cpp:1350-1358 | registration succeeds exactly when the id is new, and then appends it; otherwise nothing changes; ids stay distinct |
| CutterCore.AppendVar | src/core/Cutter.cpp:1390-1397 | the value is returned; the text grows by prefix, value and suffix exactly when the value is not empty, and is kept otherwise |
| CutterCore.ParseFlag | src/core/Cutter.cpp:3561-3562 | a name is a class flag exactly when it starts with `class.`, a method flag when it starts with `method.` and a later dot separates a dot-free class name; the parts read back to the name |
| CutterCore.ParseFlagRoundTrip | src/core/Cutter.cpp:3561-3562 | every class name, and every dot-free class name with any method name, is recognised back from its flag name |
| CutterCore.MethodFlagParts | src/core/Cutter.cpp:3562 | a method flag name determines its class and method names |
| CutterCore.CollectStep | src/core/Cutter.cpp:3568-3609 | one flag adds at most one class and keeps one entry per class name |
| CutterCore.ExpectedStep | src/core/Cutter.cpp:3568-3609 | the reference entry of a class after one more flag is the previous one with that flag applied |
| CutterCore.NotMentioned | src/core/Cutter.cpp:3568-3609 | a class that no flag names keeps the stub entry |
| CutterCore.CollectKeys | src/core/Cutter.cpp:3568-3609 | the result has an entry exactly for the classes some flag names |
| CutterCore.StepOld | src/core/Cutter.cpp:3574-3576 | a cached class keeps its position and its entry takes the flag |
| CutterCore.StepNew | src/core/Cutter.cpp:3570-3574 | an uncached class gets a new last entry: the flag applied to the stub |
| CutterCore.CollectSpec | src/core/Cutter.cpp:3559-3611 | the entry cached for a class is its reference entry: named and placed by its last class flag, or the stub, with its methods in flag order |
| CutterCore.ClassesFromFlagsSpec | src/core/Cutter.cpp:3559-3611 | every entry of the result belongs to a class some flag names and is that class's reference entry |
| CutterCore.GetAllClassesFromFlags | src/core/Cutter.cpp:3559-3611 | the loop returns exactly the collected classes, stubs at `RVA_INVALID` |
| CutterCore.ClassesFromFlags | src/core/Cutter.cpp:3568-3611 | the loop with the name-to-entry cache returns exactly the collected classes |
| CutterCore.AddFlag | src/core/Cutter.cpp:3568-3609 | one iteration makes the collected step and keeps the cache pointing at each class's entry |
| CutterCore.AddClassFlag | src/core/Cutter.cpp:3569-3585 | a class flag finds or creates its entry and names and places it; the cache stays exact |
| CutterCore.AddMethodFlag | src/core/Cutter.cpp:3587-3608 | a method flag finds or creates a stub entry and appends the method; the cache stays exact |
| CutterCore.TokenLines | src/core/Cutter.cpp:4232-4241 | one line per token, all at the text's offset, only the first with the arrow and the rest at `RVA_INVALID` |
| CutterCore.LinesOfSpec | src/core/Cutter.cpp:4228-4242 | a text gives at least one line, none holds a newline, joining them gives the text back, and all sit at its offset |
| CutterCore.DisassembleLines | src/core/Cutter.cpp:4228-4244 | the loop returns the lines of every text, in order |
| CutterCore.AppendTokens | src/core/Cutter.cpp:4232-4241 | the inner loop appends exactly the token lines |
| CutterCore.Preview | src/core/Cutter.cpp:4550-4561 | no lines give no preview; fewer lines than asked for (at least one) are kept whole; otherwise that many are kept and `...` follows |
| CutterCore.GetDisassemblyPreview | src/core/Cutter.cpp:4533-4564 | the loop with its early break returns that preview of the line texts |
| LegacyCutterCore.EscapeQuotes | src/Cutter.cpp:177-178 | the escaped text is no shorter and does not start with a quote |
| LegacyCutterCore.EscapeRoundTrip | src/Cutter.cpp:177-178 | unescaping the escaped text gives the argument back |
| LegacyCutterCore.EscapedQuotesPreceded | src/Cutter.cpp:177-178 | every quote in the escaped text follows a backslash |
| LegacyCutterCore.CmdRaw | src/Cutter.cpp:175-180 | the command is quoted and its inside unescapes to the argument |
| LegacyCutterCore.CreateFunctionCommandSpec | src/Cutter.cpp:656-663 | the command splits into exactly `af`, the name keeping only `[a-zA-Z0-9_]`, and the address text |
| LegacyCutterCore.ThreeWords | src/Cutter.cpp:659 | three space-free words joined by spaces split back into those words |
| LegacyCutterCore.RAddressNoSpace | src/Cutter.h:65-68 | an address text has no space |
| LegacyCutterCore.BlockRwx | src/Cutter.cpp:1916-1928 | the mask has bit 0, 1 or 2 exactly when the three-letter text has `r`, `w` or `x` in that place, and nothing else |
| LegacyCutterCore.RwxBitsUnique | src/Cutter.cpp:1916-1928 | the text determines the mask |
| LegacyCutterCore.GetBlockStatistics | src/Cutter.cpp:1888-1933 | zero blocks give an empty answer without asking; otherwise the range and each block's fields are read, missing ones as zero, with the permission mask |
| LegacyCutterCore.MatchesProjectPattern | src/Cutter.cpp:2024 | the whole name is one or more of `[a-zA-Z0-9\._:-]` |
| LegacyCutterCore.IsProjectNameValid | src/Cutter.cpp:2021-2026 | valid exactly when the pattern matches and the name does not end in `.zip` |
| LegacyCutterCore.ValidProjectNameIsPlain | src/Cutter.cpp:2021-2026 | a valid name has no `/`, space, `;` or `@`, so sanitising it changes nothing |
| LegacyCutterCore.ExecSectionsSpec | src/Cutter.cpp:685-703 | an entry is in the result exactly when some line has seven fields whose seventh contains `x`, and the entry is its fields 2, 3 and 5 |
| LegacyCutterCore.GetExecSections | src/Cutter.cpp:685-703 | the loop over the lines returns those entries in order |
| LegacyCutterCore.Xref | src/Cutter.cpp:1947-1966 | a reference is kept exactly when it passes the type filter and, for outgoing references of one instruction, starts at the address; a missing `to` of an incoming reference is the address |
| LegacyCutterCore.GetXRefs | src/Cutter.cpp:1936-1970 | the loop returns the kept references in order |
| LegacyCutterCore.XrefsSpec | src/Cutter.cpp:1936-1970 | every kept reference comes from the answer, has the filtered type and, for outgoing references of one instruction, starts at the address |
| LegacyCutterCore.GetAllClassesFromFlags | src/Cutter.cpp:1716-1775 | the same collection as the newer core, with stubs at address 0 |
| SyntaxColor.ColorFor | src/SyntaxColor.c:151-169 | a comment, keyword, data type, function name or constant variable gets its palette colour or the default one; a constant variable falls through `default` and keeps its colour; any other kind is the reset |
| SyntaxColor.BarText | src/SyntaxColor.c:113-127 | without colours a bar is always 19 characters ending in `|`; offset 0 is blank, any other shows `0x` and eight hexadecimal digits of its low 32 bits |
| SyntaxColor.Chars | src/SyntaxColor.c:132 | each character of the text is printed on its own, in order |
| SyntaxColor.Appended | src/SyntaxColor.c:184 | printing one more token adds it to what is shown unless it is an escape, and the colour in force changes only with an escape or a bar |
| SyntaxColor.CharsOfAppend | src/SyntaxColor.c:184 | a printed character adds itself to the characters shown |
| SyntaxColor.CharsOfBar | src/SyntaxColor.c:176-183 | a line bar adds no code character |
| SyntaxColor.PlainShowsCode | src/SyntaxColor.c:173-221 | the characters shown up to any point are exactly the code up to that point |
| SyntaxColor.PlainShowsNext | src/SyntaxColor.c:184 | one more step shows exactly the next character of the code |
| SyntaxColor.PlainWithoutBars | src/SyntaxColor.c:176 | without line offsets nothing but the code characters is shown |
| SyntaxColor.RenderChars | src/SyntaxColor.c:132 | the characters printed uncoloured render to the text itself |
| SyntaxColor.NoEscFixed | src/SyntaxColor.c:111 | output without escape sequences is unchanged by dropping them |
| SyntaxColor.EscPrinted | src/SyntaxColor.c:189 | an escape sent while colours are on shows nothing and sets the colour in force |
| SyntaxColor.WrappedBar | src/SyntaxColor.c:198-200 | a bar wrapped in a reset and the colour shows only the bar, colours no character, and leaves that colour in force |
| SyntaxColor.CharPrinted | src/SyntaxColor.c:184 | one character, after its bar, extends what is shown by exactly that character and adds one entry, the colour in force, to the colours of the characters shown |
| SyntaxColor.AnnotatedCode.constructor | src/SyntaxColor.c:6-15 | the code with no annotations |
| SyntaxColor.AnnotatedCode.AddAnnotation | src/SyntaxColor.c:24-27 | exactly one annotation is appended at the end and nothing else changes |
| SyntaxColor.AnnotatedCode.AnnotationsIn | src/SyntaxColor.c:29-43 | an annotation is returned exactly when it covers the offset, in insertion order |
| SyntaxColor.AnnotatedCode.Pick | src/SyntaxColor.c:111 | the escape sequence when colours are on, nothing otherwise |
| SyntaxColor.AnnotatedCode.PrintChar | src/SyntaxColor.c:193-203 | one more character is printed, with its bar at a line start, in the colour in force, which it keeps |
| SyntaxColor.AnnotatedCode.LineBar | src/SyntaxColor.c:176-183 | a bar with the line's offset, or 0 past the vector, is shown exactly at a line start when offsets are given, and the line count moves with it |
| SyntaxColor.AnnotatedCode.PrintRun | src/SyntaxColor.c:190-204 | the loop stops at the stop or the end of the code, whichever comes first (at once when already past the stop), and every character it prints is in the colour in force when it starts |
| SyntaxColor.AnnotatedCode.PrintPlainUpTo | src/SyntaxColor.c:173-185 | the characters up to the stop, or the end of the code, are printed, every one of them in the reset |
| SyntaxColor.AnnotatedCode.PrintColored | src/SyntaxColor.c:189-205 | the characters of the highlight range still unprinted are printed, every one of them in its colour when colours are on and in the reset otherwise, and the reset is in force afterwards |
| SyntaxColor.AnnotatedCode.PrintHighlight | src/SyntaxColor.c:173-205 | a highlight annotation prints the gap before its start in the reset and then what is left of its range in its colour, stopping at the end of the code |
| SyntaxColor.AnnotatedCode.PrintAnnotation | src/SyntaxColor.c:142-206 | handling annotation k moves the cursor and extends the colours of the characters shown exactly as `Painted` does for k; any kind but a highlight is skipped |
| SyntaxColor.AnnotatedCode.PrintAnnotations | src/SyntaxColor.c:142-206 | after the loop over all annotations the characters shown are coloured as `Painted` colours them up to the cursor |
| SyntaxColor.CurAfter | src/SyntaxColor.c:173-190 | the cursor after any number of annotations never passes the end of the code |
| SyntaxColor.PaintedStep | src/SyntaxColor.c:144-206 | a highlight annotation appends its reset part and then its coloured part to the colours; any other kind adds nothing and leaves the cursor |
| SyntaxColor.Painted | src/SyntaxColor.c:142-221 | the colour in force at each character of the code, one per character |
| SyntaxColor.PaintedByCovering | src/SyntaxColor.c:173-205 | a character whose colour is not the reset lies inside the range of a highlight annotation and has that annotation's colour |
| SyntaxColor.PaintedInRange | src/SyntaxColor.c:150-205 | when the highlight ranges are in order and do not overlap, every character inside a highlight range is printed in the palette colour of its kind, or the default colour `ColorFor` picks, when colours are on, and in the reset when they are off |
| SyntaxColor.PaintedPrintedAll | src/SyntaxColor.c:136-221 | a complete printout coloured as `Painted` colours only characters inside a highlight range |
| SyntaxColor.AnnotatedCode.Print | src/SyntaxColor.c:129-222 | without annotations the code and a newline; otherwise every character once and in order with its line bars, each in the colour `Painted` gives it (the reset outside highlight ranges), and no escape at all when colours are off |
| SyntaxColor.PrintShowsCode | src/SyntaxColor.c:136-221 | escapes and bars aside, the printer shows the code exactly |
| SyntaxColor.PrintsCodeVerbatim | src/SyntaxColor.c:136-221 | without colours and offsets the output is exactly the code |
| SyntaxColor.BlankBarPastOffsets | src/SyntaxColor.c:177-181 | a line past the end of the offsets vector gets a blank bar |
| DecompilerWidget.CStrLen | src/widgets/DecompilerWidget.cpp:611 | the length up to the first NUL byte, or the whole bytes without one |
| DecompilerWidget.LeadOffsets | src/widgets/DecompilerWidget.cpp:611-616 | exactly the offsets below the length whose byte is not a UTF-8 continuation byte, increasing |
| DecompilerWidget.UpperBound | src/widgets/DecompilerWidget.cpp:618 | the index of the first offset above the position, all before it at or below it |
| DecompilerWidget.MapPosMonotone | src/widgets/DecompilerWidget.cpp:617-623 | a later byte never maps to an earlier character |
| DecompilerWidget.MapPosOfLead | src/widgets/DecompilerWidget.cpp:617-623 | the first byte of a character maps to that character |
| DecompilerWidget.MapPosContaining | src/widgets/DecompilerWidget.cpp:617-623 | a byte at or after the first character maps to the character that contains it |
| DecompilerWidget.Remapped | src/widgets/DecompilerWidget.cpp:625-631 | every annotation keeps its kind and its place in the list |
| DecompilerWidget.RemappedAt | src/widgets/DecompilerWidget.cpp:629-630 | each annotation's start and end become their character indices and its kind is kept |
| DecompilerWidget.RemappedKeepsOrder | src/widgets/DecompilerWidget.cpp:629-630 | a range whose start is not after its end stays so |
| DecompilerWidget.ClosestUnique | src/widgets/DecompilerWidget.cpp:123-136 | the covering annotation with the greatest start that comes first is unique |
| DecompilerWidget.PositionForBest | src/widgets/DecompilerWidget.cpp:162-181 | without a candidate the answer is `SIZE_MAX`; with one it is a candidate's start, below `UT64_MAX` that of the first candidate with the greatest offset |
| DecompilerWidget.ConsSorted | src/widgets/DecompilerWidget.cpp:239 | an element no greater than the head of a sorted list keeps it sorted |
| DecompilerWidget.Insert | src/widgets/DecompilerWidget.cpp:239 | inserting into a sorted list keeps it sorted and adds exactly the element |
| DecompilerWidget.SortAscending | src/widgets/DecompilerWidget.cpp:239 | the same addresses, ascending |
| DecompilerWidget.DecompilerView.constructor | src/widgets/DecompilerWidget.cpp:23-34 | the view holds the code and annotations given (in the source a warning text with no annotations), no first offset in line, no breakpoints, and the empty offset range |
| DecompilerWidget.DecompilerView.CharacterStarts | src/widgets/DecompilerWidget.cpp:607-616 | the loop collects exactly the character starts up to the NUL |
| DecompilerWidget.DecompilerView.RemapAnnotationOffsets | src/widgets/DecompilerWidget.cpp:605-633 | both ends of every annotation become the index of the character containing them; nothing else changes |
| DecompilerWidget.DecompilerView.RemapEach | src/widgets/DecompilerWidget.cpp:625-631 | the in-place loop computes exactly the remapped annotations |
| DecompilerWidget.DecompilerView.ClosestCovering | src/widgets/DecompilerWidget.cpp:118-160 | the address of the first covering annotation of the wanted kind with the greatest start, or the default when none covers |
| DecompilerWidget.DecompilerView.OffsetForPosition | src/widgets/DecompilerWidget.cpp:140-160 | the closest covering offset annotation's address, or the line's first offset |
| DecompilerWidget.DecompilerView.FindReference | src/widgets/DecompilerWidget.cpp:118-138 | the closest covering global variable's address, or `RVA_INVALID` |
| DecompilerWidget.DecompilerView.PositionForOffset | src/widgets/DecompilerWidget.cpp:162-181 | the loop computes the position PositionForBest characterises |
| DecompilerWidget.DecompilerView.GatherBreakpointInfo | src/widgets/DecompilerWidget.cpp:213-241 | the line's first offset is the least offset of the offset annotations touching the line, or `RVA_MAX`; the breakpoints offered are those positioned on the line, sorted |
| DecompilerWidget.DecompilerView.SetCode | src/widgets/DecompilerWidget.cpp:635-646 | the view holds the new code, its annotations remapped to character indices of the text shown; the range bounds and the context menu state stay as they were |
| DecompilerWidget.DecompilerView.DecompilationFinished | src/widgets/DecompilerWidget.cpp:311-354 | the decompiled code is shown; when its text is empty the warning's code and annotations replace it and the range is `[RVA_MAX, 0]`, so no address is in range; otherwise the decompiled code stays, the bounds are the least and greatest offset annotation and every one of them is in range |
| DecompilerWidget.DecompilerView.OffsetRange | src/widgets/DecompilerWidget.cpp:340-353 | starting from the empty range, the loop over the annotations ends with the least and the greatest offset annotation as bounds, each of them attained by some annotation unless there is none |
| DisassemblerGraphView.ContainsInterval | src/widgets/DisassemblerGraphView.cpp:1169-1172 | an instruction contains an address exactly when the address lies in the half-open range it covers, so a zero-size one contains nothing |
| DisassemblerGraphView.LoadBlock | src/widgets/DisassemblerGraphView.cpp:270-341 | the block's entry is its offset; `fail` sets the false path; `jump` sets the true path only together with `fail`; the edges are fail, jump and the parsed switch cases in order; one instruction per op, sized to the next op or to the block end |
| DisassemblerGraphView.SizesTile | src/widgets/DisassemblerGraphView.cpp:314-321 | in a well laid out block each instruction ends where the next begins, the last at the block end, and none is empty |
| DisassemblerGraphView.InstructionsPartitionBlock | src/widgets/DisassemblerGraphView.cpp:314-321 | in a well laid out block every address from the first op to the block end is in exactly one instruction |
| DisassemblerGraphView.OffsetsIncrease | src/widgets/DisassemblerGraphView.cpp:309-321 | the op offsets of a well laid out block do not decrease |
| DisassemblerGraphView.CleanEdgesMembership | src/widgets/DisassemblerGraphView.cpp:401-405 | a target is kept exactly when it is a block and occurs among the edges |
| DisassemblerGraphView.CleanEdgesDistinct | src/widgets/DisassemblerGraphView.cpp:402-404 | no target is kept twice |
| DisassemblerGraphView.CleanEdgesOrder | src/widgets/DisassemblerGraphView.cpp:398-406 | the kept targets come in the order of their first occurrences |
| DisassemblerGraphView.IndexOfUnique | src/widgets/DisassemblerGraphView.cpp:402 | a position holding a value not seen before it is that value's first occurrence |
| DisassemblerGraphView.IndexOfAppend | src/widgets/DisassemblerGraphView.cpp:403 | appending does not move the first occurrence of a value already present |
| DisassemblerGraphView.LinesBeforeMono | src/widgets/DisassemblerGraphView.cpp:664-669 | the rows taken by the instructions before a later one are never fewer |
| DisassemblerGraphView.DisassemblerGraph.constructor | src/widgets/DisassemblerGraphView.cpp:230-231 | no blocks and no disassembly blocks |
| DisassemblerGraphView.DisassemblerGraph.CompactEdges | src/widgets/DisassemblerGraphView.cpp:396-407 | the write-iterator compaction of one edge vector leaves exactly the cleaned edges |
| DisassemblerGraphView.DisassemblerGraph.CleanupEdges | src/widgets/DisassemblerGraphView.cpp:392-409 | every block, and no other, keeps only its edges to blocks, each target once, in order; the disassembly blocks are untouched |
| DisassemblerGraphView.DisassemblerGraph.InstrForRow | src/widgets/DisassemblerGraphView.cpp:650-672 | none exactly when the row is past the last instruction's text; otherwise the first instruction whose text ends below the row, which starts at or above it |
| DisassemblerGraphView.DisassemblerGraph.AddrForRow | src/widgets/DisassemblerGraphView.cpp:626-648 | header rows give the block entry, instruction rows the address of that instruction, rows past the text `RVA_INVALID` |
| DisassemblerGraphView.DisassemblerGraph.HasInstrAt | src/widgets/DisassemblerGraphView.cpp:746-754 | true exactly when an instruction with valid address and size contains the address |
| DisassemblerGraphView.FirstHolding | src/widgets/DisassemblerGraphView.cpp:742-757 | the block found holds the address; when none is found no block in the order holds it |
| DisassemblerGraphView.DisassemblerGraph.BlockForAddress | src/widgets/DisassemblerGraphView.cpp:742-757 | none exactly when no block holds the address; otherwise the first block in iteration order that holds it, which is FirstHolding |
| DisassemblerGraphView.DisassemblerGraph.TakeBranch | src/widgets/DisassemblerGraphView.cpp:805-831 | the seek is exactly TakenTarget of the first block holding the offset: its chosen branch, else its first edge's target, else none; no block means no seek; looking up the edges only adds an empty entry |
| DisassemblerGraphView.DisassemblerGraph.TakeTrue | src/widgets/DisassemblerGraphView.cpp:805-817 | the same with the true branch |
| DisassemblerGraphView.DisassemblerGraph.TakeFalse | src/widgets/DisassemblerGraphView.cpp:819-831 | the same with the false branch |
| DisassemblerGraphView.LoadedBranches | src/widgets/DisassemblerGraphView.cpp:283-292 | for the block LoadBlock builds, taking the false branch goes to `fail` when it is set; the true branch goes to `jump` when both are set, and otherwise follows the first edge, with no seek when there is none |
| LegacyGraphGridLayout.DfsBound | widgets/GraphGridLayout.cpp:36-60 | the finished and stacked blocks together never outnumber the blocks, which bounds the search |
| LegacyGraphGridLayout.DfsInit | widgets/GraphGridLayout.cpp:29-35 | the empty search state, with no kept edges, satisfies the search invariant |
| LegacyGraphGridLayout.DfsStart | widgets/GraphGridLayout.cpp:37-38 | marking an unvisited block as on the stack and pushing it keeps the invariant |
| LegacyGraphGridLayout.DfsPush | widgets/GraphGridLayout.cpp:47-50 | an edge to an unvisited block pushes it and keeps the edge; the invariant holds |
| LegacyGraphGridLayout.DfsKeep | widgets/GraphGridLayout.cpp:51-52 | an edge to a finished block is kept and the stack only advances; the invariant holds |
| LegacyGraphGridLayout.DfsSkip | widgets/GraphGridLayout.cpp:53 | an edge to a block still on the stack is a loop edge and is dropped; the invariant holds |
| LegacyGraphGridLayout.DfsPop | widgets/GraphGridLayout.cpp:54-58 | a block whose edges are all followed leaves the stack, is finished and joins the order; the invariant holds |
| LegacyGraphGridLayout.FollowEdge | widgets/GraphGridLayout.cpp:43-53 | following the top block's next edge pushes its target or not, finishes nothing, and makes progress |
| LegacyGraphGridLayout.DfsStep | widgets/GraphGridLayout.cpp:39-59 | one step follows an edge or pops the top block into the order; the bottom of the stack stays until the fragment ends with it |
| LegacyGraphGridLayout.DfsFragment | widgets/GraphGridLayout.cpp:36-60 | one fragment keeps the invariant, keeps the blocks finished before it, and finishes its first block last |
| LegacyGraphGridLayout.DfsDone | widgets/GraphGridLayout.cpp:65-70 | once every block is finished, the order holds each block once, every kept edge points earlier in it, and every dropped edge points to a block finished no earlier |
| LegacyGraphGridLayout.ListedAll | widgets/GraphGridLayout.cpp:66-70 | after the loop over the block map every block is finished |
| LegacyGraphGridLayout.DfsAll | widgets/GraphGridLayout.cpp:62-70 | the order lists every block once; kept edges are edges, point earlier in the order (children before parents), and only loop edges are dropped |
| LegacyGraphGridLayout.RaiseTargets | widgets/GraphGridLayout.cpp:75-79 | every target's level becomes the larger of its level and the next level; other levels are kept |
| LegacyGraphGridLayout.NoSelfEdge | widgets/GraphGridLayout.cpp:50-53 | no block keeps an edge to itself |
| LegacyGraphGridLayout.LevelStep | widgets/GraphGridLayout.cpp:73-80 | one block of the reversed order leaves the levels of the blocks done so far consistent |
| LegacyGraphGridLayout.AssignLevels | widgets/GraphGridLayout.cpp:72-80 | levels are non-negative, every kept edge goes at least one level down, and a block above level 0 sits exactly one below some kept predecessor |
| LegacyGraphGridLayout.ChildAfterAdopt | widgets/GraphGridLayout.cpp:86 | adopting t under v adds exactly that parent-child pair |
| LegacyGraphGridLayout.TreeAdopt | widgets/GraphGridLayout.cpp:85-88 | adopting a parentless block one level down keeps tree edges among kept edges and every block with at most one parent |
| LegacyGraphGridLayout.AdoptChildren | widgets/GraphGridLayout.cpp:83-89 | after one block's loop, every kept edge of it into the next level ends at a block with a parent, and parents are never lost |
| LegacyGraphGridLayout.SelectAll | widgets/GraphGridLayout.cpp:81-90 | after the loop every block with a kept predecessor one level up has a parent |
| LegacyGraphGridLayout.SelectTreeEdges | widgets/GraphGridLayout.cpp:81-90 | tree edges are kept edges one level down, every block has at most one tree parent, and every block reachable so has one |
| LegacyGraphGridLayout.TreeOf | widgets/GraphGridLayout.cpp:86 | the tree edges of every block, and only of blocks |
| LegacyGraphGridLayout.DagOf | widgets/GraphGridLayout.cpp:50-52 | the kept edges of every block, and only of blocks |
| LegacyGraphGridLayout.FreshBlocks | widgets/GraphGridLayout.cpp:100-104 | one default grid block per block of the graph, with its id |
| LegacyGraphGridLayout.RowSpan | widgets/GraphGridLayout.cpp:306-315 | at least 1, above every child's row count, and equal to 1 or one more than some child's |
| LegacyGraphGridLayout.RowSpanStep | widgets/GraphGridLayout.cpp:313 | one more child raises the span to at least its rows plus one |
| LegacyGraphGridLayout.ChildrenBelow | widgets/GraphGridLayout.cpp:366-367 | tree children rank below their parent, so the recursion ends and no block is its own child |
| LegacyGraphGridLayout.MovedDone | widgets/GraphGridLayout.cpp:361-369 | after the recursion every block is moved once per tree path from the start block |
| LegacyGraphGridLayout.SetOwnPlace | widgets/GraphGridLayout.cpp:335-358 | the block gets its column, width, row 0 and row count; others only moved |
| LegacyGraphGridLayout.SizedSelf | widgets/GraphGridLayout.cpp:301-359 | a placed block's sizes agree with its children's |
| LegacyGraphGridLayout.SizedStep | widgets/GraphGridLayout.cpp:287-289 | placing the next block of a children-first order keeps the earlier blocks sized |
| LegacyGraphGridLayout.OrderRanked | widgets/GraphGridLayout.cpp:287-289 | the position in a children-first order ranks the tree |
| LegacyGraphGridLayout.TreeFollowsOrder | widgets/GraphGridLayout.cpp:73-90 | the tree picked from the sorted order lists children before parents and stays inside the blocks |
| LegacyGraphGridLayout.LayoutState.constructor | widgets/GraphGridLayout.cpp:97-104 | the state starts with one fresh grid block per block |
| LegacyGraphGridLayout.LayoutState.TopoSort | widgets/GraphGridLayout.cpp:22-92 | the same blocks; the order lists each once with kept edges pointing earlier and only loop edges dropped; placement fields untouched |
| LegacyGraphGridLayout.LayoutState.AdjustGraphLayout | widgets/GraphGridLayout.cpp:361-369 | every block is moved by the offsets once per tree path from v; tree edges unchanged |
| LegacyGraphGridLayout.LayoutState.ChildRows | widgets/GraphGridLayout.cpp:306-315 | the rows v needs and the column of its last child, 0 without children |
| LegacyGraphGridLayout.LayoutState.PlacePair | widgets/GraphGridLayout.cpp:317-334 | the two-children cases only move blocks below v's children |
| LegacyGraphGridLayout.LayoutState.PlaceLeafLeft | widgets/GraphGridLayout.cpp:320-325 | a leaf left child goes two columns left of its sibling, then both shift right if needed; only blocks below v's children move |
| LegacyGraphGridLayout.LayoutState.PlaceLeafRight | widgets/GraphGridLayout.cpp:326-329 | a leaf right child goes two columns right of its sibling; only blocks below v's children move |
| LegacyGraphGridLayout.LayoutState.PlaceBoth | widgets/GraphGridLayout.cpp:330-333 | two inner children side by side; only blocks below v's children move |
| LegacyGraphGridLayout.LayoutState.PlaceRow | widgets/GraphGridLayout.cpp:342-345 | the children side by side; returns the sum of their widths |
| LegacyGraphGridLayout.LayoutState.PlaceChildren | widgets/GraphGridLayout.cpp:317-356 | at least two columns; a leaf is two wide in column 0; one wide child centres v over it; outside the non-wide pair case the width is the children's total; the medium layout centres v between the pair |
| LegacyGraphGridLayout.LayoutState.ComputeBlockPlacement | widgets/GraphGridLayout.cpp:301-359 | v sits in row 0 with one row more than its tallest child and the column rules above; only blocks below v's children move |
| LegacyGraphGridLayout.LayoutState.ComputeAllBlockPlacement | widgets/GraphGridLayout.cpp:284-297 | every block ends sized consistently with its children; only positions and sizes change |
| LegacyGraphGridLayout.PlaceBlocks | widgets/GraphGridLayout.cpp:94-107 | all blocks kept; a children-first order; levels and tree edges as above; every block sized consistently with its tree children |
| GridEdges.MarkEdge | src/widgets/GraphGridLayout.cpp:340-345 | the cell's lanes are padded with free ones up to the index; exactly that lane of that cell becomes `used`; every other lane reads as before |
| GridEdges.MaxLanesRow | src/widgets/GraphGridLayout.cpp:465-475 | no cell of the row stores more lanes than the bound |
| GridEdges.MaxLanes | src/widgets/GraphGridLayout.cpp:465-475 | no cell of the grid stores more lanes than the bound, so the search for a free lane ends |
| GridEdges.FindHorizEdgeIndex | src/widgets/GraphGridLayout.cpp:461-481 | the lane returned is free in every cell of the row span and every lower lane is taken in some cell of it; exactly that lane of those cells is then marked |
| GridEdges.FindVertEdgeIndex | src/widgets/GraphGridLayout.cpp:483-503 | the same along a column span |
| GraphGridLayout.ArrivalsFromCount | src/widgets/GraphGridLayout.cpp:25-27 | one block adds only its own entry to x's incoming list, once per exit it has to x |
| GraphGridLayout.ArrivalsSound | src/widgets/GraphGridLayout.cpp:23-28 | only blocks with an exit to x arrive in x's incoming list |
| GraphGridLayout.ArrivalsCount | src/widgets/GraphGridLayout.cpp:23-28 | each block arrives in x's incoming list exactly as often as it has an exit to x |
| GraphGridLayout.AppendToExits | src/widgets/GraphGridLayout.cpp:24-27 | one round of the outer loop appends the block's entry to each of its exits' lists |
| GraphGridLayout.PopulateIncoming | src/widgets/GraphGridLayout.cpp:22-28 | every block's incoming list is extended by exactly its arrivals, in map order; nothing else changes |
| GraphGridLayout.RemoveAllCount | src/widgets/GraphGridLayout.cpp:8-11 | `removeFromVec` deletes every copy of the element and keeps every other one |
| GraphGridLayout.WalkAdopt | src/widgets/GraphGridLayout.cpp:57-62 | adopting an unvisited exit of a block that left the queue keeps the walk invariant: blocks discovered once, children after parents, one parent each |
| GraphGridLayout.WalkDrop | src/widgets/GraphGridLayout.cpp:63-66 | changing incoming lists alone keeps the walk invariant |
| GraphGridLayout.VisitExits | src/widgets/GraphGridLayout.cpp:45-67 | the walk invariant is kept, and the queue grows exactly when a block was adopted |
| GraphGridLayout.DrainQueue | src/widgets/GraphGridLayout.cpp:41-68 | the queue ends empty with every queued block in the order, the invariant kept, and `changed` set exactly when a block was adopted |
| GraphGridLayout.FindBestEdge | src/widgets/GraphGridLayout.cpp:71-96 | found exactly when an edge leads from a visited to an unvisited block; then the pick has the fewest incoming edges, ties to the lower address, from the first parent in map order |
| GraphGridLayout.Fallback | src/widgets/GraphGridLayout.cpp:70-104 | without a candidate nothing changes; otherwise the best target joins its parent's tree children, loses that parent from its incoming list, and is queued and visited |
| GraphGridLayout.PickTree | src/widgets/GraphGridLayout.cpp:30-105 | the block order starts at the entry, holds each block once, is closed under exits, and the tree children form a forest over it |
| GraphGridLayout.PickAsWritten | src/widgets/GraphGridLayout.cpp:71-94 | the scan as written returns its start or some candidate it met |
| GraphGridLayout.ZeroTargetDropped | src/widgets/GraphGridLayout.cpp:89-97 | an edge into block 0 is a candidate, yet the scan as written reports no edge |
| GraphGridLayout.SiblingsApart | src/widgets/GraphGridLayout.cpp:270-276 | with one parent per block, the subtrees of two different children share no block, so placing one leaves the other alone |
| GraphGridLayout.PlaceSubtree | src/widgets/GraphGridLayout.cpp:262-320 | the children's subtrees are placed first, then v over them; tree edges kept, only positions and sizes changed, blocks outside v's subtree untouched, every block inside sized consistently with its children |
| GraphGridLayout.CopyPlacement | src/widgets/GraphGridLayout.cpp:262-320 | every block takes its placed position and size and keeps everything else |
| GraphGridLayout.WalkReaches | src/widgets/GraphGridLayout.cpp:37-105 | every block of the block order lies in the entry's tree |
| GraphGridLayout.WalkReachesOnly | src/widgets/GraphGridLayout.cpp:37-105 | only blocks of the block order lie in the entry's tree |
| GraphGridLayout.PlacedWalk | src/widgets/GraphGridLayout.cpp:107 | placing from the entry sizes every block of the order and leaves the others as they were |
| GraphGridLayout.CalculateLayout | src/widgets/GraphGridLayout.cpp:19-107 | every block keeps its entry and exits; the order starts at the entry, holds each reachable block once, is closed under exits, forms a forest, and every block in it is sized consistently; unreachable blocks are not placed |
| LegacyDisassemblyWidget.Shown | widgets/DisassemblyWidget.cpp:290-304 | the lines shown are the longest prefix of the fetched lines whose offsets are all at or past the top offset; the first line left out wrapped below it |
| LegacyDisassemblyWidget.ShownIsPrefix | widgets/DisassemblyWidget.cpp:290-293 | any prefix of n lines at or past the top, followed by a wrapped line or by nothing, is exactly what the loop shows |
| LegacyDisassemblyWidget.ReadRendered | widgets/DisassemblyWidget.cpp:290-321 | reading back block i of the rendered document gives the offset of the i-th shown line, which is at or past the top, and the trailing empty block reads as RVA_INVALID; after the removal of additional lines at most `maxLines` blocks remain, and the trailing block only when the shown lines leave room for it |
| LegacyDisassemblyWidget.ExtraLinesRemoved | widgets/DisassemblyWidget.cpp:315-321 | for any lines, top and budget: once the shown lines fill `maxLines`, the document holds exactly the first `maxLines` of them and no empty block follows; otherwise nothing is removed and the empty block stays last |
| LegacyDisassemblyWidget.ReadEmpty | widgets/DisassemblyWidget.cpp:447-455 | every block of a cleared document has no user data and reads as RVA_INVALID |
| LegacyDisassemblyWidget.BottomOffset | widgets/DisassemblyWidget.cpp:306-313 | the bottom offset is never above the top: it is the top when no lines came back, otherwise the offset of the last displayable line, or RVA_MAX when that line wrapped below the top |
| LegacyDisassemblyWidget.ScrollTarget | widgets/DisassemblyWidget.cpp:341-352 | scrolling down never moves the top back and scrolling up never moves it forward: the core's answer is taken unless it went the wrong way, and then it is clamped to RVA_MAX or 0 |
| LegacyDisassemblyWidget.Refresh | widgets/DisassemblyWidget.cpp:252-321 | nothing changes when the deferrer refuses; the top becomes the requested offset unless that is RVA_INVALID; with no top nothing else changes; with no room the document is cleared and the lines kept; otherwise the fetched lines are stored, the bottom is at or past the top, the document has at most `maxLines` blocks and every block reads an offset at or past the top or RVA_INVALID |
| LegacyDisassemblyWidget.WrappedScrollStays | widgets/DisassemblyWidget.cpp:343-354 | a forward scroll whose answer wrapped is clamped to RVA_MAX, which equals RVA_INVALID, so the refresh leaves the top where it was |
| LegacyDisassemblyWidget.InsertLines | widgets/DisassemblyWidget.cpp:287-304 | the insertion loop builds one block per shown line, then the empty block the cursor leaves behind |
| LegacyDisassemblyWidget.RenderLines | widgets/DisassemblyWidget.cpp:287-321 | insertion followed by the removal of every block past line `maxLines` builds exactly the rendered document |
| LegacyDisassemblyWidget.DisassemblyView.constructor | widgets/DisassemblyWidget.cpp:51-54 | the view starts with top and bottom RVA_INVALID, no lines, zero cursor offsets and no seek from the cursor |
| LegacyDisassemblyWidget.DisassemblyView.RefreshDisasm | widgets/DisassemblyWidget.cpp:252-321 | the text state becomes Refresh of the old one; the line budget and the cursor fields are untouched |
| LegacyDisassemblyWidget.DisassemblyView.ScrollInstructions | widgets/DisassemblyWidget.cpp:335-355 | a zero count changes nothing; otherwise the view is refreshed at the clamped scroll target |
| LegacyDisassemblyWidget.DisassemblyView.InstructionChanged | widgets/DisassemblyWidget.cpp:154-158 | the view refreshes in place exactly when the changed offset lies between the top and bottom offsets, and is untouched otherwise |
| LegacyDisassemblyWidget.DisassemblyView.OnSeekChanged | widgets/DisassemblyWidget.cpp:651-667 | the cursor offsets are reset unless the seek came from the cursor; a seek to a visible offset leaves the text as it is, any other seek refreshes with the seek offset as top |
| LegacyDisassemblyWidget.DisassemblyView.UpdateMaxLines | widgets/DisassemblyWidget.cpp:358-369 | the result is true exactly when the line budget changed; the budget becomes the current one and the view refreshes only when it changed |
| LegacyDisassemblyWidget.MakeRange | widgets/DisassemblyWidget.cpp:772-773 | the range holds the two ends in ascending order, whichever order they were given in |
| LegacyDisassemblyWidget.MakeRangePoints | widgets/DisassemblyWidget.cpp:771-786 | a point lies in the range of two ends exactly when it lies between their minimum and maximum; the range does not depend on the order of the ends |
| LegacyDisassemblyWidget.ContainsRangePoints | widgets/DisassemblyWidget.cpp:777-785 | a range contains another exactly when it contains both its ends, and then it contains every point of it |
| LegacyDisassemblyWidget.ArrowInfo | widgets/DisassemblyWidget.cpp:825-831 | the arrow map has a key exactly for the offsets of lines with an arrow, and each key maps to the target of the last such line |
| LegacyDisassemblyWidget.ArrowInfoStep | widgets/DisassemblyWidget.cpp:828-830 | one more line keeps the three properties of the arrow map: a later insert for the same offset overwrites the earlier one |
| LegacyDisassemblyWidget.BuildArrowInfo | widgets/DisassemblyWidget.cpp:825-831 | the loop over the lines builds exactly the arrow map |
| LegacyDisassemblyWidget.NestedIsStartInside | widgets/DisassemblyWidget.cpp:838-845 | the nesting test (range contained, or start contained) of another arrow is the same as its start lying inside this arrow's range |
| LegacyDisassemblyWidget.CountNested | widgets/DisassemblyWidget.cpp:838-846 | the number of nested arrows counted over a key list is at most the list's length |
| LegacyDisassemblyWidget.InitialLevels | widgets/DisassemblyWidget.cpp:833-847 | every arrow gets a level, and its level is one plus the number of other arrows nested in it |
| LegacyDisassemblyWidget.LevelOf | widgets/DisassemblyWidget.cpp:834-846 | the inner loop for one arrow computes one plus the number of other arrows nested in it |
| LegacyDisassemblyWidget.InitialLevelBounds | widgets/DisassemblyWidget.cpp:833-847 | every initial level is between 1 and the number of arrows |
| LegacyDisassemblyWidget.CountWithout | widgets/DisassemblyWidget.cpp:838-841 | an arrow never counts itself: over a list of distinct keys holding it, its count is at most the list's length minus one |
| DisassemblyWidget.Step | src/widgets/DisassemblyWidget.cpp:723-735 | a new seek keeps the entries up to the current one, appends the offset and makes it current; undo and redo move the position by one over the same entries; the history stays valid and non-empty |
| DisassemblyWidget.UndoRedo | src/widgets/DisassemblyWidget.cpp:731-734 | after an undo a redo is possible, and the redo returns to the history before the undo |
| DisassemblyWidget.NewThenUndo | src/widgets/DisassemblyWidget.cpp:723-732 | after a new seek an undo is possible and returns to the old position with the old entries up to it |
| DisassemblyWidget.NewDropsRedo | src/widgets/DisassemblyWidget.cpp:725-730 | after a new seek there is nothing to redo |
| DisassemblyWidget.MakeArrow | src/widgets/DisassemblyWidget.cpp:962-970 | an arrow built from a jump has min at most max, points up exactly when the jump goes backwards, and gives back the jump's source and target |
| DisassemblyWidget.AddArrows | src/widgets/DisassemblyWidget.cpp:958-973 | the stored arrows are kept as a prefix; every line's jump has an arrow with its span afterwards; each appended arrow comes from a line and repeats no earlier span |
| DisassemblyWidget.AddArrowsStep | src/widgets/DisassemblyWidget.cpp:962-971 | one more line keeps the four properties of the arrow store: its arrow is appended only when no stored arrow has the same span |
| DisassemblyWidget.ViewMin | src/widgets/DisassemblyWidget.cpp:955-961 | the minimum view offset is the offset of one of the lines and no line lies below it |
| DisassemblyWidget.ViewMax | src/widgets/DisassemblyWidget.cpp:955-961 | the maximum view offset is the offset of one of the lines and no line lies above it |
| DisassemblyWidget.Insert | src/widgets/DisassemblyWidget.cpp:1024-1030 | insertion adds exactly the one arrow: the result is the old multiset plus the arrow |
| DisassemblyWidget.InsertSorted | src/widgets/DisassemblyWidget.cpp:1024-1030 | inserting into a sequence sorted by a key keeps it sorted, and the first element is the new arrow or the old first one |
| DisassemblyWidget.SortBy | src/widgets/DisassemblyWidget.cpp:1024-1030 | sorting yields a permutation of the arrows in ascending key order |
| DisassemblyWidget.LevelKeyOrder | src/widgets/DisassemblyWidget.cpp:1022-1030 | the numeric sort key orders two arrows exactly as the comparator does: those that fit on screen after those that do not, then by ascending max, then by descending min |
| DisassemblyWidget.LexBound | src/widgets/DisassemblyWidget.cpp:1029 | the key built from max and min is non-negative and below 2^128 |
| DisassemblyWidget.LexOrder | src/widgets/DisassemblyWidget.cpp:1029 | a smaller max gives a smaller key whatever the mins are |
| DisassemblyWidget.EvictSpec | src/widgets/DisassemblyWidget.cpp:1105-1120 | too deep a level clears the store; otherwise the store is cut to at most arrowsSize arrows, a store that fits is left unchanged, the kept arrows are a sub-multiset, and after scrolling down the kept arrows leave from no later offset than the dropped ones (no earlier after scrolling up) |
| DisassemblyWidget.SortedSplit | src/widgets/DisassemblyWidget.cpp:1112-1119 | in a sorted sequence every element of a prefix has a key no larger than every element after it |
| DisassemblyWidget.EvictBound | src/widgets/DisassemblyWidget.cpp:1109-1119 | after eviction the store holds at most arrowsSize arrows |
| DisassemblyWidget.FirstFrom | src/widgets/DisassemblyWidget.cpp:1127-1128 | the index of the first arrow leaving the offset, or the length when there is none |
| DisassemblyWidget.WithoutArrowFrom | src/widgets/DisassemblyWidget.cpp:1125-1132 | erasing removes exactly the first arrow leaving the offset, one arrow fewer, and leaves the store alone when none leaves it |
| DisassemblyWidget.FindFrom | src/widgets/DisassemblyWidget.cpp:1127-1128 | the search returns the index of the first arrow leaving the offset, or the length when there is none |
| DisassemblyWidget.LeftPanel.constructor | src/widgets/DisassemblyWidget.cpp:912-916 | the panel starts with no arrows and the given store size, flush level and last begin offset |
| DisassemblyWidget.LeftPanel.Paint | src/widgets/DisassemblyWidget.cpp:926-1123 | with no lines nothing changes; otherwise the store becomes the new arrows added, sorted by level key and evicted, holds at most arrowsSize arrows, and the last begin offset becomes the first line's offset |
| DisassemblyWidget.LeftPanel.ClearArrowFrom | src/widgets/DisassemblyWidget.cpp:1125-1132 | the store becomes WithoutArrowFrom of the old one: only the first arrow leaving the offset is removed, and the store is unchanged when there is none |
| DisassemblyWidget.ScanLines | src/widgets/DisassemblyWidget.cpp:955-973 | the scan over the lines yields exactly the arrow store of AddArrows and the minimum and maximum view offsets |
| DisassemblyWidget.FindSpan | src/widgets/DisassemblyWidget.cpp:964-968 | the search reports true exactly when a stored arrow has the same min and max |
| DisassemblyWidget.DisassemblyView.constructor | src/widgets/DisassemblyWidget.cpp:35-44 | the view starts with top and bottom RVA_INVALID, zero cursor offsets, no seek from the cursor, an empty history and its left panel |
| DisassemblyWidget.DisassemblyView.RefreshDisasm | src/widgets/DisassemblyWidget.cpp:236-308 | the text state becomes Refresh of the old one, including the removal of lines past the budget; the line budget, the cursor fields and the history are untouched |
| DisassemblyWidget.DisassemblyView.ScrollInstructions | src/widgets/DisassemblyWidget.cpp:317-338 | a zero count changes nothing; otherwise the view refreshes at the clamped scroll target and the current history entry becomes that target |
| DisassemblyWidget.DisassemblyView.RefreshIfInRange | src/widgets/DisassemblyWidget.cpp:223-228 | the view refreshes in place exactly when the offset lies between the top and bottom offsets, and is untouched otherwise |
| DisassemblyWidget.DisassemblyView.InstructionChanged | src/widgets/DisassemblyWidget.cpp:230-234 | the view always refreshes in place; the left panel's store becomes WithoutArrowFrom of the old one and its last begin offset is kept; the cursor offsets, the history and the seek flag are kept |
| DisassemblyWidget.DisassemblyView.OnSeekChanged | src/widgets/DisassemblyWidget.cpp:721-750 | the history takes its step; a new seek to a visible offset leaves the text alone and records the top in the current entry, every other seek refreshes at the current entry; the cursor offsets reset unless the seek came from the cursor |
| DisassemblyWidget.DisassemblyView.UpdateMaxLines | src/widgets/DisassemblyWidget.cpp:340-351 | the result is true exactly when the line budget changed; the budget becomes the current one and the view refreshes only when it changed |

## Left out

- Qt painting, widgets, fonts, colours in pixels and event plumbing are not modelled; only the state they drive is.
- Engine calls through `Core()` (`cmd`, `cmdj`, `ioRead`, `disassembleLines`, `nextOpAddr`, `prevOpAddr`, `math`, block statistics) are parameters. Their own behaviour is not modelled, and neither is what the older core's `cmd` prints.
- The embedded Python and Jupyter kernel hosting (`src/utils/PythonAPI.cpp`, `src/common/PythonManager.cpp`) is left out. It consists of foreign CPython calls and threads.
- Locking (`RzCoreLocked`) and asynchronous tasks are left out. Everything here is sequential.
- Floating point is left out: the scaling of navigation-bar rectangles to pixels and the zoom of the graph views.
- Iteration order of Qt and STL hash maps is a parameter (`keys`, `blockIds`, `gridOrder`, `order`) wherever a loop result depends on it.
- BinaryTrees.BuildInnerNodes: an empty tree (size 0) makes the source's unsigned loop start at `SIZE_MAX` (`BuildStartEmptyTree`). The model's loop does nothing there.
- BinaryTrees and LazySegmentTrees: `size_t` overflow of `2 * size` is not modelled, because a vector cannot reach that size.
- LazySegmentTrees.RangeAssignMaxTree.SetRange skips the push-down and the climb from `left` when `left == 2 * size`, that is for the empty range at the end. The source does both and reads past the end of its vectors (see Findings).
- LazySegmentTrees.RangeAssignMaxTree.RangeOperation skips the push-down from `left` in the same case.
- LinkedListPool: an iterator's back pointer to its pool is left out. Every iterator belongs to the one pool at hand.
- CutterCore.DisassembleLines keeps each line's text as the raw token. The source passes every token through `ansiEscapeToHtml`, an HTML rendering of colour escapes, which is left out with the rest of the text styling.
- CutterCore.ClassesFromFlags caches positions in `ret`, which is sound for Qt 5's node-based `QList`, where `&ret.last()` stays valid. With Qt 6, whose `QList` is contiguous, `ret << cls` may reallocate and leave the cached pointers dangling. That undefined behaviour is not modelled. The older core's copy, `LegacyCutterCore.GetAllClassesFromFlags`, caches the same way.
- HexWidget.ReadItem does not model the float reinterpretation of 4- and 8-byte items. It reports no value for them.
- HexWidget.ItemWidthsFor requires an item size of 1, 2, 4 or 8. `setItemSize` refuses every other size, and for other sizes the claim does not hold.
- HexWidget: the bytes that `fetchHexdump` and `updateDataCache` read are the memory parameter `mem`. The row length and the visible line count are geometry fields.
- HexWidgetTypes.MemoryData.Fetch requires `address % 4096 + length + 4095 < 2^31`, which holds exactly when the rounded-up byte count fits in the source's `int len`. The rounding itself is done in `uint64_t`, because `blockSize` is unsigned, so it wraps rather than overflowing. Past the bound two things happen that the model does not follow. The `int` sum `offset + length` can overflow, which is undefined behaviour. The narrowing of the rounded count into `int len` is implementation-defined before C++20 and wraps from C++20 on. A negative `int length` is not modelled either, since the length is a `nat`.
- HexWidgetTypes.MemoryData.Copy requires a copy that passes the bounds test to span at most two blocks, because the source copies from blocks `blockId` and `blockId + 1` only. A longer copy reads past the end of block `blockId + 1` in the source and is not modelled.
- HexTextView.RefreshWindow requires the loaded lines times the columns to stay below 2^31. The source narrows the line count to `int lines` and computes `int bytes = cols * lines` in `fetchHexdump`. A range-dialog selection of about 2 GiB or more overflows that product, and this overflow is not modelled.
- HexTextView.HexTextView.Refresh carries the same bound as RefreshWindow, for the same `int` product in `fetchHexdump`.
- HexTextView.HexTextView.LoadAround carries the same bound as RefreshWindow, for the same `int` product in `fetchHexdump`.
- HexTextView.HexTextView.ScrollUp and HexTextView.HexTextView.ScrollDown state the new window only. The edits to the text documents are not modelled.
- HexTextView: the text edit's current line and scroll position are parameters.
- RichTextPainter: a transparent background colour in an HTML span is not modelled.
- VisualNavbar.NextPow2 is unbounded. The source's 32-bit shift is undefined from 2^31 on.
- VisualNavbar.Navbar.PaintEvent requires a width below 2^31.
- VisualNavbar: the double-precision x-to-address mapping and the mouse handlers are left out.
- LegacyCutterCore.GetBlockStatistics takes the parsed JSON answer as a parameter. Parsing is not modelled.
- NewFileDialog: file icons, size formatting and the `QSettings` store are left out. Existing files are a set of paths, and the settings lists are fields.
- NewFileDialog: `QDir::toNativeSeparators` is the identity.
- DecompilerWidget.DecompilerView.constructor starts the lowest and highest offsets in the code at the empty range (`RVA_MAX` and 0) that `decompilationFinished` uses. The source leaves both fields uninitialised until the first decompilation finishes.
- NewFileDialog.Dialog.constructor does not fill the I/O plugin list (`fillIOPluginsList`): the plugins come from the engine and only feed a combo box. The tab choice and the focus are left out with the rest of the widget plumbing.
- LegacyNewFileDialog.Dialog.constructor leaves out the I/O plugin list, the project list and the load button, which follows the project list's current item. The older dialog's projects come from the engine's `dir.projects`, which is not part of this model.
- SettingsUpgrade.Settings.MigratePre18: the legacy native-format settings are a second store. Deleting their file is not modelled beyond emptying that store.
- SettingsUpgrade.TextToInt skips only ASCII blanks. Other Unicode white space is not modelled.
- Common.Trim (`QString::trimmed`) strips only the ASCII blanks: space, tab, line feed, carriage return, vertical tab and form feed. Other Unicode white space is not modelled.
- SettingsUpgrade.ToBool reads a byte-array value as false and folds only ASCII letters to lower case.
- ConsoleWidget: input focus handling and the completer are left out.
- R2ui: only the basic-block store without sdb is modelled. The sdb branch is I/O to r2.
- SyntaxColor: the console is the returned token sequence. The palette is a parameter.
- SyntaxColor: the code is a string without NUL characters, so its length `|code|` is the source's `strlen(code->code)`. Code with an embedded NUL, which the source would cut short there, is not modelled.
- DecompilerWidget.DecompilerView.DecompilationFinished takes the warning's code and annotations as parameters, because `Decompiler::makeWarning` is not part of this model. The scroll positions it saves, the progress label, the decompiler combo box, the context menu's annotation and the cursor, program counter and breakpoint highlighting of the non-empty branch are widget state outside the model. The text is taken to be empty exactly when the code has no byte before its terminating NUL.
- DecompilerWidget.PositionForBest characterises only targets below `UT64_MAX` as "first candidate with the greatest offset". At `UT64_MAX` the sentinel collides with a real offset and only the candidate property is stated.
- DisassemblerGraphView: instruction text and its cropping are left out except for the number of lines it takes.
- LegacyGraphGridLayout.DfsAll and LegacyGraphGridLayout.LayoutState.TopoSort do not state that the entry block comes first in the order.
- LegacyGraphGridLayout, GraphGridLayout: graphs are required to be closed, with every edge target a block (`WellFormed`). The source's `blocks[edge]` would silently create missing entries.
- GraphGridLayout.CalculateLayout requires `WellFormed` and a graph not yet walked (`Unwalked`).
- LegacyGraphGridLayout, GraphGridLayout: `int` overflow of rows, columns and sizes is not modelled.
- LegacyGraphGridLayout, GraphGridLayout: edge routing geometry, pixel positions and the root placement step of `computeAllBlockPlacement` are not stated.
- LegacyDisassemblyWidget: the refresh deferrer is a boolean parameter.
- LegacyDisassemblyWidget: `updateCursorPosition`, `moveCursorRelative` and the correction loop that follows the first arrow levels are left out.
- LegacyDisassemblyWidget: the map order of the arrow levels is the parameter `keys`.
- RenderLines: the removal of additional lines moves down by layout lines. The model counts one line per block, so it assumes that no line wraps and that no line's HTML holds a line break.
- DisassemblyWidget: the fields of `Arrow` are inferred from their use, since `src/widgets/DisassemblyWidget.h` is not part of this model.
- DisassemblyWidget: `arrowsSize`, `maxLevelBeforeFlush` and the initial `lastBeginOffset` are parameters.
- DisassemblyWidget.SortBy models `std::sort` as a stable insertion sort by an integer key. `std::sort` is not stable, so the order of equal keys may differ.
- DisassemblyWidget: the level assignment (`MinMaxAccumulateTree`) and the drawing are left out. The deepest level reached, `maxLevel`, is a parameter.
- DisassemblyWidget.DisassemblyView.OnSeekChanged requires an entry to move to for undo and redo. The source moves the position without checking.
- DisassemblyWidget.DisassemblyView.ScrollInstructions requires a valid history index, as the source indexes the history vector.

## Findings

| source | as written | input that shows it | evidently intended | confidence | as-written member | corrected member |
|---|---|---|---|---|---|---|
| src/widgets/HexWidget.h:114-132 | `BufferData::copy`/`write` bail out unless `addr < size && size - addr < len` | size 1, addr 0, len 2 passes; len 1 is refused | accept exactly `addr < size && len <= size - addr` | high, not executed | HexWidgetTypes.BufferGuardInverted | HexWidgetTypes.BufferData.Copy |
| src/widgets/HexWidget.h:147-165 | `fetch` with length 0 takes the wrap-around branch | address 0x1000, length 0 gives last address UINT64_MAX and 2^52 - 1 blocks | adjust only a non-empty range that runs past UINT64_MAX | medium, not executed | HexWidgetTypes.FetchEmptyAsWrittenLoadsHugeRange | HexWidgetTypes.FetchPlanFor |
| src/widgets/HexWidget.h:193-201 | `writeToCache` returns when `prefix <= len` | cache at 0x1000, write 2 bytes at 0xFFF is dropped; 16 bytes at 0xF00 underflow the length | return when `prefix >= len` | high, not executed | HexWidgetTypes.WriteStartAsWrittenInverted | HexWidgetTypes.WriteStart |
| src/widgets/HexTextView.cpp:279-288 | the seek line is raised by comparing with the lines above the seek | seek RVA_MAX - 200, 16 columns, 10 buffer lines, 30 lines: the last loaded address wraps to 119 | compare with the lines below the seek so the window ends at or before RVA_MAX | medium, not executed | HexTextView.SeekLineAsWrittenWraps | HexTextView.SeekLine |
| src/widgets/HexTextView.cpp:757-767 | scrolling up shifts to address 0 but loads `first / cols` lines | first address 5, 16 columns: shift to 0 with no line loaded | shift by whole loaded lines only | medium, not executed | HexTextView.ScrollUpAsWrittenShiftsWithoutLines | HexTextView.ScrollUpShift |
| src/widgets/HexTextView.cpp:784-795 | scrolling down near RVA_MAX shifts by the remaining bytes but loads whole lines | last address RVA_MAX - 83, 16 columns: shift 83 bytes, 5 lines | shift by whole loaded lines only | medium, not executed | HexTextView.ScrollDownAsWrittenShiftsPastLines | HexTextView.ScrollDownShift |
| src/widgets/GraphGridLayout.cpp:71-97 | `best == 0` marks "nothing picked yet" | entry 5 with an edge to a block at address 0 that another block also enters: the edge is never reported | track "nothing picked" separately from the address | high, not executed | GraphGridLayout.ZeroTargetDropped | GraphGridLayout.FindBestEdge |
| src/widgets/VisualNavbar.cpp:172-190 | `setRect` is called only when a run is extended; a new item is created without a rect | one block with functions and nothing after it: its item has Qt's empty rect and is not visible | give a new item the rect of its first block | medium, not executed | VisualNavbar.OneBlockRunUndrawn | VisualNavbar.SceneStep |
| src/common/BinaryTrees.h:299-322 | `setRange` pushes down from leaf index `left` and climbs from it (and `rangeOperation`, lines 224-232, pushes down from it), even when `l == size` | `l == r == size`: `left` is `2 * size`, and the push at level 1 reads `promise[size]` past the vector's end | skip the left path when `left` is past the last node | medium, not executed | LazySegmentTrees.RangeAssignMaxTree.EmptyEndRangeLeavesTree | LazySegmentTrees.RangeAssignMaxTree.SetRange |
