/**
 * The older `CutterCore` of src/Cutter.cpp, which talks to radare2 through
 * command strings: the commands it builds and the way it reads the text and
 * JSON answers. The answers are parameters (already parsed where the source
 * parses JSON); what `cmd` prints is not modelled.
 */
module LegacyCutterCore {
  import opened Common
  import CutterCore

  // ----------------------------------------------------------------- cmdRaw

  /** `cmdStr.replace('"', "\\\"")`: every double quote gets a backslash before it. */
  function EscapeQuotes(s: string): (r: string)
    ensures |r| >= |s|
    ensures r == [] || r[0] != '"'
    decreases |s|
  {
    if s == [] then []
    else (if s[0] == '"' then ['\\', '"'] else [s[0]]) + EscapeQuotes(s[1..])
  }

  /** Reading an escaped text back: `\"` is a quote, any other character stands for itself. */
  function UnescapeQuotes(t: string): string
    decreases |t|
  {
    if t == [] then []
    else if |t| >= 2 && t[0] == '\\' && t[1] == '"' then ['"'] + UnescapeQuotes(t[2..])
    else [t[0]] + UnescapeQuotes(t[1..])
  }

  /** Escaping loses nothing: the quoted text reads back as the argument. */
  lemma {:induction false} EscapeRoundTrip(s: string)
    ensures UnescapeQuotes(EscapeQuotes(s)) == s
    decreases |s|
  {
    if s != [] {
      EscapeRoundTrip(s[1..]);
      var rest := EscapeQuotes(s[1..]);
      if s[0] == '"' {
        assert EscapeQuotes(s) == ['\\', '"'] + rest;
        assert EscapeQuotes(s)[2..] == rest;
      } else {
        assert EscapeQuotes(s) == [s[0]] + rest;
        assert EscapeQuotes(s)[1..] == rest;
      }
    }
  }

  /** Every quote in an escaped text follows a backslash, so none ends the quoted command. */
  lemma {:induction false} EscapedQuotesPreceded(s: string, i: int)
    requires 0 <= i < |EscapeQuotes(s)| && EscapeQuotes(s)[i] == '"'
    ensures i > 0 && EscapeQuotes(s)[i - 1] == '\\'
    decreases |s|
  {
    var rest := EscapeQuotes(s[1..]);
    var head := if s[0] == '"' then ['\\', '"'] else [s[0]];
    assert EscapeQuotes(s) == head + rest;
    if i >= |head| {
      EscapedQuotesPreceded(s[1..], i - |head|);
    }
  }

  /** `cmdRaw`: the command handed to `cmd`, the escaped argument in double quotes. */
  function CmdRaw(str: string): (command: string)
    ensures |command| >= 2 && command[0] == '"' && command[|command| - 1] == '"'
    ensures UnescapeQuotes(command[1..|command| - 1]) == str
  {
    var cmdStr := EscapeQuotes(str);
    EscapeRoundTrip(str);
    assert ("\"" + cmdStr + "\"")[1..|cmdStr| + 1] == cmdStr;
    "\"" + cmdStr + "\""
  }

  // ------------------------------------------------------- createFunctionAt

  /** The characters `[a-zA-Z0-9_]` the older name filter keeps: no dot, unlike the newer one. */
  predicate IsFunctionNameChar(c: char) {
    ('a' <= c <= 'z') || ('A' <= c <= 'Z') || ('0' <= c <= '9') || c == '_'
  }

  /** `createFunctionAt`: the `af` command for the filtered name at the address. */
  function CreateFunctionCommand(addr: u64, name: string): (command: string)
  {
    "af" + " " + Filter(name, IsFunctionNameChar) + " " + RAddressString(addr)
  }

  /** The command has exactly three words: `af`, the name with only allowed characters, and the address. */
  lemma {:induction false} CreateFunctionCommandSpec(addr: u64, name: string, c: char)
    ensures var words := Split(CreateFunctionCommand(addr, name), ' ');
      |words| == 3 && words[0] == "af" && words[2] == RAddressString(addr) &&
      (c in words[1] <==> c in name && IsFunctionNameChar(c))
  {
    var n := Filter(name, IsFunctionNameChar);
    FilterMembership(name, IsFunctionNameChar, ' ');
    FilterMembership(name, IsFunctionNameChar, c);
    RAddressNoSpace(addr);
    ThreeWords("af", n, RAddressString(addr));
  }

  /** Three words without spaces, joined by single spaces, split back into those words. */
  lemma {:induction false} ThreeWords(x: string, y: string, z: string)
    requires ' ' !in x && ' ' !in y && ' ' !in z
    ensures Split(x + " " + y + " " + z, ' ') == [x, y, z]
  {
    assert x + " " + y + " " + z == x + [' '] + (y + [' '] + z);
    SplitConcat(x, ' ', y + [' '] + z);
    SplitConcat(y, ' ', z);
  }

  /** An address text is `0x` and hex digits, or ten zeros: no space in it. */
  lemma {:induction false} RAddressNoSpace(a: u64)
    ensures ' ' !in RAddressString(a)
  {
    RAddressStringSpec(a);
    var s := RAddressString(a);
    if a != 0 {
      assert s == s[..2] + s[2..];
      assert ' ' !in s[2..] by {
        forall i | 0 <= i < |s[2..]|
          ensures s[2..][i] != ' '
        {
          assert IsHexDigit(s[2..][i]);
        }
      }
    }
  }

  // ----------------------------------------------------- getBlockStatistics

  /** The fields of one `p-j` block object: `None` for a missing field. */
  datatype BlockObject = BlockObject(
    offset: Option<u64>, size: Option<u64>, flags: Option<i32>, functions: Option<i32>, inFunctions: Option<i32>,
    comments: Option<i32>, symbols: Option<i32>, strings: Option<i32>, rwx: Option<string>)

  datatype StatsObject = StatsObject(from: Option<u64>, to: Option<u64>, blocksize: Option<u64>, blocks: seq<BlockObject>)

  datatype BlockDescription = BlockDescription(
    addr: u64, size: u64, flags: i32, functions: i32, inFunctions: i32, comments: i32, symbols: i32, strings: i32, rwx: bv8)

  datatype BlockStatistics = BlockStatistics(from: u64, to: u64, blocksize: u64, blocks: seq<BlockDescription>)

  /** `toVariant().toULongLong()` and `toInt(0)`: a missing value reads as zero. */
  function OrZero<T>(v: Option<T>, zero: T): T
  {
    if v.Some? then v.value else zero
  }

  /** Bit 0, 1 and 2 of `rwx` say whether a three-letter permission text has `r`, `w` and `x` in place. */
  predicate RwxBits(rwx: bv8, s: string)
  {
    ((rwx & 1 != 0) <==> |s| == 3 && s[0] == 'r') &&
    ((rwx & 2 != 0) <==> |s| == 3 && s[1] == 'w') &&
    ((rwx & 4 != 0) <==> |s| == 3 && s[2] == 'x') &&
    rwx & 0xF8 == 0
  }

  /** The `rwx` bit mask of one block, built with `|=`. */
  method BlockRwx(rwxStr: string) returns (rwx: bv8)
    ensures RwxBits(rwx, rwxStr)
  {
    rwx := 0;
    if |rwxStr| == 3 {
      if rwxStr[0] == 'r' {
        rwx := rwx | 1;
      }
      if rwxStr[1] == 'w' {
        rwx := rwx | 2;
      }
      if rwxStr[2] == 'x' {
        rwx := rwx | 4;
      }
    }
  }

  /** The block description of one JSON block; its `rwx` bits are not part of this function. */
  function BlockFields(o: BlockObject, rwx: bv8): BlockDescription
  {
    BlockDescription(OrZero(o.offset, 0), OrZero(o.size, 0), OrZero(o.flags, 0), OrZero(o.functions, 0),
                     OrZero(o.inFunctions, 0), OrZero(o.comments, 0), OrZero(o.symbols, 0), OrZero(o.strings, 0), rwx)
  }

  /** `getBlockStatistics` with the parsed answer to `p-j`, which is only asked for when blocks are wanted. */
  method GetBlockStatistics(blocksCount: nat, stats: StatsObject) returns (ret: BlockStatistics)
    ensures blocksCount == 0 ==> ret == BlockStatistics(0, 0, 0, [])
    ensures blocksCount != 0 ==>
      ret.from == OrZero(stats.from, 0) && ret.to == OrZero(stats.to, 0) && ret.blocksize == OrZero(stats.blocksize, 0) &&
      |ret.blocks| == |stats.blocks| &&
      forall i :: 0 <= i < |ret.blocks| ==>
        ret.blocks[i] == BlockFields(stats.blocks[i], ret.blocks[i].rwx) &&
        RwxBits(ret.blocks[i].rwx, OrZero(stats.blocks[i].rwx, ""))
  {
    if blocksCount == 0 {
      return BlockStatistics(0, 0, 0, []);
    }
    var blocks: seq<BlockDescription> := [];
    var k := 0;
    while k < |stats.blocks|
      invariant 0 <= k <= |stats.blocks| && |blocks| == k
      invariant forall i :: 0 <= i < k ==>
        blocks[i] == BlockFields(stats.blocks[i], blocks[i].rwx) && RwxBits(blocks[i].rwx, OrZero(stats.blocks[i].rwx, ""))
    {
      var o := stats.blocks[k];
      var rwx := BlockRwx(OrZero(o.rwx, ""));
      blocks := blocks + [BlockFields(o, rwx)];
      k := k + 1;
    }
    ret := BlockStatistics(OrZero(stats.from, 0), OrZero(stats.to, 0), OrZero(stats.blocksize, 0), blocks);
  }

  /** The permission bits determine the text's `r`, `w` and `x` marks and nothing else. */
  lemma {:induction false} RwxBitsUnique(a: bv8, b: bv8, s: string)
    requires RwxBits(a, s) && RwxBits(b, s)
    ensures a == b
  {
    assert a == (a & 1) | (a & 2) | (a & 4) | (a & 0xF8);
    assert b == (b & 1) | (b & 2) | (b & 4) | (b & 0xF8);
    assert a & 1 == b & 1 && a & 2 == b & 2 && a & 4 == b & 4;
  }

  // ----------------------------------------------------- isProjectNameValid

  /** The characters of `[a-zA-Z0-9\\\._:-]`: letters, digits, backslash, dot, underscore, colon and dash. */
  predicate IsProjectNameChar(c: char) {
    ('a' <= c <= 'z') || ('A' <= c <= 'Z') || ('0' <= c <= '9') || c == '\\' || c == '.' || c == '_' || c == ':' || c == '-'
  }

  /** The whole name matches `[...]{1,}`: a run of one or more allowed characters. */
  function MatchesProjectPattern(name: string): (ok: bool)
    ensures ok <==> |name| >= 1 && forall i :: 0 <= i < |name| ==> IsProjectNameChar(name[i])
    decreases |name|
  {
    if |name| == 1 then IsProjectNameChar(name[0])
    else |name| > 1 && IsProjectNameChar(name[0]) && MatchesProjectPattern(name[1..])
  }

  /** `isProjectNameValid`: the pattern matches and the name does not end in `.zip`. */
  function IsProjectNameValid(name: string): (ok: bool)
    ensures ok <==> |name| >= 1 && (forall i :: 0 <= i < |name| ==> IsProjectNameChar(name[i])) && !EndsWith(name, ".zip")
  {
    MatchesProjectPattern(name) && !EndsWith(name, ".zip")
  }

  /** A valid project name has no path separator `/`, no space and no command separator. */
  lemma {:induction false} ValidProjectNameIsPlain(name: string)
    requires IsProjectNameValid(name)
    ensures '/' !in name && ' ' !in name && ';' !in name && '@' !in name
    ensures CutterCore.SanitizeStringForCommand(name) == name
  {
    var r := CutterCore.SanitizeStringForCommand(name);
    forall i | 0 <= i < |name|
      ensures r[i] == name[i]
    {
      assert IsProjectNameChar(name[i]);
    }
  }

  // ------------------------------------------------------ get_exec_sections

  /** The fields 2, 3 and 5 of a line of seven space-separated fields whose seventh contains `x`. */
  function ExecSection(line: string): Option<seq<string>>
  {
    var fields := Split(line, ' ');
    if |fields| == 7 && 'x' in fields[6] then Some([fields[2], fields[3], fields[5]]) else None
  }

  /** A line of seven space-separated fields whose seventh contains `x`, and its fields 2, 3 and 5. */
  predicate IsExecSectionLine(line: string, e: seq<string>)
  {
    var f := Split(line, ' ');
    |f| == 7 && 'x' in f[6] && e == [f[2], f[3], f[5]]
  }

  /** An entry of the result is the three fields of some executable section line, and every such line gives one. */
  lemma {:induction false} ExecSectionsSpec(lines: seq<string>, e: seq<string>)
    ensures e in FilterMap(lines, ExecSection) <==> exists i :: 0 <= i < |lines| && IsExecSectionLine(lines[i], e)
  {
    FilterMapMembership(lines, ExecSection, e);
    assert forall i :: 0 <= i < |lines| ==> (ExecSection(lines[i]) == Some(e) <==> IsExecSectionLine(lines[i], e));
  }

  /** `get_exec_sections` over the text `S*~^S` printed. */
  method GetExecSections(text: string) returns (ret: seq<seq<string>>)
    ensures ret == FilterMap(Split(text, '\n'), ExecSection)
  {
    var lines := Split(text, '\n');
    ret := [];
    var k := 0;
    while k < |lines|
      invariant 0 <= k <= |lines|
      invariant ret == FilterMap(lines[..k], ExecSection)
    {
      var fields := Split(lines[k], ' ');
      if |fields| == 7 {
        if 'x' in fields[6] {
          ret := ret + [[fields[2], fields[3], fields[5]]];
        }
      }
      assert lines[..k + 1][..k] == lines[..k];
      k := k + 1;
    }
    assert lines[..k] == lines;
  }

  // ---------------------------------------------------------------- getXRefs

  /** One object of the `axtj` or `axfj` answer: `None` for a missing field. */
  datatype XrefObject = XrefObject(xrefType: string, from: Option<u64>, to: Option<u64>)

  /** `XrefDescription` without the flag names `fd` prints. */
  datatype XrefDescription = XrefDescription(from: u64, to: u64, xrefType: string)

  /** What the loop makes of one reference: skipped, or the description appended. */
  function Xref(addr: u64, to: bool, wholeFunction: bool, filterType: Option<string>, o: XrefObject): (r: Option<XrefDescription>)
    ensures r.Some? ==> r.value.xrefType == o.xrefType && r.value.from == OrZero(o.from, 0)
    ensures r.Some? <==> (filterType.None? || filterType.value == o.xrefType) && (wholeFunction || to || OrZero(o.from, 0) == addr)
    ensures r.Some? && to && o.to.None? ==> r.value.to == addr
    ensures r.Some? && !(to && o.to.None?) ==> r.value.to == OrZero(o.to, 0)
  {
    if filterType.Some? && filterType.value != o.xrefType then None
    else
      var from := OrZero(o.from, 0);
      if !wholeFunction && !to && from != addr then None
      else Some(XrefDescription(from, if to && o.to.None? then addr else OrZero(o.to, 0), o.xrefType))
  }

  /** `getXRefs` over the parsed answer; `filterType` is `None` for the null string. */
  method GetXRefs(addr: u64, to: bool, wholeFunction: bool, filterType: Option<string>, xrefsArray: seq<XrefObject>)
    returns (ret: seq<XrefDescription>)
    ensures ret == FilterMap(xrefsArray, o => Xref(addr, to, wholeFunction, filterType, o))
  {
    ret := [];
    var k := 0;
    while k < |xrefsArray|
      invariant 0 <= k <= |xrefsArray|
      invariant ret == FilterMap(xrefsArray[..k], o => Xref(addr, to, wholeFunction, filterType, o))
    {
      assert xrefsArray[..k + 1][..k] == xrefsArray[..k];
      var o := xrefsArray[k];
      k := k + 1;
      if filterType.Some? && filterType.value != o.xrefType {
        continue;
      }
      var from := OrZero(o.from, 0);
      if !wholeFunction && !to && from != addr {
        continue;
      }
      var xto := if to && o.to.None? then addr else OrZero(o.to, 0);
      ret := ret + [XrefDescription(from, xto, o.xrefType)];
    }
    assert xrefsArray[..k] == xrefsArray;
  }

  /**
   * Every reference kept comes from an object of the answer, passes the
   * type filter and, for the outgoing references of one instruction,
   * starts at `addr`.
   */
  lemma {:induction false} XrefsSpec(addr: u64, to: bool, wholeFunction: bool, filterType: Option<string>, objs: seq<XrefObject>,
                                     x: XrefDescription)
    requires x in FilterMap(objs, o => Xref(addr, to, wholeFunction, filterType, o))
    ensures exists i :: 0 <= i < |objs| && x.xrefType == objs[i].xrefType && x.from == OrZero(objs[i].from, 0)
    ensures filterType.Some? ==> x.xrefType == filterType.value
    ensures !wholeFunction && !to ==> x.from == addr
  {
    FilterMapMembership(objs, o => Xref(addr, to, wholeFunction, filterType, o), x);
    var i :| 0 <= i < |objs| && Xref(addr, to, wholeFunction, filterType, objs[i]) == Some(x);
  }

  // ------------------------------------------------- getAllClassesFromFlags

  /** `getAllClassesFromFlags` over the parsed `fj@F:classes` answer: here a stub class sits at address 0. */
  method GetAllClassesFromFlags(flags: seq<CutterCore.Flag>) returns (ret: seq<CutterCore.ClassDescription>)
    ensures ret == CutterCore.Collect(flags, 0).classes
  {
    ret := CutterCore.ClassesFromFlags(flags, 0);
  }
}
