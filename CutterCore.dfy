/**
 * The string transforms and list builders of `CutterCore` in
 * src/core/Cutter.cpp that do not depend on the engine's behaviour: the
 * flags, disassembly texts and decompiler ids it reads from Rizin are
 * parameters, and the Rizin calls it makes are returned as data.
 */
module CutterCore {
  import opened Common

  // ------------------------------------------------ sanitizeStringForCommand

  /** The characters the command sanitiser replaces: r2 command separators. */
  predicate IsCommandSeparator(c: char) {
    c == ';' || c == '@'
  }

  /** `sanitizeStringForCommand`: every `;` and `@` becomes `_`. */
  function SanitizeStringForCommand(s: string): (r: string)
    ensures |r| == |s|
    ensures forall i :: 0 <= i < |s| ==> (r[i] == if IsCommandSeparator(s[i]) then '_' else s[i])
    decreases |s|
  {
    if s == [] then []
    else SanitizeStringForCommand(s[..|s| - 1]) + [if IsCommandSeparator(s[|s| - 1]) then '_' else s[|s| - 1]]
  }

  /** No separator survives, so sanitising twice changes nothing. */
  lemma {:induction false} SanitizeIdempotent(s: string)
    ensures forall i :: 0 <= i < |s| ==> !IsCommandSeparator(SanitizeStringForCommand(s)[i])
    ensures SanitizeStringForCommand(SanitizeStringForCommand(s)) == SanitizeStringForCommand(s)
  {
    var r := SanitizeStringForCommand(s);
    var rr := SanitizeStringForCommand(r);
    assert |rr| == |r|;
    forall i | 0 <= i < |r|
      ensures rr[i] == r[i]
    {
      assert !IsCommandSeparator(r[i]);
    }
  }

  // ------------------------------------------------------- createFunctionAt

  /** The characters `[a-zA-Z0-9_.]` a function name may keep. */
  predicate IsFunctionNameChar(c: char) {
    ('a' <= c <= 'z') || ('A' <= c <= 'Z') || ('0' <= c <= '9') || c == '_' || c == '.'
  }

  /** The name `createFunctionAt` hands to `rz_core_analysis_function_add`. */
  function FunctionName(name: string): (r: string)
    ensures |r| <= |name|
  {
    if name == [] then name else Filter(name, IsFunctionNameChar)
  }

  /** A character is in the new name iff it is in the given one and allowed, and an allowed name is kept. */
  lemma {:induction false} FunctionNameSpec(name: string, c: char)
    ensures c in FunctionName(name) <==> c in name && IsFunctionNameChar(c)
    ensures (forall i :: 0 <= i < |name| ==> IsFunctionNameChar(name[i])) ==> FunctionName(name) == name
  {
    if name != [] {
      FilterMembership(name, IsFunctionNameChar, c);
      if forall i :: 0 <= i < |name| ==> IsFunctionNameChar(name[i]) {
        FilterAll(name, IsFunctionNameChar);
      }
    }
  }

  /** The `rz_core_analysis_function_add` call `createFunctionAt` makes. */
  datatype FunctionAdd = FunctionAdd(name: string, addr: u64, recursive: bool)

  /** `createFunctionAt` with the configuration value `analysis.calls`. */
  method CreateFunctionAt(addr: u64, name: string, analysisCalls: int) returns (call: FunctionAdd)
    ensures call.addr == addr && (call.recursive <==> analysisCalls != 0)
    ensures forall c :: c in call.name <==> c in name && IsFunctionNameChar(c)
    ensures |call.name| <= |name|
    ensures call.name == FunctionName(name)
  {
    var n := name;
    if n != [] {
      n := Filter(n, IsFunctionNameChar);
    }
    forall c | true
      ensures c in n <==> c in name && IsFunctionNameChar(c)
    {
      FunctionNameSpec(name, c);
    }
    call := FunctionAdd(n, addr, analysisCalls != 0);
  }

  // -------------------------------------------------------------- setToData

  /**
   * `setToData`: sizes and counts that are not positive do nothing;
   * otherwise `repeat` data items of `size` bytes are marked, the i-th at
   * `addr + i * size` in 64-bit arithmetic, and the change is announced
   * for `addr`. `marked` lists the addresses passed to `rz_meta_set`.
   */
  method SetToData(addr: u64, size: i32, repeat: i32) returns (marked: seq<u64>, announced: Option<u64>)
    ensures size <= 0 || repeat <= 0 ==> marked == [] && announced == None
    ensures size > 0 && repeat > 0 ==>
      |marked| == repeat as int && announced == Some(addr) &&
      forall i :: 0 <= i < repeat as int ==> marked[i] == Wrap64(addr + i * size)
  {
    marked, announced := [], None;
    if size <= 0 || repeat <= 0 {
      return;
    }
    var address: u64 := addr;
    var i := 0;
    while i < repeat as int
      invariant 0 <= i <= repeat as int
      invariant address == Wrap64(addr + i * size)
      invariant |marked| == i && forall k :: 0 <= k < i ==> marked[k] == Wrap64(addr + k * size)
    {
      marked := marked + [address];
      WrapStep(addr, i * size, size);
      MulSucc(i, size);
      address := Wrap64(address + size);
      i := i + 1;
    }
    announced := Some(addr);
  }

  // ----------------------------------------------------- registerDecompiler

  /** The decompilers `CutterCore` knows, by id, in registration order. */
  class DecompilerRegistry {
    var decompilers: seq<string>

    /** No id is registered twice. */
    ghost predicate Valid()
      reads this
    {
      Distinct(decompilers)
    }

    constructor ()
      ensures Valid() && decompilers == []
    {
      decompilers := [];
    }

    /** `getDecompilerById`: the position of the first decompiler with that id, or none. */
    method GetDecompilerById(id: string) returns (r: Option<nat>)
      ensures r == None <==> id !in decompilers
      ensures r.Some? ==> r.value < |decompilers| && decompilers[r.value] == id && id !in decompilers[..r.value]
    {
      var i := 0;
      while i < |decompilers|
        invariant 0 <= i <= |decompilers|
        invariant id !in decompilers[..i]
      {
        if decompilers[i] == id {
          return Some(i);
        }
        assert decompilers[..i + 1] == decompilers[..i] + [decompilers[i]];
        i := i + 1;
      }
      assert decompilers[..i] == decompilers;
      return None;
    }

    /** `registerDecompiler`: an id already present is refused, any other is appended. */
    method RegisterDecompiler(id: string) returns (ok: bool)
      modifies this
      ensures ok <==> id !in old(decompilers)
      ensures decompilers == if ok then old(decompilers) + [id] else old(decompilers)
      ensures old(Valid()) ==> Valid()
    {
      var found := GetDecompilerById(id);
      if found.Some? {
        return false;
      }
      decompilers := decompilers + [id];
      return true;
    }
  }

  // --------------------------------------------------------------- appendVar

  /** `appendVar`: the new `dst` and the returned value. */
  function AppendVar(dst: string, val: string, prependVal: string, appendVal: string): (r: (string, string))
    ensures r.1 == val
    ensures |dst| <= |r.0| && r.0[..|dst|] == dst
    ensures val == [] <==> r.0 == dst
    ensures val != [] ==> r.0[|dst|..] == prependVal + val + appendVal
  {
    if val != [] then (dst + prependVal + val + appendVal, val) else (dst, val)
  }

  // ------------------------------------------------- getAllClassesFromFlags

  datatype Flag = Flag(name: string, offset: u64)

  datatype MethodDescription = MethodDescription(name: string, addr: u64)

  /** The part of `BinClassDescription` this function fills. */
  datatype ClassDescription = ClassDescription(name: string, addr: u64, methods: seq<MethodDescription>)

  /** What the two regular expressions make of a flag name. */
  datatype FlagKind = ClassFlag(className: string) | MethodFlag(className: string, methodName: string) | OtherFlag

  /** `^class\.(.*)$`, then `^method\.([^\.]*)\.(.*)$`. */
  function ParseFlag(name: string): (k: FlagKind)
    ensures k.ClassFlag? <==> StartsWith(name, "class.")
    ensures k.ClassFlag? ==> name == "class." + k.className
    ensures k.MethodFlag? ==> name == "method." + k.className + "." + k.methodName && '.' !in k.className
    ensures k.OtherFlag? <==> !StartsWith(name, "class.") && !(StartsWith(name, "method.") && '.' in name[7..])
  {
    if StartsWith(name, "class.") then ClassFlag(name[6..])
    else if StartsWith(name, "method.") && '.' in name[7..] then
      var rest := name[7..];
      var i := IndexOf(rest, '.');
      assert name == "method." + rest[..i] + "." + rest[i + 1..];
      MethodFlag(rest[..i], rest[i + 1..])
    else OtherFlag
  }

  /** Each flag name the recognisers accept is read back to its parts. */
  lemma {:induction false} ParseFlagRoundTrip(c: string, m: string)
    ensures ParseFlag("class." + c) == ClassFlag(c)
    ensures '.' !in c ==> ParseFlag("method." + c + "." + m) == MethodFlag(c, m)
  {
    var s := "class." + c;
    assert s[..6] == "class.";
    if '.' !in c {
      var t := "method." + c + "." + m;
      assert t[..7] == "method." && t[0] == 'm';
      assert t[7..] == c + "." + m;
      assert (c + "." + m)[|c|] == '.';
      var k := ParseFlag(t);
      assert !k.ClassFlag?;
      assert k.MethodFlag?;
      MethodFlagParts(c, m, k.className, k.methodName);
    }
  }

  /** A method flag name determines its class and method names. */
  lemma {:induction false} MethodFlagParts(c: string, m: string, c1: string, m1: string)
    requires '.' !in c && '.' !in c1
    requires "method." + c + "." + m == "method." + c1 + "." + m1
    ensures c == c1 && m == m1
  {
    var t := "method." + c + "." + m;
    var u := c + "." + m;
    assert t[7..] == u == c1 + "." + m1;
    IndexOfConcat(c, '.', m);
    IndexOfConcat(c1, '.', m1);
    assert c == u[..|c|] && c1 == u[..|c1|];
    assert m == u[|c| + 1..] && m1 == u[|c1| + 1..];
  }

  /** The class a flag belongs to, if it is a class or method flag. */
  function ClassOf(f: Flag): Option<string>
  {
    match ParseFlag(f.name)
    case ClassFlag(c) => Some(c)
    case MethodFlag(c, _) => Some(c)
    case OtherFlag => None
  }

  /** The name a class gets before its `class.` flag is seen. */
  function StubName(c: string): string
  {
    "Unknown (" + c + ")"
  }

  /** The entry a class has before any of its flags is applied: the stub of a method flag seen first. */
  function Stub(c: string, stubAddr: u64): ClassDescription
  {
    ClassDescription(StubName(c), stubAddr, [])
  }

  /** What a flag does to the entry of class `c`: a class flag names and places it, a method flag adds a method. */
  function Apply(e: ClassDescription, f: Flag, c: string): ClassDescription
  {
    match ParseFlag(f.name)
    case ClassFlag(d) => if d == c then e.(name := c, addr := f.offset) else e
    case MethodFlag(d, m) => if d == c then e.(methods := e.methods + [MethodDescription(m, f.offset)]) else e
    case OtherFlag => e
  }

  /** The result list and, for each entry, the class name it is cached under. */
  datatype Collected = Collected(classes: seq<ClassDescription>, keys: seq<string>)

  /** One pass of the loop: the class entry is found through the cache or appended, then updated. */
  function CollectStep(s: Collected, f: Flag, stubAddr: u64): (r: Collected)
    requires |s.keys| == |s.classes| && Distinct(s.keys)
    ensures |r.keys| == |r.classes| && Distinct(r.keys)
    ensures s.keys <= r.keys && |r.keys| <= |s.keys| + 1
  {
    match ClassOf(f)
    case Some(c) =>
      if c in s.keys then
        var i := IndexOf(s.keys, c);
        Collected(s.classes[i := Apply(s.classes[i], f, c)], s.keys)
      else Collected(s.classes + [Apply(Stub(c, stubAddr), f, c)], s.keys + [c])
    case None => s
  }

  function Collect(flags: seq<Flag>, stubAddr: u64): (r: Collected)
    ensures |r.keys| == |r.classes| && Distinct(r.keys)
    decreases |flags|
  {
    if flags == [] then Collected([], [])
    else CollectStep(Collect(flags[..|flags| - 1], stubAddr), flags[|flags| - 1], stubAddr)
  }

  // The reference definition: what the entry of one class holds.

  /** The offset of the last `class.c` flag. */
  function ClassFlagOffset(flags: seq<Flag>, c: string): Option<u64>
    decreases |flags|
  {
    if flags == [] then None
    else if ParseFlag(flags[|flags| - 1].name) == ClassFlag(c) then Some(flags[|flags| - 1].offset)
    else ClassFlagOffset(flags[..|flags| - 1], c)
  }

  /** The `method.c.*` flags, in flag order. */
  function MethodsOf(flags: seq<Flag>, c: string): seq<MethodDescription>
    decreases |flags|
  {
    if flags == [] then []
    else
      var f := flags[|flags| - 1];
      var k := ParseFlag(f.name);
      MethodsOf(flags[..|flags| - 1], c) + (if k.MethodFlag? && k.className == c then [MethodDescription(k.methodName, f.offset)] else [])
  }

  /** Class `c`: named and placed by its last class flag, or a stub at `stubAddr`, with all its methods. */
  function ExpectedClass(flags: seq<Flag>, c: string, stubAddr: u64): ClassDescription
  {
    match ClassFlagOffset(flags, c)
    case Some(off) => ClassDescription(c, off, MethodsOf(flags, c))
    case None => ClassDescription(StubName(c), stubAddr, MethodsOf(flags, c))
  }

  /** The reference entry after one more flag is that flag applied to the reference entry before it. */
  lemma {:induction false} ExpectedStep(flags: seq<Flag>, c: string, stubAddr: u64)
    requires flags != []
    ensures ExpectedClass(flags, c, stubAddr) == Apply(ExpectedClass(flags[..|flags| - 1], c, stubAddr), flags[|flags| - 1], c)
  {
  }

  /** Some flag belongs to class `c`. */
  predicate Mentions(flags: seq<Flag>, c: string)
  {
    exists i :: 0 <= i < |flags| && ClassOf(flags[i]) == Some(c)
  }

  /** A class no flag mentions has neither a class flag nor methods. */
  lemma {:induction false} NotMentioned(flags: seq<Flag>, c: string, stubAddr: u64)
    requires !Mentions(flags, c)
    ensures ExpectedClass(flags, c, stubAddr) == Stub(c, stubAddr)
    decreases |flags|
  {
    if flags != [] {
      var init := flags[..|flags| - 1];
      assert !Mentions(init, c) by {
        forall i | 0 <= i < |init|
          ensures ClassOf(init[i]) != Some(c)
        {
          assert init[i] == flags[i];
        }
      }
      NotMentioned(init, c, stubAddr);
      assert ClassOf(flags[|flags| - 1]) != Some(c);
      ExpectedStep(flags, c, stubAddr);
    }
  }

  /** The result has an entry for exactly the classes the flags mention. */
  lemma {:induction false} CollectKeys(flags: seq<Flag>, c: string, stubAddr: u64)
    ensures c in Collect(flags, stubAddr).keys <==> Mentions(flags, c)
    decreases |flags|
  {
    if flags != [] {
      var init := flags[..|flags| - 1];
      var f := flags[|flags| - 1];
      CollectKeys(init, c, stubAddr);
      if Mentions(init, c) {
        var i :| 0 <= i < |init| && ClassOf(init[i]) == Some(c);
        assert flags[i] == init[i];
      }
      if Mentions(flags, c) && !Mentions(init, c) {
        assert ClassOf(f) == Some(c);
      }
    }
  }

  /** A class already cached keeps its position, and its entry takes the flag. */
  lemma {:induction false} StepOld(s: Collected, f: Flag, c: string, stubAddr: u64)
    requires |s.keys| == |s.classes| && Distinct(s.keys) && c in s.keys
    ensures var r, i := CollectStep(s, f, stubAddr), IndexOf(s.keys, c);
      IndexOf(r.keys, c) == i && r.classes[i] == Apply(s.classes[i], f, c)
  {
    var r, i := CollectStep(s, f, stubAddr), IndexOf(s.keys, c);
    assert r.keys[i] == c;
    IndexOfDistinct(r.keys, i);
  }

  /** A class not yet cached gets the new last entry: the flag applied to the stub. */
  lemma {:induction false} StepNew(s: Collected, f: Flag, c: string, stubAddr: u64)
    requires |s.keys| == |s.classes| && Distinct(s.keys) && c !in s.keys && ClassOf(f) == Some(c)
    ensures var r := CollectStep(s, f, stubAddr);
      IndexOf(r.keys, c) == |s.keys| && r.classes[|s.keys|] == Apply(Stub(c, stubAddr), f, c)
  {
    var r := CollectStep(s, f, stubAddr);
    assert r.keys[|s.keys|] == c;
    IndexOfDistinct(r.keys, |s.keys|);
  }

  /** The entry cached under a mentioned class is the reference entry of that class. */
  lemma {:induction false} CollectSpec(flags: seq<Flag>, c: string, stubAddr: u64)
    requires c in Collect(flags, stubAddr).keys
    ensures Collect(flags, stubAddr).classes[IndexOf(Collect(flags, stubAddr).keys, c)] == ExpectedClass(flags, c, stubAddr)
    decreases |flags|
  {
    var init := flags[..|flags| - 1];
    var f := flags[|flags| - 1];
    var s := Collect(init, stubAddr);
    ExpectedStep(flags, c, stubAddr);
    if c in s.keys {
      CollectSpec(init, c, stubAddr);
      StepOld(s, f, c, stubAddr);
    } else {
      CollectKeys(init, c, stubAddr);
      NotMentioned(init, c, stubAddr);
      StepNew(s, f, c, stubAddr);
    }
  }

  /** `getAllClassesFromFlags` over the flags of the `classes` space: stubs sit at `RVA_INVALID`. */
  method GetAllClassesFromFlags(flags: seq<Flag>) returns (ret: seq<ClassDescription>)
    ensures ret == Collect(flags, RVA_INVALID).classes
  {
    ret := ClassesFromFlags(flags, RVA_INVALID);
  }

  /**
   * The loop of `getAllClassesFromFlags`, with the address a stub entry
   * gets: the cache maps a class name to the position of its entry in `ret`.
   */
  method ClassesFromFlags(flags: seq<Flag>, stubAddr: u64) returns (ret: seq<ClassDescription>)
    ensures ret == Collect(flags, stubAddr).classes
  {
    ret := [];
    var classesCache: map<string, nat> := map[];
    ghost var keys: seq<string> := [];
    var k := 0;
    while k < |flags|
      invariant 0 <= k <= |flags|
      invariant Collect(flags[..k], stubAddr) == Collected(ret, keys)
      invariant forall c :: c in classesCache <==> c in keys
      invariant forall c :: c in classesCache ==> classesCache[c] < |keys| && keys[classesCache[c]] == c
    {
      assert flags[..k + 1][..k] == flags[..k];
      ret, classesCache, keys := AddFlag(ret, classesCache, keys, flags[k], stubAddr);
      k := k + 1;
    }
    assert flags[..k] == flags;
  }

  /** One iteration of the loop over the flags. */
  method AddFlag(ret: seq<ClassDescription>, cache: map<string, nat>, ghost keys: seq<string>, item: Flag, stubAddr: u64)
    returns (ret': seq<ClassDescription>, cache': map<string, nat>, ghost keys': seq<string>)
    requires |keys| == |ret| && Distinct(keys)
    requires forall c :: c in cache <==> c in keys
    requires forall c :: c in cache ==> cache[c] < |keys| && keys[cache[c]] == c
    ensures Collected(ret', keys') == CollectStep(Collected(ret, keys), item, stubAddr)
    ensures forall c :: c in cache' <==> c in keys'
    ensures forall c :: c in cache' ==> cache'[c] < |keys'| && keys'[cache'[c]] == c
  {
    ret', cache', keys' := ret, cache, keys;
    var kind := ParseFlag(item.name);
    if kind.ClassFlag? {
      ret', cache', keys' := AddClassFlag(ret, cache, keys, item, kind.className, stubAddr);
    } else if kind.MethodFlag? {
      ret', cache', keys' := AddMethodFlag(ret, cache, keys, item, kind.className, kind.methodName, stubAddr);
    }
  }

  /** A `class.` flag: its entry, found or created empty, takes the class name and the flag offset. */
  method AddClassFlag(ret: seq<ClassDescription>, cache: map<string, nat>, ghost keys: seq<string>, item: Flag, className: string, stubAddr: u64)
    returns (ret': seq<ClassDescription>, cache': map<string, nat>, ghost keys': seq<string>)
    requires |keys| == |ret| && Distinct(keys)
    requires forall c :: c in cache <==> c in keys
    requires forall c :: c in cache ==> cache[c] < |keys| && keys[cache[c]] == c
    requires ParseFlag(item.name) == ClassFlag(className)
    ensures Collected(ret', keys') == CollectStep(Collected(ret, keys), item, stubAddr)
    ensures forall c :: c in cache' <==> c in keys'
    ensures forall c :: c in cache' ==> cache'[c] < |keys'| && keys'[cache'[c]] == c
  {
    assert ClassOf(item) == Some(className);
    var desc: nat;
    if className !in cache {
      ret' := ret + [ClassDescription("", RVA_INVALID, [])];
      desc := |ret|;
      cache' := cache[className := desc];
      keys' := keys + [className];
    } else {
      ret', cache', keys' := ret, cache, keys;
      desc := cache[className];
      IndexOfDistinct(keys, desc);
    }
    ret' := ret'[desc := ret'[desc].(name := className, addr := item.offset)];
  }

  /** A `method.` flag: its class entry, found or created as a stub, gets the method appended. */
  method AddMethodFlag(ret: seq<ClassDescription>, cache: map<string, nat>, ghost keys: seq<string>, item: Flag,
                       className: string, methodName: string, stubAddr: u64)
    returns (ret': seq<ClassDescription>, cache': map<string, nat>, ghost keys': seq<string>)
    requires |keys| == |ret| && Distinct(keys)
    requires forall c :: c in cache <==> c in keys
    requires forall c :: c in cache ==> cache[c] < |keys| && keys[cache[c]] == c
    requires ParseFlag(item.name) == MethodFlag(className, methodName)
    ensures Collected(ret', keys') == CollectStep(Collected(ret, keys), item, stubAddr)
    ensures forall c :: c in cache' <==> c in keys'
    ensures forall c :: c in cache' ==> cache'[c] < |keys'| && keys'[cache'[c]] == c
  {
    assert ClassOf(item) == Some(className);
    var classDesc: nat;
    if className !in cache {
      ret' := ret + [Stub(className, stubAddr)];
      classDesc := |ret|;
      cache' := cache[className := classDesc];
      keys' := keys + [className];
    } else {
      ret', cache', keys' := ret, cache, keys;
      classDesc := cache[className];
      IndexOfDistinct(keys, classDesc);
    }
    var meth := MethodDescription(methodName, item.offset);
    ret' := ret'[classDesc := ret'[classDesc].(methods := ret'[classDesc].methods + [meth])];
    assert [] + [meth] == [meth];
  }

  /** The cache-by-name gives each class one entry, and that entry is the reference one. */
  lemma {:induction false} ClassesFromFlagsSpec(flags: seq<Flag>, stubAddr: u64, i: int)
    requires 0 <= i < |Collect(flags, stubAddr).classes|
    ensures Mentions(flags, Collect(flags, stubAddr).keys[i])
    ensures Collect(flags, stubAddr).classes[i] == ExpectedClass(flags, Collect(flags, stubAddr).keys[i], stubAddr)
  {
    var r := Collect(flags, stubAddr);
    CollectKeys(flags, r.keys[i], stubAddr);
    CollectSpec(flags, r.keys[i], stubAddr);
    IndexOfDistinct(r.keys, i);
  }

  // ------------------------------------------------------ disassembleLines

  /** An `RzAnalysisDisasmText`: one printed instruction, possibly several lines long. */
  datatype DisasmText = DisasmText(offset: u64, text: string, arrow: u64)

  datatype DisassemblyLine = DisassemblyLine(offset: u64, text: string, arrow: u64)

  /** The lines of one text: all at its offset, only the first with its arrow. */
  function TokenLines(offset: u64, tokens: seq<string>, arrow: u64): (r: seq<DisassemblyLine>)
    ensures |r| == |tokens|
    ensures forall i :: 0 <= i < |r| ==> r[i].offset == offset && r[i].text == tokens[i]
    ensures forall i :: 0 <= i < |r| ==> r[i].arrow == if i == 0 then arrow else RVA_INVALID
    decreases |tokens|
  {
    if tokens == [] then [] else [DisassemblyLine(offset, tokens[0], arrow)] + TokenLines(offset, tokens[1..], RVA_INVALID)
  }

  function LinesOf(t: DisasmText): seq<DisassemblyLine>
  {
    TokenLines(t.offset, Split(t.text, '\n'), t.arrow)
  }

  function AllLines(texts: seq<DisasmText>): seq<DisassemblyLine>
    decreases |texts|
  {
    if texts == [] then [] else AllLines(texts[..|texts| - 1]) + LinesOf(texts[|texts| - 1])
  }

  /** The texts of a line, joined again by `\n`. */
  function Texts(lines: seq<DisassemblyLine>): (r: seq<string>)
    ensures |r| == |lines| && forall i :: 0 <= i < |lines| ==> r[i] == lines[i].text
  {
    seq(|lines|, i requires 0 <= i < |lines| => lines[i].text)
  }

  /** One text becomes at least one line, the lines give back the text, and they all sit at its offset. */
  lemma {:induction false} LinesOfSpec(t: DisasmText)
    ensures |LinesOf(t)| >= 1 && LinesOf(t)[0].arrow == t.arrow
    ensures Join(Texts(LinesOf(t)), '\n') == t.text
    ensures forall i :: 0 <= i < |LinesOf(t)| ==> LinesOf(t)[i].offset == t.offset && '\n' !in LinesOf(t)[i].text
    ensures forall i :: 1 <= i < |LinesOf(t)| ==> LinesOf(t)[i].arrow == RVA_INVALID
  {
    var toks := Split(t.text, '\n');
    assert Texts(LinesOf(t)) == toks;
    SplitJoin(t.text, '\n');
  }

  /** `disassembleLines` after the disassembler filled its vector; line texts stay unconverted. */
  method DisassembleLines(texts: seq<DisasmText>) returns (r: seq<DisassemblyLine>)
    ensures r == AllLines(texts)
  {
    r := [];
    var k := 0;
    while k < |texts|
      invariant 0 <= k <= |texts|
      invariant r == AllLines(texts[..k])
    {
      var t := texts[k];
      var tokens := Split(t.text, '\n');
      r := AppendTokens(r, t.offset, tokens, t.arrow);
      assert texts[..k + 1][..k] == texts[..k];
      k := k + 1;
    }
    assert texts[..k] == texts;
  }

  /** The inner loop: one line per token, the arrow cleared after the first. */
  method AppendTokens(r: seq<DisassemblyLine>, offset: u64, tokens: seq<string>, arrow0: u64)
    returns (r': seq<DisassemblyLine>)
    ensures r' == r + TokenLines(offset, tokens, arrow0)
  {
    r' := r;
    var arrow := arrow0;
    var j := 0;
    ghost var lines := TokenLines(offset, tokens, arrow0);
    while j < |tokens|
      invariant 0 <= j <= |tokens|
      invariant arrow == if j == 0 then arrow0 else RVA_INVALID
      invariant r' == r + lines[..j]
    {
      var line := DisassemblyLine(offset, tokens[j], arrow);
      assert lines[..j + 1] == lines[..j] + [line];
      r' := r' + [line];
      arrow := RVA_INVALID;
      j := j + 1;
    }
    assert lines[..j] == lines;
  }

  // -------------------------------------------------- getDisassemblyPreview

  /** How many lines the preview keeps before it elides: the check runs after an append. */
  function PreviewKept(numOfLines: int): (n: nat)
    ensures n >= 1
  {
    if numOfLines <= 1 then 1 else numOfLines
  }

  /** The preview of `getDisassemblyPreview` for the lines disassembled. */
  function Preview(lines: seq<string>, numOfLines: int): (r: seq<string>)
    ensures lines == [] <==> r == []
    ensures |lines| < PreviewKept(numOfLines) ==> r == lines
    ensures |lines| >= PreviewKept(numOfLines) ==>
      |r| == PreviewKept(numOfLines) + 1 && r[..|r| - 1] == lines[..|r| - 1] && r[|r| - 1] == "..."
  {
    var n := PreviewKept(numOfLines);
    if |lines| >= n then lines[..n] + ["..."] else lines
  }

  /** The loop of `getDisassemblyPreview` over the lines `disassembleLines` returned. */
  method GetDisassemblyPreview(lines: seq<DisassemblyLine>, numOfLines: int) returns (preview: seq<string>)
    ensures preview == Preview(Texts(lines), numOfLines)
  {
    preview := [];
    var k := 0;
    while k < |lines|
      invariant 0 <= k <= |lines|
      invariant preview == Texts(lines)[..k]
      invariant k < PreviewKept(numOfLines)
    {
      preview := preview + [lines[k].text];
      assert Texts(lines)[..k + 1] == Texts(lines)[..k] + [lines[k].text];
      if |preview| >= numOfLines {
        preview := preview + ["..."];
        return;
      }
      k := k + 1;
    }
    assert Texts(lines)[..k] == Texts(lines);
  }
}
