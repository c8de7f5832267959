/**
 * The settings migrations of src/common/SettingsUpgrade.cpp. The QSettings
 * store is a map from keys to values; each `migrateSettingsToX` moves the
 * store from exactly version X-1 to X, and `initializeSettings` runs the
 * ones between the stored version and the current one, in order.
 *
 * Keys follow QSettings: a group member is written `group/key`, and the
 * entries of array `a` written by `beginWriteArray` are `a/1/…`, `a/2/…`
 * with the count in `a/size`.
 */
module SettingsUpgrade {
  import opened Common

  const CURRENT_VERSION: int := 4
  const VERSION_KEY: string := "version"
  const THEME_VERSION_CURRENT: int := 1
  const THEME_VERSION_KEY: string := "theme_version"

  const PSEUDOCODE_WIDGET: string := "PseudocodeWidget"
  const DECOMPILER_WIDGET: string := "DecompilerWidget"

  /** The kinds of value the migrations read and write. `Docks` is a map from dock name to its `synchronized` property. */
  datatype Value =
    | Int(i: int)
    | Flag(b: bool)
    | Text(s: string)
    | TextList(items: seq<string>)
    | Bytes(bytes: seq<u8>)
    | Docks(docks: map<string, bool>)

  type Store = map<string, Value>

  function Get(m: Store, key: string): (v: Option<Value>)
    ensures v.Some? <==> key in m
  {
    if key in m then Some(m[key]) else None
  }

  /** `QVariant::toInt` with the default of `value(key, d)`: a missing value gives `d`, a text is parsed, any other value that is not a number gives 0. */
  function ToInt(v: Option<Value>, d: int): int
  {
    match v
    case None => d
    case Some(Int(i)) => i
    case Some(Flag(b)) => if b then 1 else 0
    case Some(Text(s)) => TextToInt(s)
    case Some(_) => 0
  }

  predicate IsDigits(s: string)
  {
    |s| > 0 && forall i :: 0 <= i < |s| ==> '0' <= s[i] <= '9'
  }

  /**
   * A text converted to `int` through `QString::toLongLong`: blanks around
   * it are skipped, then an optional sign and decimal digits; anything else,
   * or a number outside 64 bits, gives 0. The 64-bit number is then cut to
   * 32 bits by the `int(...)` cast.
   */
  function TextToInt(s: string): int
  {
    var t := Trim(s);
    var signed := |t| > 0 && (t[0] == '-' || t[0] == '+');
    var digits := if signed then t[1..] else t;
    if !IsDigits(digits) then 0
    else
      var p: int := ParseDecimal(digits);
      var n := if signed && t[0] == '-' then -p else p;
      if -0x8000_0000_0000_0000 <= n < 0x8000_0000_0000_0000 then ToInt32(n) else 0
  }

  /** `QString::number`: a minus sign for a negative number, then its decimal digits. */
  function NumberText(n: int): (s: string)
    ensures |s| > 0 && !IsSpace(s[0]) && !IsSpace(s[|s| - 1])
  {
    if n < 0 then "-" + Decimal(-n) else Decimal(n)
  }

  /**
   * An INI file stores every number as text: a 32-bit number written with
   * `QString::number` reads back, through `toInt`, as the same number.
   */
  lemma {:induction false} ToIntNumberText(n: int, d: int)
    requires -0x8000_0000 <= n < 0x8000_0000
    ensures ToInt(Some(Text(NumberText(n))), d) == n
  {
    if n < 0 {
      NegativeText(n);
    } else {
      NonNegativeText(n);
    }
  }

  lemma {:induction false} NegativeText(n: int)
    requires -0x8000_0000 <= n < 0
    ensures TextToInt(NumberText(n)) == n
  {
    var m: nat := -n;
    MinusDigits(m);
    assert NumberText(n) == "-" + Decimal(m);
  }

  lemma {:induction false} MinusDigits(m: nat)
    requires 0 < m <= 0x8000_0000
    ensures TextToInt("-" + Decimal(m)) == -(m as int)
  {
    var digits := Decimal(m);
    var t := "-" + digits;
    assert '0' <= t[|t| - 1] <= '9';
    TrimUnspaced(t);
    DecimalRoundTrip(m);
    assert t[0] == '-' && t[1..] == digits;
  }

  lemma {:induction false} NonNegativeText(n: int)
    requires 0 <= n < 0x8000_0000
    ensures TextToInt(NumberText(n)) == n
  {
    var s := NumberText(n);
    TrimUnspaced(s);
    assert '0' <= s[0] <= '9';
    assert IsDigits(s);
    DecimalRoundTrip(n);
  }

  lemma {:induction false} TrimUnspaced(s: string)
    requires |s| > 0 && !IsSpace(s[0]) && !IsSpace(s[|s| - 1])
    ensures Trim(s) == s
  {
    assert TrimStart(s) == s;
    assert TrimEnd(s) == s;
  }

  /** ASCII letters to lower case, as `QString::toLower` does for them. */
  function LowerAscii(s: string): (r: string)
    ensures |r| == |s|
    ensures forall i :: 0 <= i < |s| ==> r[i] == (if 'A' <= s[i] <= 'Z' then (s[i] as int + 32) as char else s[i])
  {
    seq(|s|, i requires 0 <= i < |s| => if 'A' <= s[i] <= 'Z' then (s[i] as int + 32) as char else s[i])
  }

  /**
   * `QVariant::toBool`: a number is true when it is not zero; a text is
   * false when, in lower case, it is empty, "0" or "false"; a missing value
   * and any other kind of value are false.
   */
  function ToBool(v: Option<Value>): bool
  {
    match v
    case Some(Flag(b)) => b
    case Some(Int(i)) => i != 0
    case Some(Text(s)) => var l := LowerAscii(s); !(l == "" || l == "0" || l == "false")
    case _ => false
  }

  /** `s` spells the lower-case `word` with any of its letters in upper case. */
  predicate SpelledIgnoringCase(s: string, word: string)
  {
    |s| == |word|
    && forall i :: 0 <= i < |s| ==> s[i] == word[i] || ('a' <= word[i] <= 'z' && s[i] as int == word[i] as int - 32)
  }

  /** A text reads as false exactly when it is empty, "0", or "false" in any mix of cases. */
  lemma {:induction false} ToBoolText(s: string)
    ensures !ToBool(Some(Text(s))) <==> s == "" || s == "0" || SpelledIgnoringCase(s, "false")
  {
    var l := LowerAscii(s);
    if l == "0" {
      assert s[0] == '0';
      assert s == "0";
    }
    if s == "0" {
      assert l == "0";
    }
    if l == "false" {
      assert forall i :: 0 <= i < |s| ==> l[i] == "false"[i];
    }
    if SpelledIgnoringCase(s, "false") {
      assert l == "false";
    }
  }

  /** A flag, and the text an INI file holds for it, read back as the flag. */
  lemma {:induction false} ToBoolWritten(b: bool)
    ensures ToBool(Some(Flag(b))) == b
    ensures ToBool(Some(Text(if b then "true" else "false"))) == b
  {
    ToBoolText(if b then "true" else "false");
  }

  /** `QVariant::toStringList`: a single text becomes a one-entry list, other values none. */
  function ToStringList(v: Option<Value>): seq<string>
  {
    match v
    case Some(TextList(items)) => items
    case Some(Text(s)) => [s]
    case _ => []
  }

  /** `QVariant::toByteArray` of a stored window geometry or state. */
  function ToBytes(v: Option<Value>): seq<u8>
  {
    match v
    case Some(Bytes(b)) => b
    case _ => []
  }

  /** The keys `QSettings::remove(key)` deletes: the key itself and the members of its group. */
  predicate InGroup(k: string, key: string)
  {
    k == key || StartsWith(k, key + "/")
  }

  function Removed(m: Store, key: string): Store
  {
    map k | k in m && !InGroup(k, key) :: m[k]
  }

  // ---------------------------------------------------------------- version 1

  /** `migrateSettingsTo1`: the two flags now derived from version numbers go, with nothing else. */
  function Migrated1(m: Store): (r: Store)
    ensures forall k :: k in r <==> k in m && !InGroup(k, "settings_migrated") && !InGroup(k, "updated_custom_themes")
    ensures forall k :: k in r ==> r[k] == m[k]
  {
    Removed(Removed(m, "settings_migrated"), "updated_custom_themes")
  }

  // ---------------------------------------------------------------- version 2

  /** `QString::replace(before, after)`: every occurrence, left to right, none overlapping the previous one. */
  function ReplaceAll(s: string, before: string, after: string): (r: string)
    requires |before| > 0
    decreases |s|
  {
    if |s| < |before| then s
    else if s[..|before|] == before then after + ReplaceAll(s[|before|..], before, after)
    else [s[0]] + ReplaceAll(s[1..], before, after)
  }

  /** Replacing by a text of the same length keeps the length. */
  lemma {:induction false} ReplaceAllLength(s: string, before: string, after: string)
    requires |before| > 0 && |after| == |before|
    ensures |ReplaceAll(s, before, after)| == |s|
    decreases |s|
  {
    if |s| < |before| {
    } else if s[..|before|] == before {
      ReplaceAllLength(s[|before|..], before, after);
    } else {
      ReplaceAllLength(s[1..], before, after);
    }
  }

  /** A text without the pattern comes back unchanged. */
  lemma {:induction false} ReplaceAllAbsent(s: string, before: string, after: string)
    requires |before| > 0 && !Contains(s, before)
    ensures ReplaceAll(s, before, after) == s
    decreases |s|
  {
    if |s| >= |before| {
      assert !OccursAt(s, before, 0);
      assert s[..|before|] != before;
      forall i | 0 <= i <= |s[1..]| - |before|
        ensures !OccursAt(s[1..], before, i)
      {
        assert !OccursAt(s, before, i + 1);
        assert s[1..][i..i + |before|] == s[i + 1..i + 1 + |before|];
      }
      ReplaceAllAbsent(s[1..], before, after);
    }
  }

  /** `QStringList::replaceInStrings`: each entry on its own, order and number kept. */
  function ReplacedInStrings(items: seq<string>, before: string, after: string): (r: seq<string>)
    requires |before| > 0
    ensures |r| == |items|
    ensures forall i :: 0 <= i < |items| ==> r[i] == ReplaceAll(items[i], before, after)
  {
    seq(|items|, i requires 0 <= i < |items| => ReplaceAll(items[i], before, after))
  }

  /** `migrateSettingsTo2`: the dock list with the decompiler's new name. */
  function Migrated2(m: Store): (r: Store)
    ensures "docks" in r && r["docks"].TextList?
    ensures |r["docks"].items| == |ToStringList(Get(m, "docks"))|
    ensures forall k :: k != "docks" ==> (k in r <==> k in m) && (k in r ==> r[k] == m[k])
  {
    m["docks" := TextList(ReplacedInStrings(ToStringList(Get(m, "docks")), PSEUDOCODE_WIDGET, DECOMPILER_WIDGET))]
  }

  /** Every dock name keeps its length, and a name without the old widget name is kept as it was. */
  lemma {:induction false} Migrated2Docks(m: Store, i: int)
    requires 0 <= i < |ToStringList(Get(m, "docks"))|
    ensures var before, after := ToStringList(Get(m, "docks"))[i], Migrated2(m)["docks"].items[i];
      |after| == |before| && (!Contains(before, PSEUDOCODE_WIDGET) ==> after == before)
  {
    var before := ToStringList(Get(m, "docks"))[i];
    ReplaceAllLength(before, PSEUDOCODE_WIDGET, DECOMPILER_WIDGET);
    if !Contains(before, PSEUDOCODE_WIDGET) {
      ReplaceAllAbsent(before, PSEUDOCODE_WIDGET, DECOMPILER_WIDGET);
    }
  }

  // ---------------------------------------------------------------- version 3

  /** The `viewProperties` map: each dock, synchronized unless listed as unsynchronized. */
  function ViewProperties(docks: seq<string>, unsync: seq<string>): (vp: map<string, bool>)
  {
    map d | d in docks :: d !in unsync
  }

  lemma {:induction false} ViewPropertiesSpec(docks: seq<string>, unsync: seq<string>)
    ensures forall d :: d in ViewProperties(docks, unsync) <==> d in docks
    ensures forall d :: d in ViewProperties(docks, unsync) ==> (!ViewProperties(docks, unsync)[d] <==> d in unsync)
  {
  }

  /** The keys of the two layouts `migrateSettingsTo3` writes. */
  predicate IsLayoutKey(k: string)
  {
    k in {"layouts/size", "layouts/1/name", "layouts/1/geometry", "layouts/1/state", "layouts/1/docks",
          "layouts/2/name", "layouts/2/geometry", "layouts/2/state", "layouts/2/docks"}
  }

  /** The keys `migrateSettingsTo3` removes once the layouts are written, with their groups. */
  predicate IsLegacyKey(k: string)
  {
    InGroup(k, "pos") || InGroup(k, "size") || InGroup(k, "state") || InGroup(k, "debug.geometry") ||
    InGroup(k, "debug.state") || InGroup(k, "docks") || InGroup(k, "unsync")
  }

  /** The two layouts, "Default" from the main window keys and "Debug" from the `debug.` keys. */
  function WithLayouts(m: Store, vp: map<string, bool>): Store
  {
    m["layouts/1/name" := Text("Default")]
     ["layouts/1/geometry" := Bytes(ToBytes(Get(m, "geometry")))]
     ["layouts/1/state" := Bytes(ToBytes(Get(m, "state")))]
     ["layouts/1/docks" := Docks(vp)]
     ["layouts/2/name" := Text("Debug")]
     ["layouts/2/geometry" := Bytes(ToBytes(Get(m, "debug.geometry")))]
     ["layouts/2/state" := Bytes(ToBytes(Get(m, "debug.state")))]
     ["layouts/2/docks" := Docks(vp)]
     ["layouts/size" := Int(2)]
  }

  function WithoutLegacy(m: Store): Store
  {
    Removed(Removed(Removed(Removed(Removed(Removed(Removed(m, "pos"), "size"), "state"), "debug.geometry"),
                            "debug.state"), "docks"), "unsync")
  }

  /** `migrateSettingsTo3`. */
  function Migrated3(m: Store): Store
  {
    WithoutLegacy(WithLayouts(m, ViewProperties(ToStringList(Get(m, "docks")), ToStringList(Get(m, "unsync")))))
  }

  lemma {:induction false} WithoutLegacySpec(m: Store)
    ensures forall k :: k in WithoutLegacy(m) <==> k in m && !IsLegacyKey(k)
    ensures forall k :: k in WithoutLegacy(m) ==> WithoutLegacy(m)[k] == m[k]
  {
  }

  lemma {:induction false} FirstDiffers(s: string, p: string)
    requires |s| > 0 && |p| > 0 && s[0] != p[0]
    ensures !StartsWith(s, p)
  {
    if |p| <= |s| {
      assert s[..|p|][0] == s[0];
    }
  }

  /** No key of the layouts array belongs to a legacy group: their first letters differ. */
  lemma {:induction false} LayoutKeyNotLegacy(k: string)
    requires StartsWith(k, "layouts/")
    ensures !IsLegacyKey(k)
  {
    assert k[0] == 'l';
    forall key: string | key in ["pos", "size", "state", "debug.geometry", "debug.state", "docks", "unsync"]
      ensures !InGroup(k, key)
    {
      var p := key + "/";
      assert p[0] == key[0] != 'l';
      FirstDiffers(k, p);
    }
  }

  lemma {:induction false} WithLayoutsKeep(m: Store, vp: map<string, bool>, k: string)
    requires !IsLayoutKey(k)
    ensures (k in WithLayouts(m, vp) <==> k in m) && (k in m ==> WithLayouts(m, vp)[k] == m[k])
  {
  }

  lemma {:induction false} WithLayoutsValues(m: Store, vp: map<string, bool>)
    ensures var w := WithLayouts(m, vp);
      w["layouts/1/name"] == Text("Default") && w["layouts/2/name"] == Text("Debug") &&
      w["layouts/size"] == Int(2) && w["layouts/1/docks"] == Docks(vp) && w["layouts/2/docks"] == Docks(vp) &&
      w["layouts/1/geometry"] == Bytes(ToBytes(Get(m, "geometry"))) &&
      w["layouts/2/geometry"] == Bytes(ToBytes(Get(m, "debug.geometry"))) &&
      w["layouts/1/state"] == Bytes(ToBytes(Get(m, "state"))) &&
      w["layouts/2/state"] == Bytes(ToBytes(Get(m, "debug.state")))
  {
  }

  /**
   * After `migrateSettingsTo3` both layouts share one dock map in which a
   * dock is unsynchronized exactly when it was listed in `unsync`, and each
   * layout holds its window geometry and state.
   */
  lemma {:induction false} Migrated3Layouts(m: Store)
    ensures var r, docks, unsync := Migrated3(m), ToStringList(Get(m, "docks")), ToStringList(Get(m, "unsync"));
      "layouts/1/name" in r && r["layouts/1/name"] == Text("Default") &&
      "layouts/2/name" in r && r["layouts/2/name"] == Text("Debug") &&
      "layouts/size" in r && r["layouts/size"] == Int(2) &&
      "layouts/1/docks" in r && "layouts/2/docks" in r && r["layouts/1/docks"] == r["layouts/2/docks"] &&
      r["layouts/1/docks"].Docks? &&
      (forall d :: d in r["layouts/1/docks"].docks <==> d in docks) &&
      (forall d :: d in r["layouts/1/docks"].docks ==> (!r["layouts/1/docks"].docks[d] <==> d in unsync))
    ensures var r := Migrated3(m);
      "layouts/1/geometry" in r && r["layouts/1/geometry"] == Bytes(ToBytes(Get(m, "geometry"))) &&
      "layouts/2/geometry" in r && r["layouts/2/geometry"] == Bytes(ToBytes(Get(m, "debug.geometry"))) &&
      "layouts/1/state" in r && r["layouts/1/state"] == Bytes(ToBytes(Get(m, "state"))) &&
      "layouts/2/state" in r && r["layouts/2/state"] == Bytes(ToBytes(Get(m, "debug.state")))
  {
    var vp := ViewProperties(ToStringList(Get(m, "docks")), ToStringList(Get(m, "unsync")));
    WithLayoutsValues(m, vp);
    ViewPropertiesSpec(ToStringList(Get(m, "docks")), ToStringList(Get(m, "unsync")));
    Migrated3Layout(m, "layouts/1/name");
    Migrated3Layout(m, "layouts/2/name");
    Migrated3Layout(m, "layouts/size");
    Migrated3Layout(m, "layouts/1/docks");
    Migrated3Layout(m, "layouts/2/docks");
    Migrated3Layout(m, "layouts/1/geometry");
    Migrated3Layout(m, "layouts/2/geometry");
    Migrated3Layout(m, "layouts/1/state");
    Migrated3Layout(m, "layouts/2/state");
  }

  /** A layout key survives the removal of the legacy keys. */
  lemma {:induction false} Migrated3Layout(m: Store, k: string)
    requires IsLayoutKey(k)
    ensures var w := WithLayouts(m, ViewProperties(ToStringList(Get(m, "docks")), ToStringList(Get(m, "unsync"))));
      k in Migrated3(m) && Migrated3(m)[k] == w[k]
  {
    var w := WithLayouts(m, ViewProperties(ToStringList(Get(m, "docks")), ToStringList(Get(m, "unsync"))));
    assert StartsWith(k, "layouts/");
    LayoutKeyNotLegacy(k);
    WithoutLegacySpec(w);
  }

  /** `migrateSettingsTo3` removes the legacy keys and keeps every other key that is not a layout key. */
  lemma {:induction false} Migrated3Keys(m: Store)
    ensures forall k :: IsLegacyKey(k) ==> k !in Migrated3(m)
    ensures forall k :: !IsLegacyKey(k) && !IsLayoutKey(k) ==>
      (k in Migrated3(m) <==> k in m) && (k in m ==> Migrated3(m)[k] == m[k])
  {
    var vp := ViewProperties(ToStringList(Get(m, "docks")), ToStringList(Get(m, "unsync")));
    WithoutLegacySpec(WithLayouts(m, vp));
    forall k | !IsLegacyKey(k) && !IsLayoutKey(k)
      ensures (k in Migrated3(m) <==> k in m) && (k in m ==> Migrated3(m)[k] == m[k])
    {
      WithLayoutsKeep(m, vp, k);
    }
  }

  // ---------------------------------------------------------------- version 4

  /** The `renameAsmOption` lambda: moves the value to the new key when the old one is present. */
  function Renamed(m: Store, oldName: string, newName: string): (r: Store)
    ensures oldName !in m ==> r == m
    ensures oldName in m ==> newName in r && r[newName] == m[oldName]
    ensures oldName in m && newName != oldName ==> oldName !in r
    ensures forall k :: k != newName && !InGroup(k, oldName) ==> (k in r <==> k in m) && (k in r ==> r[k] == m[k])
  {
    if oldName in m then Removed(m, oldName)[newName := m[oldName]] else m
  }

  /** `migrateSettingsTo4`: two disassembly options renamed. */
  function Migrated4(m: Store): Store
  {
    Renamed(Renamed(m, "asm.var.subonly", "asm.sub.varonly"), "asm.bytespace", "asm.bytes.space")
  }

  // ---------------------------------------------------------------- the version loop

  /** The `switch (v)` of the loop: one migration per version, nothing for others. */
  function Step(v: int, m: Store): Store
  {
    if v == 1 then Migrated1(m)
    else if v == 2 then Migrated2(m)
    else if v == 3 then Migrated3(m)
    else if v == 4 then Migrated4(m)
    else m
  }

  /** The migrations for versions `v` to the current one, in increasing order. */
  function MigratedFrom(m: Store, v: int): Store
    decreases CURRENT_VERSION + 1 - v
  {
    if v > CURRENT_VERSION then m else MigratedFrom(Step(v, m), v + 1)
  }

  // ---------------------------------------------------------------- the pre-1.8 import

  const MIGRATED_FLAG: string := "settings_migrated"

  /**
   * `migrateSettingsPre18` on the store and the settings of releases before
   * 1.8 (`legacy`): unless the store already says it imported them, or
   * there is nothing to import, every legacy key is copied over the store,
   * the legacy settings are cleared and the flag is set. The result is the
   * pair of the two stores afterwards.
   */
  function Pre18(m: Store, legacy: Store): (Store, Store)
  {
    if ToBool(Get(m, MIGRATED_FLAG)) || |legacy| == 0 then (m, legacy)
    else ((m + legacy)[MIGRATED_FLAG := Flag(true)], map[])
  }

  /**
   * After an import every legacy key holds its legacy value, every other key
   * keeps its value, and the legacy settings are empty; without one nothing
   * changes.
   */
  lemma {:induction false} Pre18Spec(m: Store, legacy: Store)
    ensures var r := Pre18(m, legacy);
      if !ToBool(Get(m, MIGRATED_FLAG)) && |legacy| > 0 then
        r.1 == map[] && MIGRATED_FLAG in r.0 && r.0[MIGRATED_FLAG] == Flag(true) &&
        (forall k :: k != MIGRATED_FLAG ==> (k in r.0 <==> k in m || k in legacy)) &&
        (forall k :: k != MIGRATED_FLAG && k in legacy ==> r.0[k] == legacy[k]) &&
        (forall k :: k != MIGRATED_FLAG && k in m && k !in legacy ==> r.0[k] == m[k])
      else r == (m, legacy)
  {
  }

  /** A second import finds the flag set and does nothing. */
  lemma {:induction false} Pre18Idempotent(m: Store, legacy: Store)
    ensures var r := Pre18(m, legacy); Pre18(r.0, r.1) == r
  {
    var r := Pre18(m, legacy);
    if !ToBool(Get(m, MIGRATED_FLAG)) && |legacy| > 0 {
      assert Get(r.0, MIGRATED_FLAG) == Some(Flag(true));
    }
  }

  // ---------------------------------------------------------------- initializeSettings

  /**
   * `initializeSettings` on the store and the legacy settings: the version
   * is read first; at version 0 the pre-1.8 import runs; then, if the store
   * has any key, the migrations after that version run, and the version key
   * is set to the current version.
   */
  function Initialized(m: Store, legacy: Store): (r: (Store, Store))
    ensures VERSION_KEY in r.0 && r.0[VERSION_KEY] == Int(CURRENT_VERSION)
  {
    var version := ToInt(Get(m, VERSION_KEY), 0);
    var imported := if version == 0 then Pre18(m, legacy) else (m, legacy);
    var m1 := imported.0;
    var migrated := if |m1| > 0 && 0 <= version <= CURRENT_VERSION then MigratedFrom(m1, version + 1) else m1;
    (migrated[VERSION_KEY := Int(CURRENT_VERSION)], imported.1)
  }

  /** All four migrations, in order. */
  lemma {:induction false} MigratedFromOne(m: Store)
    ensures MigratedFrom(m, 1) == Migrated4(Migrated3(Migrated2(Migrated1(m))))
  {
    var m2 := Migrated2(Migrated1(m));
    assert MigratedFrom(m, 1) == MigratedFrom(m2, 3);
    assert MigratedFrom(m2, 3) == MigratedFrom(Migrated4(Migrated3(m2)), 5);
  }

  /**
   * A store at version 0 first imports the pre-1.8 settings; if the store is
   * then not empty it goes through all four migrations, in order.
   */
  lemma {:induction false} InitializedFromZero(m: Store, legacy: Store)
    requires ToInt(Get(m, VERSION_KEY), 0) == 0
    ensures var imported := Pre18(m, legacy);
      Initialized(m, legacy) ==
        ((if |imported.0| > 0 then Migrated4(Migrated3(Migrated2(Migrated1(imported.0)))) else imported.0)
           [VERSION_KEY := Int(CURRENT_VERSION)], imported.1)
  {
    MigratedFromOne(Pre18(m, legacy).0);
  }

  /**
   * A store at version 2 (so not empty) gets only the migrations to 3 and
   * 4, and the legacy settings are not touched.
   */
  lemma {:induction false} InitializedFromTwo(m: Store, legacy: Store)
    requires ToInt(Get(m, VERSION_KEY), 0) == 2
    ensures Initialized(m, legacy) == (Migrated4(Migrated3(m))[VERSION_KEY := Int(CURRENT_VERSION)], legacy)
  {
    assert VERSION_KEY in m;
    assert MigratedFrom(m, 3) == MigratedFrom(Migrated4(Migrated3(m)), 5);
  }

  /**
   * A store with a version above the current one or a negative version, or
   * an empty store with nothing to import, is not migrated, but its version
   * key is still set to the current version.
   */
  lemma {:induction false} InitializedSkips(m: Store, legacy: Store)
    requires (|m| == 0 && |legacy| == 0) || ToInt(Get(m, VERSION_KEY), 0) > CURRENT_VERSION ||
             ToInt(Get(m, VERSION_KEY), 0) < 0
    ensures Initialized(m, legacy) == (m[VERSION_KEY := Int(CURRENT_VERSION)], legacy)
  {
  }

  /** Running `initializeSettings` again changes nothing. */
  lemma {:induction false} InitializedIdempotent(m: Store, legacy: Store)
    ensures var r := Initialized(m, legacy); Initialized(r.0, r.1) == r
  {
    var r := Initialized(m, legacy);
    assert ToInt(Get(r.0, VERSION_KEY), 0) == CURRENT_VERSION;
    assert MigratedFrom(r.0, CURRENT_VERSION + 1) == r.0;
    assert r.0[VERSION_KEY := Int(CURRENT_VERSION)] == r.0;
  }

  // ---------------------------------------------------------------- themes

  /** The theme `removeObsoleteOptionsFromCustomThemes` saves: only the options still known. */
  function Pruned(theme: map<string, string>, options: set<string>): (r: map<string, string>)
    ensures r.Keys == theme.Keys * options
    ensures forall k :: k in r ==> r[k] == theme[k]
  {
    map k | k in theme && k in options :: theme[k]
  }

  /** The themes saved by the loop over `eco*`, the later name winning when two trim to the same one. */
  function SavedThemes(names: seq<string>, custom: map<string, map<string, string>>, options: set<string>)
    : map<string, map<string, string>>
    decreases |names|
  {
    if names == [] then map[]
    else
      var rest := SavedThemes(names[..|names| - 1], custom, options);
      var theme := Trim(names[|names| - 1]);
      if theme in custom then rest[theme := Pruned(custom[theme], options)] else rest
  }

  /** Some entry of the `eco*` list trims to `t`. */
  predicate Listed(names: seq<string>, t: string)
  {
    exists i :: 0 <= i < |names| && Trim(names[i]) == t
  }

  lemma {:induction false} ListedSnoc(names: seq<string>, t: string)
    requires names != []
    ensures Listed(names, t) <==> Listed(names[..|names| - 1], t) || Trim(names[|names| - 1]) == t
  {
    var init := names[..|names| - 1];
    if Listed(names, t) {
      var i :| 0 <= i < |names| && Trim(names[i]) == t;
      if i < |names| - 1 {
        assert init[i] == names[i];
      }
    }
    if Listed(init, t) {
      var i :| 0 <= i < |init| && Trim(init[i]) == t;
      assert names[i] == init[i];
    }
  }

  /** Exactly the listed custom themes are saved, each pruned to the known options. */
  lemma {:induction false} SavedThemesSpec(names: seq<string>, custom: map<string, map<string, string>>,
                                           options: set<string>, t: string)
    ensures t in SavedThemes(names, custom, options) <==> t in custom && Listed(names, t)
    ensures t in SavedThemes(names, custom, options) ==> SavedThemes(names, custom, options)[t] == Pruned(custom[t], options)
    decreases |names|
  {
    if names != [] {
      SavedThemesSpec(names[..|names| - 1], custom, options, t);
      ListedSnoc(names, t);
    }
  }

  /** The settings store, and the settings left by releases before 1.8. */
  class Settings {
    var values: Store
    var legacy: Store

    constructor (initial: Store, legacyInitial: Store)
      ensures values == initial && legacy == legacyInitial
    {
      values := initial;
      legacy := legacyInitial;
    }

    /** The loop of `migrateSettingsPre18` that copies each legacy key over the store. */
    method CopyLegacy()
      modifies this`values
      ensures values == old(values) + legacy
    {
      var remaining := legacy.Keys;
      while remaining != {}
        invariant remaining <= legacy.Keys
        invariant forall k :: k in values <==> k in old(values) || (k in legacy && k !in remaining)
        invariant forall k :: k in values ==>
          values[k] == (if k in legacy && k !in remaining then legacy[k] else old(values)[k])
        decreases |remaining|
      {
        var key :| key in remaining;
        values := values[key := legacy[key]];
        remaining := remaining - {key};
      }
    }

    /** `migrateSettingsPre18`: whether anything was imported. */
    method MigratePre18() returns (migrated: bool)
      modifies this
      ensures (values, legacy) == Pre18(old(values), old(legacy))
      ensures migrated <==> !ToBool(Get(old(values), MIGRATED_FLAG)) && |old(legacy)| > 0
    {
      if ToBool(Get(values, MIGRATED_FLAG)) {
        return false;
      }
      if |legacy| == 0 {
        return false;
      }
      CopyLegacy();
      legacy := map[];
      values := values[MIGRATED_FLAG := Flag(true)];
      migrated := true;
    }

    method MigrateTo1()
      modifies this`values
      ensures values == Migrated1(old(values))
    {
      values := Removed(values, "settings_migrated");
      values := Removed(values, "updated_custom_themes");
    }

    method MigrateTo2()
      modifies this`values
      ensures values == Migrated2(old(values))
    {
      var docks := ToStringList(Get(values, "docks"));
      values := values["docks" := TextList(ReplacedInStrings(docks, PSEUDOCODE_WIDGET, DECOMPILER_WIDGET))];
    }

    /** The loop of `migrateSettingsTo3` that builds `viewProperties`. */
    static method BuildViewProperties(docks: seq<string>, unsync: seq<string>) returns (vp: map<string, bool>)
      ensures vp == ViewProperties(docks, unsync)
    {
      vp := map[];
      var i := 0;
      while i < |docks|
        invariant 0 <= i <= |docks|
        invariant vp == ViewProperties(docks[..i], unsync)
      {
        var synchronized := true;
        if docks[i] in unsync {
          synchronized := false;
        }
        assert docks[..i + 1] == docks[..i] + [docks[i]];
        vp := vp[docks[i] := synchronized];
        i := i + 1;
      }
      assert docks[..i] == docks;
    }

    method MigrateTo3()
      modifies this`values
      ensures values == Migrated3(old(values))
    {
      var docks := ToStringList(Get(values, "docks"));
      var unsync := ToStringList(Get(values, "unsync"));
      var vp := BuildViewProperties(docks, unsync);
      values := WithLayouts(values, vp);
      values := Removed(values, "pos");
      values := Removed(values, "size");
      values := Removed(values, "state");
      values := Removed(values, "debug.geometry");
      values := Removed(values, "debug.state");
      values := Removed(values, "docks");
      values := Removed(values, "unsync");
    }

    /** `renameAsmOption`. */
    method RenameOption(oldName: string, newName: string)
      modifies this`values
      ensures values == Renamed(old(values), oldName, newName)
    {
      if oldName in values {
        var value := values[oldName];
        values := Removed(values, oldName);
        values := values[newName := value];
      }
    }

    method MigrateTo4()
      modifies this`values
      ensures values == Migrated4(old(values))
    {
      RenameOption("asm.var.subonly", "asm.sub.varonly");
      RenameOption("asm.bytespace", "asm.bytes.space");
    }

    /** The `switch (v)` in the loop of `initializeSettings`. */
    method Migrate(v: int)
      modifies this`values
      ensures values == Step(v, old(values))
    {
      if v == 1 {
        MigrateTo1();
      } else if v == 2 {
        MigrateTo2();
      } else if v == 3 {
        MigrateTo3();
      } else if v == 4 {
        MigrateTo4();
      }
    }

    /** `initializeSettings`. */
    method InitializeSettings()
      modifies this
      ensures (values, legacy) == Initialized(old(values), old(legacy))
    {
      var settingsVersion := ToInt(Get(values, VERSION_KEY), 0);
      if settingsVersion == 0 {
        var imported := MigratePre18();
      }
      if |values| > 0 {
        if settingsVersion > CURRENT_VERSION {
        } else if settingsVersion >= 0 {
          MigrateFrom(settingsVersion + 1);
        }
      }
      values := values[VERSION_KEY := Int(CURRENT_VERSION)];
    }

    /** The loop of `initializeSettings` running every migration from `first` up to the current version. */
    method MigrateFrom(first: int)
      modifies this`values
      ensures values == MigratedFrom(old(values), first)
    {
      var v := first;
      while v <= CURRENT_VERSION
        invariant MigratedFrom(values, v) == MigratedFrom(old(values), first)
        decreases CURRENT_VERSION + 1 - v
      {
        Migrate(v);
        v := v + 1;
      }
    }

    /**
     * `migrateThemes`: at any theme version other than the current one the custom themes
     * among `themeNames` (the `eco*` list) are saved pruned to `options`
     * and the theme version is raised; the themes saved are returned.
     */
    method MigrateThemes(themeNames: seq<string>, custom: map<string, map<string, string>>, options: set<string>)
      returns (saved: map<string, map<string, string>>)
      modifies this
      ensures ToInt(Get(old(values), THEME_VERSION_KEY), 0) == THEME_VERSION_CURRENT ==>
        values == old(values) && saved == map[]
      ensures ToInt(Get(old(values), THEME_VERSION_KEY), 0) != THEME_VERSION_CURRENT ==>
        values == old(values)[THEME_VERSION_KEY := Int(THEME_VERSION_CURRENT)] &&
        saved == SavedThemes(themeNames, custom, options)
    {
      saved := map[];
      var themeVersion := ToInt(Get(values, THEME_VERSION_KEY), 0);
      if themeVersion != THEME_VERSION_CURRENT {
        var i := 0;
        while i < |themeNames|
          invariant 0 <= i <= |themeNames|
          invariant saved == SavedThemes(themeNames[..i], custom, options)
        {
          var theme := Trim(themeNames[i]);
          assert themeNames[..i + 1][..i] == themeNames[..i];
          if theme in custom {
            saved := saved[theme := Pruned(custom[theme], options)];
          }
          i := i + 1;
        }
        assert themeNames[..i] == themeNames;
        values := values[THEME_VERSION_KEY := Int(THEME_VERSION_CURRENT)];
      }
    }
  }
}
