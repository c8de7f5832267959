/**
 * Shared vocabulary of the model: fixed-width unsigned integers with their
 * wrap-around written out, the RVA sentinels, Option, and the hexadecimal
 * text forms used by several views.
 */
module Common {

  const U64_MODULUS: int := 0x1_0000_0000_0000_0000
  const UINT64_MAX: int := 0xFFFF_FFFF_FFFF_FFFF
  const U32_MODULUS: int := 0x1_0000_0000

  /** C++ `uint64_t` / `ut64` / `RVA`. */
  type u64 = x: int | 0 <= x < 0x1_0000_0000_0000_0000
  /** C++ `uint8_t`, one byte. */
  type u8 = x: int | 0 <= x < 0x100
  /** C++ 32-bit `int`. */
  type i32 = x: int | -0x8000_0000 <= x < 0x8000_0000

  const INT_MIN: i32 := -0x8000_0000

  /** `RVA_MAX` and `RVA_INVALID` are both the all-ones 64-bit value. */
  const RVA_MAX: u64 := 0xFFFF_FFFF_FFFF_FFFF
  const RVA_INVALID: u64 := 0xFFFF_FFFF_FFFF_FFFF

  /** Unsigned 64-bit arithmetic: the mathematical result reduced modulo 2^64. */
  function Wrap64(x: int): (r: u64)
    ensures 0 <= x < U64_MODULUS ==> r == x
  {
    x % U64_MODULUS
  }

  /** Adding in two steps with wrap-around is adding once. */
  lemma {:induction false} WrapStep(addr: int, done: int, step: int)
    ensures Wrap64(Wrap64(addr + done) + step) == Wrap64(addr + (done + step))
  {
  }

  /** Two's-complement reading of the low 32 bits of x. */
  function ToInt32(x: int): (r: i32)
    ensures -0x8000_0000 <= x < 0x8000_0000 ==> r == x
  {
    var low := x % U32_MODULUS;
    if low < 0x8000_0000 then low else low - U32_MODULUS
  }

  /** C and C++ integer division, which rounds toward zero. */
  function TruncDiv(a: int, b: int): (q: int)
    requires b > 0
    ensures a >= 0 ==> q == a / b
    ensures a < 0 ==> q == -((-a) / b)
  {
    if a >= 0 then a / b else -((-a) / b)
  }

  // Arithmetic facts the solver needs as explicit steps.

  lemma {:induction false} MulSucc(a: int, b: int)
    ensures a * b + b == (a + 1) * b
  {
  }

  lemma {:induction false} MulDist(a: int, b: int, c: int)
    ensures (a + b) * c == a * c + b * c && (a - b) * c == a * c - b * c
  {
  }

  lemma {:induction false} MulAssoc(a: int, b: int, c: int)
    ensures (a * b) * c == a * (b * c)
  {
  }

  lemma {:induction false} MulNonneg(a: int, b: int)
    requires a >= 0 && b >= 0
    ensures a * b >= 0
  {
  }

  lemma {:induction false} MulAtLeast(z: int, d: int)
    requires z >= 1 && d >= 1
    ensures z * d >= d
  {
    assert z * d == (z - 1) * d + d;
  }

  lemma {:induction false} MulMonoLe(a: int, b: int, c: int)
    requires a <= b && c >= 0
    ensures a * c <= b * c
  {
    assert b * c - a * c == (b - a) * c;
  }

  /** Cancelling a positive factor from a strict inequality. */
  lemma {:induction false} MulLtCancel(a: int, b: int, c: int)
    requires c >= 1 && a * c < b * c
    ensures a < b
  {
    if a >= b {
      MulMonoLe(b, a, c);
    }
  }

  /** Euclidean division is unique: `q` and `r` with `p == q * d + r`, `0 <= r < d` are `p / d` and `p % d`. */
  lemma {:induction false} DivUnique(p: int, d: int, q: int, r: int)
    requires d >= 1 && 0 <= r < d && p == q * d + r
    ensures p / d == q && p % d == r
  {
    var z := q - p / d;
    assert z * d == q * d - (p / d) * d;
    assert z * d == p % d - r;
    if z >= 1 {
      MulAtLeast(z, d);
    } else if z <= -1 {
      MulAtLeast(-z, d);
    }
  }

  lemma {:induction false} DivMulBounds(a: int, d: int)
    requires d >= 1
    ensures (a / d) * d <= a < (a / d) * d + d
    ensures a == (a / d) * d + a % d
  {
  }

  lemma {:induction false} MulMod(x: int, d: int)
    requires d >= 1
    ensures (x * d) % d == 0 && (x * d) / d == x
  {
    DivUnique(x * d, d, x, 0);
  }

  // Slices of composed sequences.

  lemma {:induction false} IndexOfPrefix<T>(t: seq<T>, p: seq<T>, k: int)
    requires p <= t && 0 <= k < |p|
    ensures t[k] == p[k]
  {
  }

  lemma {:induction false} SliceOfPrefix<T>(t: seq<T>, p: seq<T>, a: int, b: int)
    requires p <= t && 0 <= a <= b <= |p|
    ensures t[a..b] == p[a..b]
  {
    assert forall k :: a <= k < b ==> t[k] == p[k];
  }

  lemma {:induction false} PrefixOfConcat<T>(x: seq<T>, y: seq<T>)
    ensures x <= x + y
  {
    assert forall k :: 0 <= k < |x| ==> (x + y)[k] == x[k];
  }

  lemma {:induction false} PrefixOfConcat3<T>(x: seq<T>, y: seq<T>, z: seq<T>)
    ensures x <= x + y + z
  {
    assert forall k :: 0 <= k < |x| ==> (x + y + z)[k] == x[k];
  }

  lemma {:induction false} PrefixExtend<T>(a: seq<T>, b: seq<T>, c: seq<T>, y: seq<T>, z: seq<T>)
    requires a <= b && c == b + y + z
    ensures a <= c
  {
    assert forall k :: 0 <= k < |a| ==> c[k] == b[k];
  }

  lemma {:induction false} PrefixTrans<T>(x: seq<T>, y: seq<T>, z: seq<T>)
    requires x <= y && y <= z
    ensures x <= z
  {
    assert forall k :: 0 <= k < |x| ==> z[k] == y[k];
  }

  lemma {:induction false} SliceInside<T>(x: seq<T>, y: seq<T>, z: seq<T>, a: int, b: int)
    requires 0 <= a <= b <= |y|
    ensures (x + y + z)[|x| + a..|x| + b] == y[a..b]
  {
    assert forall k :: a <= k < b ==> (x + y + z)[|x| + k] == y[k];
  }

  lemma {:induction false} SliceThroughPrefix<T>(t: seq<T>, x: seq<T>, y: seq<T>, z: seq<T>, a: int, len: int)
    requires x + y + z <= t && 0 <= a && 0 <= len && a + len <= |y|
    ensures |x| + a + len <= |t| && t[|x| + a..|x| + a + len] == y[a..a + len]
  {
    SliceInside(x, y, z, a, a + len);
    SliceOfPrefix(t, x + y + z, |x| + a, |x| + (a + len));
    assert |x| + (a + len) == |x| + a + len;
  }

  lemma {:induction false} IndexThroughPrefix<T>(t: seq<T>, x: seq<T>, y: seq<T>, z: seq<T>, a: int)
    requires x + y + z <= t && 0 <= a < |y|
    ensures |x| + a < |t| && t[|x| + a] == y[a]
  {
    assert t[|x| + a] == (x + y + z)[|x| + a];
  }

  lemma {:induction false} SliceOfConcat<T>(x: seq<T>, y: seq<T>, z: seq<T>)
    ensures (x + y + z)[|x|..|x| + |y|] == y
  {
  }

  datatype Option<T> = None | Some(value: T)

  function Min(a: int, b: int): int { if a <= b then a else b }
  function Max(a: int, b: int): int { if a >= b then a else b }

  predicate IsHexDigit(c: char) {
    ('0' <= c <= '9') || ('a' <= c <= 'f') || ('A' <= c <= 'F')
  }

  /** Value of one hexadecimal digit of either case. */
  function HexValue(c: char): (d: nat)
    requires IsHexDigit(c)
    ensures d < 16
  {
    if '0' <= c <= '9' then c as int - '0' as int
    else if 'a' <= c <= 'f' then c as int - 'a' as int + 10
    else c as int - 'A' as int + 10
  }

  /** Lower-case hexadecimal digit, as printed by `%x`. */
  function HexDigit(d: nat): (c: char)
    requires d < 16
    ensures IsHexDigit(c) && HexValue(c) == d
    ensures !('A' <= c <= 'F')
  {
    if d < 10 then (d + '0' as int) as char else (d - 10 + 'a' as int) as char
  }

  /** Upper-case hexadecimal digit. */
  function UpperHexDigit(d: nat): (c: char)
    requires d < 16
    ensures IsHexDigit(c) && HexValue(c) == d
    ensures !('a' <= c <= 'f')
  {
    if d < 10 then (d + '0' as int) as char else (d - 10 + 'A' as int) as char
  }

  predicate AllHex(s: string) {
    forall i :: 0 <= i < |s| ==> IsHexDigit(s[i])
  }

  /** Numeric value of a string of hexadecimal digits, most significant first. */
  function ParseHex(s: string): nat
    requires AllHex(s)
  {
    if s == [] then 0 else ParseHex(s[..|s| - 1]) * 16 + HexValue(s[|s| - 1])
  }

  /** Shortest lower-case hexadecimal form of n (`%llx`). */
  function ToHex(n: nat): (s: string)
    ensures 1 <= |s| && AllHex(s)
    decreases n
  {
    if n < 16 then [HexDigit(n)] else ToHex(n / 16) + [HexDigit(n % 16)]
  }

  lemma {:induction false} ToHexRoundTrip(n: nat)
    ensures ParseHex(ToHex(n)) == n
    decreases n
  {
    var s := ToHex(n);
    if n >= 16 {
      ToHexRoundTrip(n / 16);
      assert s[..|s| - 1] == ToHex(n / 16);
    }
  }

  /** ToHex never starts with a zero digit, except for the value 0 itself. */
  lemma {:induction false} ToHexNoLeadingZero(n: nat)
    ensures ToHex(n)[0] == '0' <==> n == 0
    decreases n
  {
    if n >= 16 { ToHexNoLeadingZero(n / 16); }
  }

  function Repeat(c: char, n: int): (s: string)
    ensures |s| == if n <= 0 then 0 else n
    ensures forall i :: 0 <= i < |s| ==> s[i] == c
    decreases n
  {
    if n <= 0 then [] else [c] + Repeat(c, n - 1)
  }

  lemma {:induction false} ParseHexLeadingZeros(z: nat, s: string)
    requires AllHex(s)
    ensures AllHex(Repeat('0', z) + s) && ParseHex(Repeat('0', z) + s) == ParseHex(s)
    decreases z, |s|
  {
    var t := Repeat('0', z) + s;
    if s == [] {
      assert t == Repeat('0', z);
      if z > 0 {
        assert t[..|t| - 1] == Repeat('0', z - 1) + [];
        ParseHexLeadingZeros(z - 1, []);
      }
    } else {
      assert t[..|t| - 1] == Repeat('0', z) + s[..|s| - 1];
      ParseHexLeadingZeros(z, s[..|s| - 1]);
    }
  }

  /**
   * `QString::asprintf("%#010llx", a)`: the `#` flag adds "0x" to non-zero
   * values only, and the zero padding goes between prefix and digits so the
   * whole text is at least ten characters wide.
   */
  function RAddressString(a: u64): string
  {
    if a == 0 then "0000000000"
    else "0x" + Repeat('0', 8 - |ToHex(a)|) + ToHex(a)
  }

  lemma {:induction false} RAddressStringSpec(a: u64)
    ensures |RAddressString(a)| >= 10
    ensures a == 0 ==> RAddressString(a) == "0000000000"
    ensures a != 0 ==> RAddressString(a)[..2] == "0x"
    ensures a != 0 ==> AllHex(RAddressString(a)[2..]) && ParseHex(RAddressString(a)[2..]) == a
    ensures a != 0 && |RAddressString(a)| > 10 ==> RAddressString(a)[2] != '0'
  {
    if a != 0 {
      RAddressParts(a);
      RAddressParse(a);
      if |RAddressString(a)| > 10 {
        RAddressNoLeadingZero(a);
      }
    }
  }

  /** The `0x` prefix, the zero padding up to eight digits, and the shortest digits. */
  lemma {:induction false} RAddressParts(a: u64)
    requires a != 0
    ensures var h := ToHex(a);
      var z := if |h| >= 8 then 0 else 8 - |h|;
      RAddressString(a)[..2] == "0x" && RAddressString(a)[2..] == Repeat('0', z) + h &&
      |RAddressString(a)| == 2 + z + |h|
  {
    var h := ToHex(a);
    var z := if |h| >= 8 then 0 else 8 - |h|;
    assert Repeat('0', 8 - |h|) == Repeat('0', z);
    var s := RAddressString(a);
    assert s == "0x" + (Repeat('0', z) + h);
  }

  lemma {:induction false} RAddressParse(a: u64)
    requires a != 0
    ensures AllHex(RAddressString(a)[2..]) && ParseHex(RAddressString(a)[2..]) == a
  {
    var h := ToHex(a);
    var z := if |h| >= 8 then 0 else 8 - |h|;
    RAddressParts(a);
    ParseHexLeadingZeros(z, h);
    ToHexRoundTrip(a);
  }

  lemma {:induction false} RAddressNoLeadingZero(a: u64)
    requires a != 0 && |RAddressString(a)| > 10
    ensures RAddressString(a)[2] != '0'
  {
    var h := ToHex(a);
    RAddressParts(a);
    assert |h| > 8;
    ToHexNoLeadingZero(a);
    assert RAddressString(a)[2..][0] == h[0];
  }

  /** n rendered as exactly `width` lower-case hexadecimal digits (`%0*x`, n small enough). */
  function HexFixed(n: nat, width: nat): (s: string)
    ensures |s| == width && AllHex(s)
    ensures forall i :: 0 <= i < |s| ==> !('A' <= s[i] <= 'F')
  {
    if width == 0 then [] else HexFixed(n / 16, width - 1) + [HexDigit(n % 16)]
  }

  lemma {:induction false} HexFixedValue(n: nat, width: nat)
    requires n < Pow16(width)
    ensures ParseHex(HexFixed(n, width)) == n
  {
    if width > 0 {
      var s := HexFixed(n, width);
      assert s[..|s| - 1] == HexFixed(n / 16, width - 1);
      HexFixedValue(n / 16, width - 1);
    }
  }

  predicate IsOctDigit(c: char) { '0' <= c <= '7' }

  /** n rendered as exactly `width` octal digits. */
  function OctFixed(n: nat, width: nat): (s: string)
    ensures |s| == width
    ensures forall i :: 0 <= i < |s| ==> IsOctDigit(s[i])
  {
    if width == 0 then [] else OctFixed(n / 8, width - 1) + [OctDigit(n % 8)]
  }

  function OctDigit(d: nat): (c: char)
    requires d < 8
    ensures IsOctDigit(c) && OctValue(c) == d
  {
    (d + '0' as int) as char
  }

  function ParseOct(s: string): nat
    requires forall i :: 0 <= i < |s| ==> IsOctDigit(s[i])
  {
    if s == [] then 0 else ParseOct(s[..|s| - 1]) * 8 + OctValue(s[|s| - 1])
  }

  function OctValue(c: char): (d: nat)
    requires IsOctDigit(c)
    ensures d < 8
  {
    c as int - '0' as int
  }

  lemma {:induction false} OctFixedValue(n: nat, width: nat)
    requires n < Pow8(width)
    ensures ParseOct(OctFixed(n, width)) == n
  {
    if width > 0 {
      var s := OctFixed(n, width);
      assert s[..|s| - 1] == OctFixed(n / 8, width - 1);
      OctFixedValue(n / 8, width - 1);
    }
  }

  function Pow16(k: nat): (p: nat)
    ensures p >= 1
  {
    if k == 0 then 1 else 16 * Pow16(k - 1)
  }

  function Pow8(k: nat): (p: nat)
    ensures p >= 1
  {
    if k == 0 then 1 else 8 * Pow8(k - 1)
  }

  function Pow2(k: nat): (p: nat)
    ensures p >= 1
  {
    if k == 0 then 1 else 2 * Pow2(k - 1)
  }

  /** Plain substring test (`QString::contains`). */
  predicate Contains(s: string, part: string) {
    exists i :: 0 <= i <= |s| - |part| && OccursAt(s, part, i)
  }

  predicate OccursAt(s: string, part: string, i: int) {
    0 <= i <= |s| - |part| && s[i..i + |part|] == part
  }

  predicate StartsWith(s: string, prefix: string) {
    |prefix| <= |s| && s[..|prefix|] == prefix
  }

  predicate EndsWith(s: string, suffix: string) {
    |suffix| <= |s| && s[|s| - |suffix|..] == suffix
  }

  /** `QString::split(sep)` with empty parts kept: always at least one part. */
  function Split(s: string, sep: char): (parts: seq<string>)
    ensures |parts| >= 1
    ensures forall i :: 0 <= i < |parts| ==> sep !in parts[i]
    decreases |s|
  {
    if sep !in s then [s]
    else
      var i := IndexOf(s, sep);
      [s[..i]] + Split(s[i + 1..], sep)
  }

  /** The position of the first occurrence of `c` in `s`. */
  function IndexOf<T(==)>(s: seq<T>, c: T): (i: nat)
    requires c in s
    ensures i < |s| && s[i] == c && c !in s[..i]
  {
    if s[0] == c then 0 else 1 + IndexOf(s[1..], c)
  }

  /** The first `c` of `x + [c] + y` is the one after `x` when `x` has none. */
  lemma {:induction false} IndexOfConcat<T>(x: seq<T>, c: T, y: seq<T>)
    requires c !in x
    ensures c in x + [c] + y && IndexOf(x + [c] + y, c) == |x|
  {
    var u := x + [c] + y;
    assert u[|x|] == c;
    assert u[..|x|] == x;
  }

  /** Splitting at a separator after a part without one. */
  lemma {:induction false} SplitConcat(x: string, sep: char, y: string)
    requires sep !in x
    ensures Split(x + [sep] + y, sep) == [x] + Split(y, sep)
  {
    var u := x + [sep] + y;
    IndexOfConcat(x, sep, y);
    assert u[..|x|] == x && u[|x| + 1..] == y;
  }

  /** No value occurs twice. */
  predicate Distinct<T(==)>(s: seq<T>) {
    forall i, j :: 0 <= i < j < |s| ==> s[i] != s[j]
  }

  /** Appending a new value keeps a list without repetitions. */
  lemma {:induction false} DistinctAppend<T>(s: seq<T>, x: T)
    requires Distinct(s) && x !in s
    ensures Distinct(s + [x])
  {
    forall i, j | 0 <= i < j < |s| + 1 ensures (s + [x])[i] != (s + [x])[j] {
      if j == |s| { assert (s + [x])[i] == s[i]; }
    }
  }

  /** In a list without repetitions the only position holding `s[j]` is `j`. */
  lemma {:induction false} IndexOfDistinct<T>(s: seq<T>, j: int)
    requires Distinct(s) && 0 <= j < |s|
    ensures IndexOf(s, s[j]) == j
  {
  }

  /** Joining the parts of Split with the separator gives the text back. */
  function Join(parts: seq<string>, sep: char): string
    requires |parts| >= 1
  {
    if |parts| == 1 then parts[0] else parts[0] + [sep] + Join(parts[1..], sep)
  }

  lemma {:induction false} SplitJoin(s: string, sep: char)
    ensures Join(Split(s, sep), sep) == s
    decreases |s|
  {
    if sep in s {
      var i := IndexOf(s, sep);
      SplitJoin(s[i + 1..], sep);
      assert Split(s, sep)[1..] == Split(s[i + 1..], sep);
      assert s == s[..i] + [sep] + s[i + 1..];
    }
  }

  /** The whitespace `QString::trimmed` removes at both ends (the ASCII characters). */
  predicate IsSpace(c: char) {
    c == ' ' || c == '\t' || c == '\n' || c == '\r' || c == '\U{B}' || c == '\U{C}'
  }

  function TrimStart(s: string): (r: string)
    ensures |r| <= |s|
    ensures r == [] || !IsSpace(r[0])
    decreases |s|
  {
    if |s| > 0 && IsSpace(s[0]) then TrimStart(s[1..]) else s
  }

  function TrimEnd(s: string): (r: string)
    ensures |r| <= |s|
    ensures r == [] || !IsSpace(r[|r| - 1])
    decreases |s|
  {
    if |s| > 0 && IsSpace(s[|s| - 1]) then TrimEnd(s[..|s| - 1]) else s
  }

  /** `QString::trimmed`. */
  function Trim(s: string): (r: string)
    ensures |r| <= |s|
    ensures r == [] || (!IsSpace(r[0]) && !IsSpace(r[|r| - 1]))
  {
    var t := TrimStart(s);
    TrimEndPrefix(t);
    TrimEnd(t)
  }

  lemma {:induction false} TrimEndPrefix(s: string)
    ensures TrimEnd(s) == s[..|TrimEnd(s)|]
    decreases |s|
  {
    if |s| > 0 && IsSpace(s[|s| - 1]) {
      TrimEndPrefix(s[..|s| - 1]);
    }
  }

  /** The entries of `s` that `keep` accepts, in their order. */
  function Filter<T>(s: seq<T>, keep: T -> bool): (r: seq<T>)
    ensures |r| <= |s|
    decreases |s|
  {
    if s == [] then [] else Filter(s[..|s| - 1], keep) + (if keep(s[|s| - 1]) then [s[|s| - 1]] else [])
  }

  lemma {:induction false} FilterMembership<T>(s: seq<T>, keep: T -> bool, x: T)
    ensures x in Filter(s, keep) <==> x in s && keep(x)
    decreases |s|
  {
    if s != [] {
      FilterMembership(s[..|s| - 1], keep, x);
      assert s == s[..|s| - 1] + [s[|s| - 1]];
    }
  }

  /** Filtering keeps a list whose every entry is accepted. */
  lemma {:induction false} FilterAll<T>(s: seq<T>, keep: T -> bool)
    requires forall i :: 0 <= i < |s| ==> keep(s[i])
    ensures Filter(s, keep) == s
    decreases |s|
  {
    if s != [] {
      FilterAll(s[..|s| - 1], keep);
    }
  }

  /** The values `f` gives for the entries of `s`, in order, leaving out the entries it gives none for. */
  function FilterMap<T, U>(s: seq<T>, f: T -> Option<U>): (r: seq<U>)
    ensures |r| <= |s|
    decreases |s|
  {
    if s == [] then []
    else FilterMap(s[..|s| - 1], f) + (if f(s[|s| - 1]).Some? then [f(s[|s| - 1]).value] else [])
  }

  lemma {:induction false} FilterMapMembership<T, U>(s: seq<T>, f: T -> Option<U>, e: U)
    ensures e in FilterMap(s, f) <==> exists i :: 0 <= i < |s| && f(s[i]) == Some(e)
    decreases |s|
  {
    if s != [] {
      var init := s[..|s| - 1];
      FilterMapMembership(init, f, e);
      if exists i :: 0 <= i < |init| && f(init[i]) == Some(e) {
        var i :| 0 <= i < |init| && f(init[i]) == Some(e);
        assert s[i] == init[i];
      }
      if exists i :: 0 <= i < |s| && f(s[i]) == Some(e) {
        var i :| 0 <= i < |s| && f(s[i]) == Some(e);
        if i < |init| {
          assert init[i] == s[i];
        }
      }
    }
  }

  /** Decimal digits of n, most significant first (`QString::number`). */
  function Decimal(n: nat): (s: string)
    ensures |s| >= 1 && forall i :: 0 <= i < |s| ==> '0' <= s[i] <= '9'
    decreases n
  {
    if n < 10 then [(n + '0' as int) as char] else Decimal(n / 10) + [(n % 10 + '0' as int) as char]
  }

  function ParseDecimal(s: string): nat
    requires forall i :: 0 <= i < |s| ==> '0' <= s[i] <= '9'
  {
    if s == [] then 0 else ParseDecimal(s[..|s| - 1]) * 10 + (s[|s| - 1] as int - '0' as int)
  }

  lemma {:induction false} DecimalRoundTrip(n: nat)
    ensures ParseDecimal(Decimal(n)) == n
    decreases n
  {
    if n >= 10 {
      DecimalRoundTrip(n / 10);
      var s := Decimal(n);
      assert s[..|s| - 1] == Decimal(n / 10);
    }
  }
}
