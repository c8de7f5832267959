/**
 * The text helpers of src/utils/RichTextPainter.cpp: `cropped`, which cuts a
 * list of rich-text pieces to a number of columns and marks the cut with an
 * indicator, and `htmlRichText`, which renders the pieces as HTML spans and
 * as plain text. A piece carries its text, the flags saying which colours
 * apply, its two colours and whether it is underlined.
 */
module RichTextPainter {
  import opened Common

  datatype TextFlags = FlagNone | FlagColor | FlagBackground | FlagAll

  type rgb24 = x: int | 0 <= x < 0x100_0000

  /** An RGB colour with its alpha channel. */
  datatype Color = Color(rgb: rgb24, alpha: u8)

  /** `Qt::transparent`. */
  const Transparent := Color(0, 0)

  /** `QColor::name()`: `#rrggbb` in lower-case hexadecimal. */
  function Name(c: Color): (s: string)
    ensures |s| == 7 && s[0] == '#' && AllHex(s[1..])
  {
    "#" + HexFixed(c.rgb, 6)
  }

  datatype RichText = RichText(text: string, flags: TextFlags, textColor: Color, textBackground: Color, highlight: bool)

  /** The number of characters of all pieces. */
  function TotalLength(l: seq<RichText>): nat
  {
    if l == [] then 0 else |l[0].text| + TotalLength(l[1..])
  }

  lemma {:induction false} TotalLengthConcat(a: seq<RichText>, b: seq<RichText>)
    ensures TotalLength(a + b) == TotalLength(a) + TotalLength(b)
    decreases |a|
  {
    if a == [] {
      assert a + b == b;
    } else {
      assert (a + b)[0] == a[0] && (a + b)[1..] == a[1..] + b;
      TotalLengthConcat(a[1..], b);
    }
  }

  // ---------------------------------------------------------------- cropped

  /** `QString::truncate(n)`: the first n characters; a negative n empties the string. */
  function Truncate(s: string, n: int): (r: string)
    ensures |r| == if n <= 0 then 0 else Min(n, |s|)
    ensures r == s[..|r|]
  {
    if n <= 0 then [] else if n < |s| then s[..n] else s
  }

  /**
   * `s.replace(s.length() - n, n, after)`: the last n characters become
   * `after`. For a negative n the position lies past the end and Qt leaves
   * the string as it is.
   */
  function ReplaceTail(s: string, n: int, after: string): (r: string)
    requires n <= |s|
  {
    if n < 0 then s else s[..|s| - n] + after
  }

  /**
   * The first loop of `cropped` with `room` columns left: pieces that fit
   * are kept, the loop stops when no column is left, and the first piece
   * that does not fit is truncated to the room and ends the list. The flag
   * says whether a piece was truncated.
   */
  function Crop(l: seq<RichText>, room: int): (seq<RichText>, bool)
    decreases |l|
  {
    if l == [] then ([], false)
    else if |l[0].text| <= room then
      var rest := Crop(l[1..], room - |l[0].text|);
      ([l[0]] + rest.0, rest.1)
    else if room == 0 then ([], false)
    else ([l[0].(text := Truncate(l[0].text, room))], true)
  }

  /**
   * The indicator loop of `cropped`: the indicator replaces the last n
   * characters, dropping trailing pieces that are shorter than what is
   * still to be replaced.
   */
  function Indicate(r: seq<RichText>, n: int, indicator: string): seq<RichText>
    decreases |r|
  {
    if r == [] then []
    else
      var t := r[|r| - 1];
      if |t.text| >= n then r[..|r| - 1] + [t.(text := ReplaceTail(t.text, n, indicator))]
      else Indicate(r[..|r| - 1], n - |t.text|, indicator)
  }

  /** `cropped(richText, maxCols, indicator, &croppedOut)`: the list and `croppedOut`. */
  function Cropped(l: seq<RichText>, maxCols: int, indicator: string): (seq<RichText>, bool)
  {
    var c := Crop(l, maxCols);
    if c.1 && indicator != [] then (Indicate(c.0, Min(|indicator|, maxCols), indicator), true)
    else c
  }

  /** A list that fits is returned unchanged and is not reported as cropped. */
  lemma {:induction false} CropFits(l: seq<RichText>, room: int)
    requires TotalLength(l) <= room
    ensures Crop(l, room) == (l, false)
    decreases |l|
  {
    if l != [] {
      CropFits(l[1..], room - |l[0].text|);
      assert [l[0]] + l[1..] == l;
    }
  }

  lemma {:induction false} TotalLengthCons(h: RichText, l: seq<RichText>, k: int)
    requires 0 <= k <= |l|
    ensures ([h] + l)[..k + 1] == [h] + l[..k]
    ensures TotalLength(([h] + l)[..k + 1]) == |h.text| + TotalLength(l[..k])
  {
    assert ([h] + l)[..k + 1] == [h] + l[..k];
    assert ([h] + l[..k])[1..] == l[..k];
  }

  /** With `room >= 0` columns, the first loop keeps at most the room and never more pieces than given. */
  lemma {:induction false} CropBound(l: seq<RichText>, room: int)
    requires room >= 0
    ensures TotalLength(Crop(l, room).0) <= room && |Crop(l, room).0| <= |l|
    decreases |l|
  {
    if l != [] {
      var h := l[0];
      if |h.text| <= room {
        CropBound(l[1..], room - |h.text|);
        var r := [h] + Crop(l[1..], room - |h.text|).0;
        assert r[0] == h && r[1..] == Crop(l[1..], room - |h.text|).0;
      } else if room > 0 {
        var r := [h.(text := Truncate(h.text, room))];
        assert r[1..] == [];
      }
    }
  }

  /**
   * A truncated result is the pieces before the cut followed by the cut
   * piece shortened to the columns left.
   */
  lemma {:induction false} CropCut(l: seq<RichText>, room: int)
    requires room >= 0 && Crop(l, room).1
    ensures var r := Crop(l, room).0; var k := |r| - 1;
      r != [] && k < |l| && TotalLength(l[..k]) < room < TotalLength(l[..k]) + |l[k].text| &&
      r == l[..k] + [l[k].(text := Truncate(l[k].text, room - TotalLength(l[..k])))]
    decreases |l|
  {
    var h := l[0];
    if |h.text| <= room {
      var l', room' := l[1..], room - |h.text|;
      var rest := Crop(l', room').0;
      CropCut(l', room');
      var k' := |rest| - 1;
      var cut := l'[k'].(text := Truncate(l'[k'].text, room' - TotalLength(l'[..k'])));
      assert l == [h] + l';
      assert Crop(l, room).0 == [h] + rest;
      TotalLengthCons(h, l', k');
      ConsCut(h, l', k', rest, cut);
      assert room - TotalLength(l[..k' + 1]) == room' - TotalLength(l'[..k']);
    } else {
      assert l[..0] == [];
    }
  }

  /** Putting `h` in front of a list cut after its first k items and a replacement `cut`. */
  lemma {:induction false} ConsCut<T>(h: T, l: seq<T>, k: nat, rest: seq<T>, cut: T)
    requires k < |l| && rest == l[..k] + [cut]
    ensures |[h] + rest| == k + 2 && ([h] + l)[k + 1] == l[k]
    ensures [h] + rest == ([h] + l)[..k + 1] + [cut]
  {
    assert ([h] + l)[..k + 1] == [h] + l[..k];
  }

  /** A truncated result fills the room exactly. */
  lemma {:induction false} CropCutFills(l: seq<RichText>, room: int)
    requires room >= 0 && Crop(l, room).1
    ensures TotalLength(Crop(l, room).0) == room
  {
    CropCut(l, room);
    var r := Crop(l, room).0;
    var k := |r| - 1;
    var cut := l[k].(text := Truncate(l[k].text, room - TotalLength(l[..k])));
    TotalLengthConcat(l[..k], [cut]);
    assert TotalLength([cut]) == |cut.text|;
  }

  /**
   * An untruncated result is a prefix of the list, and when pieces were
   * dropped the room was filled exactly and the next piece did not fit.
   */
  lemma {:induction false} CropPrefix(l: seq<RichText>, room: int)
    requires room >= 0 && !Crop(l, room).1
    ensures var r := Crop(l, room).0;
      |r| <= |l| && r == l[..|r|] &&
      (|r| < |l| ==> TotalLength(r) == room && TotalLength(r) + |l[|r|].text| > room)
    decreases |l|
  {
    if l != [] {
      var h := l[0];
      if |h.text| <= room {
        var l', room' := l[1..], room - |h.text|;
        var rest := Crop(l', room').0;
        CropPrefix(l', room');
        var r := [h] + rest;
        assert Crop(l, room).0 == r;
        assert l[..|r|] == [h] + l'[..|rest|];
        assert TotalLength(r) == |h.text| + TotalLength(rest) by {
          assert r[0] == h && r[1..] == rest;
        }
        assert |r| < |l| ==> l[|r|] == l'[|rest|];
      }
    }
  }

  /** The indicator loop empties the list exactly when all of it is shorter than n. */
  lemma {:induction false} IndicateEmpty(r: seq<RichText>, n: int, indicator: string)
    requires n >= 1
    ensures Indicate(r, n, indicator) == [] <==> TotalLength(r) < n
    decreases |r|
  {
    if r != [] {
      var init := r[..|r| - 1];
      assert r == init + [r[|r| - 1]];
      TotalLengthConcat(init, [r[|r| - 1]]);
      assert TotalLength([r[|r| - 1]]) == |r[|r| - 1].text|;
      if |r[|r| - 1].text| < n {
        IndicateEmpty(init, n - |r[|r| - 1].text|, indicator);
      }
    }
  }

  /**
   * A non-empty result of the indicator loop is a prefix of the list whose
   * last piece has its last characters replaced by the indicator.
   */
  lemma {:induction false} IndicateShape(r: seq<RichText>, n: int, indicator: string)
    requires n >= 0 && Indicate(r, n, indicator) != []
    ensures var res := Indicate(r, n, indicator); var k := |res| - 1;
      |res| <= |r| && res[..k] == r[..k] &&
      var m := n - TotalLength(r[k + 1..]);
      0 <= m <= |r[k].text| && res[k] == r[k].(text := r[k].text[..|r[k].text| - m] + indicator)
    decreases |r|
  {
    var init, t := r[..|r| - 1], r[|r| - 1];
    var res := Indicate(r, n, indicator);
    if |t.text| >= n {
      IndicateLastPiece(r, n, indicator);
    } else {
      var n' := n - |t.text|;
      IndicateEarlierPiece(r, n, indicator);
      IndicateShape(init, n', indicator);
      var k := |res| - 1;
      assert r[..k] == init[..k] && r[k] == init[k];
      assert r[k + 1..] == init[k + 1..] + [t];
      TotalLengthConcat(init[k + 1..], [t]);
      assert TotalLength([t]) == |t.text|;
    }
  }

  /** When the last piece is long enough, the indicator goes into it. */
  lemma {:induction false} IndicateLastPiece(r: seq<RichText>, n: int, indicator: string)
    requires n >= 0 && r != [] && |r[|r| - 1].text| >= n
    ensures var res := Indicate(r, n, indicator); var k := |r| - 1;
      |res| == |r| && res[..k] == r[..k] && r[k + 1..] == [] &&
      res[k] == r[k].(text := r[k].text[..|r[k].text| - n] + indicator)
  {
    var init, t := r[..|r| - 1], r[|r| - 1];
    var t' := t.(text := t.text[..|t.text| - n] + indicator);
    assert Indicate(r, n, indicator) == init + [t'];
    assert (init + [t'])[..|init|] == init;
  }

  /** When the last piece is too short, it is dropped and the rest is still to be replaced earlier. */
  lemma {:induction false} IndicateEarlierPiece(r: seq<RichText>, n: int, indicator: string)
    requires n >= 0 && r != [] && |r[|r| - 1].text| < n
    ensures Indicate(r, n, indicator) == Indicate(r[..|r| - 1], n - |r[|r| - 1].text|, indicator)
  {
  }

  /** A non-empty result of the indicator loop ends with the indicator. */
  lemma {:induction false} IndicateEndsWith(r: seq<RichText>, n: int, indicator: string)
    requires n >= 0 && Indicate(r, n, indicator) != []
    ensures var res := Indicate(r, n, indicator); EndsWith(res[|res| - 1].text, indicator)
  {
    IndicateShape(r, n, indicator);
    var res := Indicate(r, n, indicator);
    var s := res[|res| - 1].text;
    var p := s[..|s| - |indicator|];
    assert s == p + indicator ==> s[|s| - |indicator|..] == indicator;
  }

  /** The indicator loop makes the text `|indicator| - n` characters longer, unless it empties the list. */
  lemma {:induction false} IndicateLength(r: seq<RichText>, n: int, indicator: string)
    requires n >= 0 && Indicate(r, n, indicator) != []
    ensures TotalLength(Indicate(r, n, indicator)) + n == TotalLength(r) + |indicator|
    decreases |r|
  {
    var init, t := r[..|r| - 1], r[|r| - 1];
    assert r == init + [t];
    TotalLengthConcat(init, [t]);
    assert TotalLength([t]) == |t.text|;
    if |t.text| >= n {
      var t' := t.(text := t.text[..|t.text| - n] + indicator);
      TotalLengthConcat(init, [t']);
      assert TotalLength([t']) == |t'.text|;
    } else {
      IndicateLength(init, n - |t.text|, indicator);
    }
  }

  /**
   * The promises of `cropped`: a list that fits is returned as it is and not
   * reported as cropped; when the indicator is no longer than `maxCols` the
   * result never exceeds `maxCols` characters; a cropped, non-empty result
   * ends with the indicator.
   */
  lemma {:induction false} CroppedSpec(l: seq<RichText>, maxCols: int, indicator: string)
    ensures TotalLength(l) <= maxCols ==> Cropped(l, maxCols, indicator) == (l, false)
    ensures |indicator| <= maxCols ==> TotalLength(Cropped(l, maxCols, indicator).0) <= maxCols
    ensures var (r, cut) := Cropped(l, maxCols, indicator);
      maxCols >= 0 && cut && indicator != [] && r != [] ==> EndsWith(r[|r| - 1].text, indicator)
  {
    if TotalLength(l) <= maxCols {
      CropFits(l, maxCols);
    }
    if maxCols >= 0 {
      CropBound(l, maxCols);
      var c := Crop(l, maxCols);
      if c.1 && indicator != [] {
        CropCutFills(l, maxCols);
        var n := Min(|indicator|, maxCols);
        if Indicate(c.0, n, indicator) != [] {
          IndicateEndsWith(c.0, n, indicator);
          IndicateLength(c.0, n, indicator);
        }
      }
    }
  }

  /**
   * When the columns are filled exactly before a piece that does not fit,
   * the rest is dropped and yet the list is not reported as cropped.
   */
  lemma {:induction false} ExactFitNotReported(l: seq<RichText>, maxCols: int, indicator: string)
    requires maxCols >= 0 && TotalLength(l) > maxCols
    requires !Cropped(l, maxCols, indicator).1
    ensures var r := Cropped(l, maxCols, indicator).0;
      |r| < |l| && r == l[..|r|] && TotalLength(r) == maxCols
  {
    CropPrefix(l, maxCols);
    CropBound(l, maxCols);
    assert l[..|l|] == l;
  }

  /** `RichTextPainter::cropped`: a copying loop with a column counter, then the indicator loop on the back piece. */
  method CroppedList(richText: seq<RichText>, maxCols: int, indicator: string) returns (r: seq<RichText>, croppedOut: bool)
    ensures (r, croppedOut) == Cropped(richText, maxCols, indicator)
  {
    r := [];
    var cols := 0;
    var cropped := false;
    var i := 0;
    assert richText[0..] == richText;
    assert [] + Crop(richText, maxCols).0 == Crop(richText, maxCols).0;
    while i < |richText|
      invariant 0 <= i <= |richText|
      invariant Crop(richText, maxCols) == (r + Crop(richText[i..], maxCols - cols).0, Crop(richText[i..], maxCols - cols).1)
    {
      var text := richText[i];
      var textLength := |text.text|;
      assert richText[i..][1..] == richText[i + 1..];
      if cols + textLength <= maxCols {
        var rest := Crop(richText[i + 1..], maxCols - cols - textLength);
        assert Crop(richText[i..], maxCols - cols) == ([text] + rest.0, rest.1);
        assert r + ([text] + rest.0) == (r + [text]) + rest.0;
        r := r + [text];
        cols := cols + textLength;
      } else if cols == maxCols {
        assert Crop(richText[i..], maxCols - cols) == ([], false);
        break;
      } else {
        r := r + [text.(text := Truncate(text.text, maxCols - cols))];
        cropped := true;
        assert Crop(richText, maxCols) == (r, true);
        break;
      }
      i := i + 1;
    }
    assert r + [] == r;
    assert Crop(richText, maxCols) == (r, cropped);

    if cropped && indicator != [] {
      var indicatorCropLength := |indicator|;
      if indicatorCropLength > maxCols {
        indicatorCropLength := maxCols;
      }
      ghost var r0, n0 := r, indicatorCropLength;
      while r != []
        invariant Indicate(r, indicatorCropLength, indicator) == Indicate(r0, n0, indicator)
        decreases |r|
      {
        var text := r[|r| - 1];
        if |text.text| >= indicatorCropLength {
          r := r[..|r| - 1] + [text.(text := ReplaceTail(text.text, indicatorCropLength, indicator))];
          break;
        }
        indicatorCropLength := indicatorCropLength - |text.text|;
        r := r[..|r| - 1];
      }
    }
    croppedOut := cropped;
  }

  // ---------------------------------------------------------------- htmlRichText

  const LT: string := "&lt;"
  const GT: string := "&gt;"
  const AMP: string := "&amp;"
  const QUOT: string := "&quot;"

  /** One character as `QString::toHtmlEscaped` writes it. */
  function EscapeChar(c: char): string
  {
    if c == '<' then LT else if c == '>' then GT else if c == '&' then AMP else if c == '"' then QUOT else [c]
  }

  /** `QString::toHtmlEscaped`: `<`, `>`, `&` and `"` become entities. */
  function HtmlEscape(s: string): string
    decreases |s|
  {
    if s == [] then [] else EscapeChar(s[0]) + HtmlEscape(s[1..])
  }

  /** Escaped text holds no tag delimiter and no double quote. */
  lemma {:induction false} EscapeNoTags(s: string)
    ensures '<' !in HtmlEscape(s) && '>' !in HtmlEscape(s) && '"' !in HtmlEscape(s)
    decreases |s|
  {
    if s != [] {
      EscapeNoTags(s[1..]);
      var e := EscapeChar(s[0]);
      assert '<' !in e && '>' !in e && '"' !in e;
    }
  }

  /** Reads the four entities back; every other character stands for itself. */
  function HtmlUnescape(s: string): string
    decreases |s|
  {
    if s == [] then []
    else if s[0] != '&' then [s[0]] + HtmlUnescape(s[1..])
    else if StartsWith(s, LT) then "<" + HtmlUnescape(s[4..])
    else if StartsWith(s, GT) then ">" + HtmlUnescape(s[4..])
    else if StartsWith(s, AMP) then "&" + HtmlUnescape(s[5..])
    else if StartsWith(s, QUOT) then "\"" + HtmlUnescape(s[6..])
    else "&" + HtmlUnescape(s[1..])
  }

  /** An entity followed by anything is read as that entity. */
  lemma {:induction false} EntityPrefix(e: string, z: string)
    ensures StartsWith(e + z, e) && (e + z)[|e|..] == z
  {
    assert (e + z)[..|e|] == e;
  }

  /** An escaped character followed by anything reads back as the character followed by the reading of the rest. */
  lemma {:induction false} UnescapeChar(c: char, z: string)
    ensures HtmlUnescape(EscapeChar(c) + z) == [c] + HtmlUnescape(z)
  {
    var e := EscapeChar(c);
    var s := e + z;
    if c == '<' {
      EntityPrefix(LT, z);
    } else if c == '>' {
      EntityPrefix(GT, z);
      assert s[1] == 'g';
      assert !StartsWith(s, LT) by { assert LT[1] == 'l'; }
    } else if c == '&' {
      EntityPrefix(AMP, z);
      assert s[1] == 'a';
      assert !StartsWith(s, LT) by { assert LT[1] == 'l'; }
      assert !StartsWith(s, GT) by { assert GT[1] == 'g'; }
    } else if c == '"' {
      EntityPrefix(QUOT, z);
      assert s[1] == 'q';
      assert !StartsWith(s, LT) by { assert LT[1] == 'l'; }
      assert !StartsWith(s, GT) by { assert GT[1] == 'g'; }
      assert !StartsWith(s, AMP) by { assert AMP[1] == 'a'; }
    } else {
      assert s[0] == c && s[1..] == z;
    }
  }

  /** Escaped text followed by anything reads back as the text followed by the reading of the rest. */
  lemma {:induction false} UnescapeEscaped(s: string, y: string)
    ensures HtmlUnescape(HtmlEscape(s) + y) == s + HtmlUnescape(y)
    decreases |s|
  {
    if s == [] {
      assert HtmlEscape(s) + y == y;
    } else {
      var z := HtmlEscape(s[1..]) + y;
      assert HtmlEscape(s) + y == EscapeChar(s[0]) + z;
      UnescapeChar(s[0], z);
      UnescapeEscaped(s[1..], y);
      assert s == [s[0]] + s[1..];
      ConsAssociate(s[0], s[1..], HtmlUnescape(y));
    }
  }

  lemma {:induction false} ConsAssociate(c: char, a: string, b: string)
    ensures [c] + (a + b) == ([c] + a) + b
  {
  }

  /** The escaped text reads back as the text. */
  lemma {:induction false} HtmlEscapeRoundTrip(s: string)
    ensures HtmlUnescape(HtmlEscape(s)) == s
  {
    UnescapeEscaped(s, []);
    assert HtmlEscape(s) + [] == HtmlEscape(s);
  }

  const SPAN_OPEN: string := "<span>"
  const COLOR_OPEN: string := "<span style=\"color:"
  const BACKGROUND_OPEN: string := "<span style=\"background-color:"
  const BACKGROUND_NEXT: string := "; background-color:"
  const STYLE_CLOSE: string := "\">"
  const UNDERLINE_OPEN: string := "<u>"
  const UNDERLINE_CLOSE: string := "</u>"
  const SPAN_CLOSE: string := "</span>"

  /** The opening tag of a piece, from its flags and colours; a transparent background is left out. */
  function OpenTag(t: RichText): string
  {
    match t.flags
    case FlagNone => SPAN_OPEN
    case FlagColor => COLOR_OPEN + Name(t.textColor) + STYLE_CLOSE
    case FlagBackground =>
      if t.textBackground != Transparent then BACKGROUND_OPEN + Name(t.textBackground) + STYLE_CLOSE
      else SPAN_OPEN
    case FlagAll =>
      if t.textBackground != Transparent then
        COLOR_OPEN + Name(t.textColor) + BACKGROUND_NEXT + Name(t.textBackground) + STYLE_CLOSE
      else COLOR_OPEN + Name(t.textColor) + STYLE_CLOSE
  }

  /** The HTML of one piece: a blank piece is a bare space, any other an underlined-if-highlighted span. */
  function HtmlOf(t: RichText): string
  {
    if t.text == " " then " "
    else
      OpenTag(t) + (if t.highlight then UNDERLINE_OPEN else "") + HtmlEscape(t.text) +
      (if t.highlight then UNDERLINE_CLOSE else "") + SPAN_CLOSE
  }

  /** The pieces rendered one after another with `f`. */
  function ConcatMap(l: seq<RichText>, f: RichText -> string): string
    decreases |l|
  {
    if l == [] then [] else f(l[0]) + ConcatMap(l[1..], f)
  }

  lemma {:induction false} ConcatMapAppend(l: seq<RichText>, f: RichText -> string, t: RichText)
    ensures ConcatMap(l + [t], f) == ConcatMap(l, f) + f(t)
    decreases |l|
  {
    if l == [] {
      assert [t][1..] == [];
    } else {
      assert (l + [t])[1..] == l[1..] + [t];
      ConcatMapAppend(l[1..], f, t);
    }
  }

  function Html(l: seq<RichText>): string { ConcatMap(l, HtmlOf) }

  function Plain(l: seq<RichText>): string { ConcatMap(l, (t: RichText) => t.text) }

  /** The plain text has as many characters as the pieces together. */
  lemma {:induction false} PlainLength(l: seq<RichText>)
    ensures |Plain(l)| == TotalLength(l)
    decreases |l|
  {
    if l != [] {
      PlainLength(l[1..]);
    }
  }

  /** The body of the `htmlRichText` loop for a piece that is not blank: its span is appended. */
  method AppendSpan(textHtml: string, cur: RichText) returns (html: string)
    requires cur.text != " "
    ensures html == textHtml + HtmlOf(cur)
  {
    html := textHtml;
    var open: string;
    match cur.flags {
      case FlagNone =>
        open := SPAN_OPEN;
      case FlagColor =>
        open := COLOR_OPEN + Name(cur.textColor) + STYLE_CLOSE;
      case FlagBackground =>
        if cur.textBackground != Transparent {
          open := BACKGROUND_OPEN + Name(cur.textBackground) + STYLE_CLOSE;
        } else {
          open := SPAN_OPEN;
        }
      case FlagAll =>
        if cur.textBackground != Transparent {
          open := COLOR_OPEN + Name(cur.textColor) + BACKGROUND_NEXT + Name(cur.textBackground) + STYLE_CLOSE;
        } else {
          open := COLOR_OPEN + Name(cur.textColor) + STYLE_CLOSE;
        }
    }
    html := html + open;
    var under := "";
    if cur.highlight {
      html := html + UNDERLINE_OPEN;
      under := UNDERLINE_OPEN;
    } else {
      assert html + under == html;
    }
    ghost var before := html;
    assert before == textHtml + open + under;
    html := html + HtmlEscape(cur.text);
    var underEnd := "";
    if cur.highlight {
      html := html + UNDERLINE_CLOSE;
      underEnd := UNDERLINE_CLOSE;
    } else {
      assert html + underEnd == html;
    }
    assert html == before + HtmlEscape(cur.text) + underEnd;
    html := html + SPAN_CLOSE;
    assert open == OpenTag(cur);
    assert HtmlOf(cur) == open + under + HtmlEscape(cur.text) + underEnd + SPAN_CLOSE;
    Associate(textHtml, open, under, HtmlEscape(cur.text), underEnd, SPAN_CLOSE);
  }

  lemma {:induction false} Associate3(x: string, a: string, b: string)
    ensures x + a + b == x + (a + b)
  {
  }

  /** Appending pieces one by one appends their concatenation. */
  lemma {:induction false} Associate(x: string, a: string, b: string, c: string, d: string, e: string)
    ensures x + a + b + c + d + e == x + (a + b + c + d + e)
  {
  }

  /** `htmlRichText`: both outputs keep their previous content and get the pieces appended. */
  method HtmlRichText(richText: seq<RichText>, textHtml: string, textPlain: string) returns (html: string, plain: string)
    ensures html == textHtml + Html(richText)
    ensures plain == textPlain + Plain(richText)
  {
    html, plain := textHtml, textPlain;
    var i := 0;
    while i < |richText|
      invariant 0 <= i <= |richText|
      invariant html == textHtml + Html(richText[..i])
      invariant plain == textPlain + Plain(richText[..i])
    {
      var cur := richText[i];
      ConcatMapAppend(richText[..i], HtmlOf, cur);
      ConcatMapAppend(richText[..i], (t: RichText) => t.text, cur);
      assert richText[..i + 1] == richText[..i] + [cur];
      Associate3(textHtml, Html(richText[..i]), HtmlOf(cur));
      Associate3(textPlain, Plain(richText[..i]), cur.text);
      if cur.text == " " {
        html := html + " ";
        plain := plain + " ";
        i := i + 1;
        continue;
      }
      html := AppendSpan(html, cur);
      plain := plain + cur.text;
      i := i + 1;
    }
    assert richText[..i] == richText;
  }

  // ---------------------------------------------------------------- reading the HTML back

  /** The text after the first `>`, or nothing when there is none. */
  function AfterTag(s: string): (r: string)
    ensures |r| <= |s|
    decreases |s|
  {
    if s == [] then [] else if s[0] == '>' then s[1..] else AfterTag(s[1..])
  }

  /** The text with every `<...>` tag removed. */
  function StripTags(s: string): string
    decreases |s|
  {
    if s == [] then []
    else if s[0] == '<' then StripTags(AfterTag(s[1..]))
    else [s[0]] + StripTags(s[1..])
  }

  /** `>`-free text before the end of a tag is skipped. */
  lemma {:induction false} AfterTagConcat(a: string, b: string)
    requires '>' !in a
    ensures AfterTag(a + b) == AfterTag(b)
    decreases |a|
  {
    if a == [] {
      assert a + b == b;
    } else {
      assert (a + b)[0] == a[0] && (a + b)[1..] == a[1..] + b;
      AfterTagConcat(a[1..], b);
    }
  }

  lemma {:induction false} AfterTagClose(closing: string, rest: string)
    requires closing != [] && closing[|closing| - 1] == '>' && '>' !in closing[..|closing| - 1]
    ensures AfterTag(closing + rest) == rest
  {
    var k := |closing| - 1;
    assert closing + rest == closing[..k] + (">" + rest);
    AfterTagConcat(closing[..k], ">" + rest);
    assert (">" + rest)[1..] == rest;
  }

  /**
   * A tag `open + middle + closing` followed by anything strips to the
   * stripping of what follows, when only `closing` ends in `>`.
   */
  lemma {:induction false} StripTag(open: string, middle: string, closing: string, rest: string)
    requires open != [] && open[0] == '<' && '>' !in open && '>' !in middle
    requires closing != [] && closing[|closing| - 1] == '>' && '>' !in closing[..|closing| - 1]
    ensures StripTags(open + middle + closing + rest) == StripTags(rest)
  {
    var s := open + middle + closing + rest;
    assert s[0] == '<';
    assert s[1..] == open[1..] + (middle + (closing + rest));
    AfterTagConcat(open[1..], middle + (closing + rest));
    AfterTagConcat(middle, closing + rest);
    AfterTagClose(closing, rest);
  }

  lemma {:induction false} StripText(e: string, rest: string)
    requires '<' !in e
    ensures StripTags(e + rest) == e + StripTags(rest)
    decreases |e|
  {
    if e == [] {
      assert e + rest == rest;
    } else {
      assert (e + rest)[0] == e[0] && (e + rest)[1..] == e[1..] + rest;
      StripText(e[1..], rest);
      assert e + StripTags(rest) == [e[0]] + (e[1..] + StripTags(rest));
    }
  }

  lemma {:induction false} NameNoClose(c: Color)
    ensures '>' !in Name(c)
  {
    var n := Name(c);
    assert forall i :: 1 <= i < 7 ==> n[1..][i - 1] == n[i];
  }

  /** The tag constants: each opens with `<`, and only its last character is `>`. */
  lemma {:induction false} TagConstants()
    ensures SPAN_OPEN == "<span" + ">" && '>' !in "<span"
    ensures UNDERLINE_OPEN == "<u" + ">" && '>' !in "<u"
    ensures UNDERLINE_CLOSE == "</u" + ">" && '>' !in "</u"
    ensures SPAN_CLOSE == "</span" + ">" && '>' !in "</span"
    ensures COLOR_OPEN[0] == '<' && '>' !in COLOR_OPEN && BACKGROUND_OPEN[0] == '<' && '>' !in BACKGROUND_OPEN
    ensures '>' !in BACKGROUND_NEXT
    ensures STYLE_CLOSE[|STYLE_CLOSE| - 1] == '>' && STYLE_CLOSE[..|STYLE_CLOSE| - 1] == "\"" && '>' !in "\""
  {
  }

  /** A fixed tag followed by anything strips to the stripping of what follows. */
  lemma {:induction false} StripFixedTag(open: string, rest: string)
    requires open != [] && open[0] == '<' && '>' !in open
    ensures StripTags(open + ">" + rest) == StripTags(rest)
  {
    StripTag(open, [], ">", rest);
    assert open + [] + ">" + rest == open + ">" + rest;
  }

  /** Every opening tag strips away. */
  lemma {:induction false} StripOpenTag(t: RichText, rest: string)
    ensures StripTags(OpenTag(t) + rest) == StripTags(rest)
  {
    var f, b := Name(t.textColor), Name(t.textBackground);
    NameNoClose(t.textColor);
    NameNoClose(t.textBackground);
    TagConstants();
    match t.flags {
      case FlagNone =>
        StripFixedTag("<span", rest);
      case FlagColor =>
        StripTag(COLOR_OPEN, f, STYLE_CLOSE, rest);
      case FlagBackground =>
        if t.textBackground != Transparent {
          StripTag(BACKGROUND_OPEN, b, STYLE_CLOSE, rest);
        } else {
          StripFixedTag("<span", rest);
        }
      case FlagAll =>
        if t.textBackground != Transparent {
          StripTag(COLOR_OPEN, f + BACKGROUND_NEXT + b, STYLE_CLOSE, rest);
          assert COLOR_OPEN + f + BACKGROUND_NEXT + b + STYLE_CLOSE + rest == COLOR_OPEN + (f + BACKGROUND_NEXT + b) + STYLE_CLOSE + rest;
        } else {
          StripTag(COLOR_OPEN, f, STYLE_CLOSE, rest);
        }
    }
  }

  /** One piece, tags removed and entities read back, is its own text. */
  lemma {:induction false} HtmlOfReadBack(t: RichText, rest: string)
    ensures HtmlUnescape(StripTags(HtmlOf(t) + rest)) == t.text + HtmlUnescape(StripTags(rest))
  {
    if t.text == " " {
      StripText(" ", rest);
      UnescapeChar(' ', StripTags(rest));
    } else {
      TagConstants();
      var e := HtmlEscape(t.text);
      var close := SPAN_CLOSE + rest;
      var u := if t.highlight then UNDERLINE_CLOSE + close else close;
      var y := if t.highlight then UNDERLINE_OPEN + (e + u) else e + u;
      assert HtmlOf(t) + rest == OpenTag(t) + y;
      StripOpenTag(t, y);
      if t.highlight {
        StripFixedTag("<u", e + u);
      }
      EscapeNoTags(t.text);
      StripText(e, u);
      if t.highlight {
        StripFixedTag("</u", close);
      }
      StripFixedTag("</span", rest);
      UnescapeEscaped(t.text, StripTags(rest));
    }
  }

  /** Removing the tags of the HTML and reading its entities back gives the plain text. */
  lemma {:induction false} HtmlReadsAsPlain(l: seq<RichText>)
    ensures HtmlUnescape(StripTags(Html(l))) == Plain(l)
    decreases |l|
  {
    if l != [] {
      HtmlOfReadBack(l[0], Html(l[1..]));
      HtmlReadsAsPlain(l[1..]);
    }
  }

  /** A blank piece is a bare space in the HTML; every other piece is one span with its escaped text inside. */
  lemma {:induction false} HtmlOfShape(t: RichText)
    ensures t.text == " " ==> HtmlOf(t) == " "
    ensures t.text != " " ==>
      StartsWith(HtmlOf(t), "<span") && EndsWith(HtmlOf(t), SPAN_CLOSE) && Contains(HtmlOf(t), HtmlEscape(t.text))
  {
    if t.text != " " {
      var o := OpenTag(t);
      assert |o| >= 5 && o[..5] == "<span" by {
        assert SPAN_OPEN[..5] == COLOR_OPEN[..5] == BACKGROUND_OPEN[..5] == "<span";
      }
      var pre := o + (if t.highlight then UNDERLINE_OPEN else "");
      var e := HtmlEscape(t.text);
      var h := HtmlOf(t);
      assert h == pre + e + (if t.highlight then UNDERLINE_CLOSE else "") + SPAN_CLOSE;
      FourParts(pre, e, if t.highlight then UNDERLINE_CLOSE else "", SPAN_CLOSE, 5);
      assert pre[..5] == o[..5];
      assert OccursAt(h, e, |pre|);
    }
  }

  /** Slicing four concatenated parts: a prefix of the first, the whole second, the whole last. */
  lemma {:induction false} FourParts<T>(a: seq<T>, b: seq<T>, c: seq<T>, d: seq<T>, k: nat)
    requires k <= |a|
    ensures var h := a + b + c + d;
      h[..k] == a[..k] && h[|a|..|a| + |b|] == b && h[|h| - |d|..] == d
  {
    var h := a + b + c + d;
    assert forall i :: 0 <= i < k ==> h[i] == a[i];
    assert forall i :: 0 <= i < |b| ==> h[|a| + i] == b[i];
    assert forall i :: 0 <= i < |d| ==> h[|h| - |d| + i] == d[i];
  }
}
