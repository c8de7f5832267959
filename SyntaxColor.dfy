/**
 * The annotated decompiler output of src/SyntaxColor.c: a code text with a
 * vector of annotations, the query for the annotations covering an offset,
 * and the single-pass printer that colours SYNTAX_HIGHLIGHT ranges and
 * optionally puts a bar with the binary offset in front of every line.
 *
 * The console is an output parameter: the printer returns a sequence of
 * tokens (a character of the code, an escape sequence, a line bar) and
 * `Render` spells them out. The palette of the console singleton is a
 * parameter; the escape sequences `Color_*` come from the radare2 console
 * header, which is not part of this model, and have their usual ANSI values.
 */
module SyntaxColor {
  import opened Common

  datatype HighlightType =
    | Keyword | Comment | Datatype | FunctionName | FunctionParameter
    | LocalVariable | ConstantVariable | GlobalVariable

  /** `RCodeAnnotation`: a range `[start, end)` of the code and what it says about it. */
  datatype AnnotationKind = OffsetAnnotation(offset: u64) | SyntaxHighlight(highlight: HighlightType)
  datatype CodeAnnotation = CodeAnnotation(start: nat, end: nat, kind: AnnotationKind)

  /** The palette entries the printer consults; `None` is an entry the console does not set. */
  datatype Palette = Palette(comment: Option<string>, pop: Option<string>, funcVarType: Option<string>,
                             fname: Option<string>, num: Option<string>, offset: Option<string>)

  const COLOR_RESET: string := "\U{1b}[0m"
  const COLOR_RED: string := "\U{1b}[31m"
  const COLOR_GREEN: string := "\U{1b}[32m"
  const COLOR_YELLOW: string := "\U{1b}[33m"
  const COLOR_BLUE: string := "\U{1b}[34m"
  const COLOR_MAGENTA: string := "\U{1b}[35m"
  const COLOR_WHITE: string := "\U{1b}[37m"

  /** `PALETTE(x) : fallback`. */
  function PaletteOr(entry: Option<string>, fallback: string): string {
    if entry.Some? then entry.value else fallback
  }

  /**
   * The colour the printer picks for a highlight. A constant variable falls
   * through the `switch` into `default`, which keeps the colour it was given.
   */
  function ColorFor(h: HighlightType, pal: Palette): (color: string)
    ensures h in {FunctionParameter, LocalVariable, GlobalVariable} ==> color == COLOR_RESET
    ensures h == Comment ==> color == PaletteOr(pal.comment, COLOR_WHITE)
    ensures h == Keyword ==> color == PaletteOr(pal.pop, COLOR_MAGENTA)
    ensures h == Datatype ==> color == PaletteOr(pal.funcVarType, COLOR_BLUE)
    ensures h == FunctionName ==> color == PaletteOr(pal.fname, COLOR_RED)
    ensures h == ConstantVariable ==> color == PaletteOr(pal.num, COLOR_YELLOW)
  {
    match h
    case Comment => PaletteOr(pal.comment, COLOR_WHITE)
    case Keyword => PaletteOr(pal.pop, COLOR_MAGENTA)
    case Datatype => PaletteOr(pal.funcVarType, COLOR_BLUE)
    case FunctionName => PaletteOr(pal.fname, COLOR_RED)
    case ConstantVariable => PaletteOr(pal.num, COLOR_YELLOW)
    case _ => COLOR_RESET
  }

  // ---------------------------------------------------------------- printer output

  /** What the printer sends to the console: a code character, an escape sequence, or a line bar. */
  datatype Token = Ch(c: char) | Esc(code: string) | Bar(offset: u64)

  /**
   * `print_offset_in_binary_line_bar`: offset 0 prints a blank bar; any other
   * offset prints `0x` and the low 32 bits as eight hexadecimal digits
   * (`snprintf` into 11 bytes keeps exactly those ten characters).
   */
  function BarText(offset: u64, colorEnabled: bool, pal: Palette): (s: string)
    ensures !colorEnabled ==> |s| == 19 && s[18] == '|'
  {
    if offset == 0 then "                  |"
    else
      "    " + (if colorEnabled then PaletteOr(pal.offset, COLOR_GREEN) else "")
      + "0x" + HexFixed(offset % U32_MODULUS, 8)
      + (if colorEnabled then COLOR_RESET else "") + "    |"
  }

  /** The console text the tokens stand for. */
  function Render(out: seq<Token>, colorEnabled: bool, pal: Palette): string
  {
    if out == [] then ""
    else
      var t := out[|out| - 1];
      Render(out[..|out| - 1], colorEnabled, pal)
      + match t
        case Ch(c) => [c]
        case Esc(e) => e
        case Bar(o) => BarText(o, colorEnabled, pal)
  }

  /** Each character of the text as printed on its own. */
  function Chars(s: string): (out: seq<Token>)
    ensures |out| == |s| && forall i :: 0 <= i < |s| ==> out[i] == Ch(s[i])
  {
    if s == [] then [] else Chars(s[..|s| - 1]) + [Ch(s[|s| - 1])]
  }

  /** The tokens without the escape sequences. */
  function NoEsc(out: seq<Token>): seq<Token>
  {
    if out == [] then []
    else NoEsc(out[..|out| - 1]) + (if out[|out| - 1].Esc? then [] else [out[|out| - 1]])
  }

  /** The escape sequence in force after the tokens; a line bar ends with a reset. */
  function Active(out: seq<Token>): string
  {
    if out == [] then COLOR_RESET
    else match out[|out| - 1]
      case Esc(e) => e
      case Bar(_) => COLOR_RESET
      case Ch(_) => Active(out[..|out| - 1])
  }

  /** For every code character among the tokens, in order, the escape sequence it is printed in. */
  function Actives(out: seq<Token>): seq<string>
  {
    if out == [] then []
    else Actives(out[..|out| - 1]) + (if out[|out| - 1].Ch? then [Active(out[..|out| - 1])] else [])
  }

  lemma {:induction false} Appended(out: seq<Token>, t: Token)
    ensures NoEsc(out + [t]) == NoEsc(out) + (if t.Esc? then [] else [t])
    ensures Actives(out + [t]) == Actives(out) + (if t.Ch? then [Active(out)] else [])
    ensures Active(out + [t]) == match t case Esc(e) => e case Bar(_) => COLOR_RESET case Ch(_) => Active(out)
  {
    assert (out + [t])[..|out|] == out;
  }

  // ---------------------------------------------------------------- the printed text without colours

  /** Character i starts a line. */
  predicate LineStart(code: string, i: nat)
    requires i < |code|
  {
    i == 0 || code[i - 1] == '\n'
  }

  /** How many lines start before position n. */
  function LinesBefore(code: string, n: nat): nat
    requires n <= |code|
  {
    if n == 0 then 0 else LinesBefore(code, n - 1) + (if LineStart(code, n - 1) then 1 else 0)
  }

  /** The offset shown for line k: the vector's entry, or 0 past its end. */
  function LineOffset(lineOffsets: seq<u64>, k: nat): u64 {
    if k < |lineOffsets| then lineOffsets[k] else 0
  }

  /**
   * What the printer shows of the first n characters once the escape
   * sequences are left out: each character in order, with a bar for the
   * next line offset before every character that starts a line when line
   * offsets are given.
   */
  function Plain(code: string, lineOffsets: Option<seq<u64>>, n: nat): seq<Token>
    requires n <= |code|
  {
    if n == 0 then []
    else Plain(code, lineOffsets, n - 1) + BarBefore(code, lineOffsets, n - 1) + [Ch(code[n - 1])]
  }

  /** The bar shown before character i: one when it starts a line and line offsets are given. */
  function BarBefore(code: string, lineOffsets: Option<seq<u64>>, i: nat): seq<Token>
    requires i < |code|
  {
    if lineOffsets.Some? && LineStart(code, i) then [Bar(LineOffset(lineOffsets.value, LinesBefore(code, i)))] else []
  }

  /** The code characters among the tokens, in order. */
  function CharsOf(out: seq<Token>): string
  {
    if out == [] then [] else CharsOf(out[..|out| - 1]) + (if out[|out| - 1].Ch? then [out[|out| - 1].c] else [])
  }

  /** Appending a token adds its character, if it is one. */
  lemma {:induction false} CharsOfAppend(x: seq<Token>, t: Token)
    ensures CharsOf(x + [t]) == CharsOf(x) + (if t.Ch? then [t.c] else [])
  {
    assert (x + [t])[..|x|] == x;
  }

  /** A line bar shows no code character. */
  lemma {:induction false} CharsOfBar(x: seq<Token>, code: string, lineOffsets: Option<seq<u64>>, i: nat)
    requires i < |code|
    ensures CharsOf(x + BarBefore(code, lineOffsets, i)) == CharsOf(x)
  {
    if BarBefore(code, lineOffsets, i) == [] {
      assert x + [] == x;
    } else {
      CharsOfAppend(x, BarBefore(code, lineOffsets, i)[0]);
    }
  }

  /** The printer shows every character of the code exactly once and in order. */
  lemma {:induction false} PlainShowsCode(code: string, lineOffsets: Option<seq<u64>>, n: nat)
    requires n <= |code|
    ensures CharsOf(Plain(code, lineOffsets, n)) == code[..n]
  {
    if n > 0 {
      PlainShowsCode(code, lineOffsets, n - 1);
      PlainShowsNext(code, lineOffsets, n - 1);
    }
  }

  /** The characters shown so far grow by exactly the next character of the code. */
  lemma {:induction false} PlainShowsNext(code: string, lineOffsets: Option<seq<u64>>, i: nat)
    requires i < |code| && CharsOf(Plain(code, lineOffsets, i)) == code[..i]
    ensures CharsOf(Plain(code, lineOffsets, i + 1)) == code[..i + 1]
  {
    var withBar := Plain(code, lineOffsets, i) + BarBefore(code, lineOffsets, i);
    CharsOfBar(Plain(code, lineOffsets, i), code, lineOffsets, i);
    CharsOfAppend(withBar, Ch(code[i]));
    assert code[..i + 1] == code[..i] + [code[i]];
  }

  /** Without line offsets the printer shows the code characters and nothing else. */
  lemma {:induction false} PlainWithoutBars(code: string, n: nat)
    requires n <= |code|
    ensures Plain(code, None, n) == Chars(code[..n])
  {
    if n > 0 {
      PlainWithoutBars(code, n - 1);
      assert code[..n][..n - 1] == code[..n - 1];
    }
  }

  /** Printed without colour, the tokens are the text itself. */
  lemma {:induction false} RenderChars(s: string, colorEnabled: bool, pal: Palette)
    ensures Render(Chars(s), colorEnabled, pal) == s
    decreases |s|
  {
    if s != [] {
      RenderChars(s[..|s| - 1], colorEnabled, pal);
      assert Chars(s)[..|s| - 1] == Chars(s[..|s| - 1]);
      assert s == s[..|s| - 1] + [s[|s| - 1]];
    }
  }

  /** A list of tokens without escape sequences is its own escape-free form. */
  lemma {:induction false} NoEscFixed(out: seq<Token>)
    requires forall i :: 0 <= i < |out| ==> !out[i].Esc?
    ensures NoEsc(out) == out
  {
    if out != [] {
      NoEscFixed(out[..|out| - 1]);
    }
  }

  /** A character is inside the range of some SYNTAX_HIGHLIGHT annotation. */
  ghost predicate Highlighted(annotations: seq<CodeAnnotation>, i: nat)
  {
    exists k :: 0 <= k < |annotations| && annotations[k].kind.SyntaxHighlight?
      && annotations[k].start <= i < annotations[k].end
  }

  /**
   * What every stage of the printer keeps after the first `cur` characters:
   * the shown prefix, one colour per character shown, the line count. Which
   * colour each one has is stated against `Painted`.
   */
  ghost predicate Printed(code: string, annotations: seq<CodeAnnotation>, colorEnabled: bool,
                          out: seq<Token>, lineOffsets: Option<seq<u64>>, cur: nat, lineIdx: nat)
  {
    cur <= |code| && lineIdx == (if lineOffsets.Some? then LinesBefore(code, cur) else 0)
    && NoEsc(out) == Plain(code, lineOffsets, cur)
    && |Actives(out)| == cur
    && (!colorEnabled ==> NoEsc(out) == out)
  }

  /**
   * The whole code is printed: escape sequences aside, every character once
   * and in order with its line bars; only characters inside a highlight
   * range are in a colour other than the reset; without colours no escape
   * sequence at all.
   */
  ghost predicate PrintedAll(code: string, annotations: seq<CodeAnnotation>, colorEnabled: bool,
                             out: seq<Token>, lineOffsets: Option<seq<u64>>)
  {
    NoEsc(out) == Plain(code, lineOffsets, |code|)
    && |Actives(out)| == |code|
    && (forall i :: 0 <= i < |code| && Actives(out)[i] != COLOR_RESET ==> Highlighted(annotations, i))
    && (!colorEnabled ==> NoEsc(out) == out)
  }

  /** An escape sequence, sent only when colours are on, changes nothing that is shown. */
  lemma {:induction false} EscPrinted(code: string, annotations: seq<CodeAnnotation>, colorEnabled: bool,
                                      out: seq<Token>, lineOffsets: Option<seq<u64>>, cur: nat, lineIdx: nat, e: string)
    requires Printed(code, annotations, colorEnabled, out, lineOffsets, cur, lineIdx) && colorEnabled
    ensures Printed(code, annotations, colorEnabled, out + [Esc(e)], lineOffsets, cur, lineIdx)
    ensures Active(out + [Esc(e)]) == e && Actives(out + [Esc(e)]) == Actives(out)
  {
    Appended(out, Esc(e));
  }

  /** The bar of a line, wrapped in a reset and the current colour again, keeps that colour. */
  lemma {:induction false} WrappedBar(out: seq<Token>, o: u64, color: string)
    ensures NoEsc(out + [Esc(COLOR_RESET), Bar(o), Esc(color)]) == NoEsc(out) + [Bar(o)]
    ensures Actives(out + [Esc(COLOR_RESET), Bar(o), Esc(color)]) == Actives(out)
    ensures Active(out + [Esc(COLOR_RESET), Bar(o), Esc(color)]) == color
  {
    Appended(out, Esc(COLOR_RESET));
    Appended(out + [Esc(COLOR_RESET)], Bar(o));
    Appended(out + [Esc(COLOR_RESET)] + [Bar(o)], Esc(color));
    assert out + [Esc(COLOR_RESET), Bar(o), Esc(color)] == out + [Esc(COLOR_RESET)] + [Bar(o)] + [Esc(color)];
  }

  /**
   * Character `cur`, after whatever `mid` added for its line bar, extends
   * what is printed by one character, in the colour in force.
   */
  lemma {:induction false} CharPrinted(code: string, annotations: seq<CodeAnnotation>, colorEnabled: bool,
                                       out: seq<Token>, mid: seq<Token>, lineOffsets: Option<seq<u64>>,
                                       cur: nat, lineIdx: nat)
    requires Printed(code, annotations, colorEnabled, out, lineOffsets, cur, lineIdx) && cur < |code|
    requires NoEsc(mid) == NoEsc(out) + (if lineOffsets.Some? && LineStart(code, cur)
                                         then [Bar(LineOffset(lineOffsets.value, lineIdx))] else [])
    requires Actives(mid) == Actives(out) && (!colorEnabled ==> NoEsc(mid) == mid)
    ensures Printed(code, annotations, colorEnabled, mid + [Ch(code[cur])], lineOffsets, cur + 1,
                    lineIdx + if lineOffsets.Some? && LineStart(code, cur) then 1 else 0)
    ensures Active(mid + [Ch(code[cur])]) == Active(mid)
    ensures Actives(mid + [Ch(code[cur])]) == Actives(out) + [Active(mid)]
  {
    Appended(mid, Ch(code[cur]));
  }

  // ---------------------------------------------------------------- the colour of each character

  /** n copies of one escape sequence. */
  function Uniform(e: string, n: nat): (r: seq<string>)
    ensures |r| == n && forall i :: 0 <= i < n ==> r[i] == e
  {
    if n == 0 then [] else Uniform(e, n - 1) + [e]
  }

  lemma {:induction false} UniformSnoc(prefix: seq<string>, e: string, n: nat)
    ensures prefix + Uniform(e, n) + [e] == prefix + Uniform(e, n + 1)
  {
  }

  /** Where part (2/3) leaves the cursor: at the annotation's start, or the end of the code, unless already past it. */
  function PlainEnd(a: CodeAnnotation, len: nat, c: nat): (r: nat)
    requires c <= len
    ensures c <= r <= len
  {
    if c < a.start then Min(a.start, len) else c
  }

  /** Where part (3/3) leaves the cursor: at the annotation's end, or the end of the code, unless already past it. */
  function ColoredEnd(a: CodeAnnotation, len: nat, c: nat): (r: nat)
    requires c <= len
    ensures c <= r <= len
  {
    if c < a.end then Min(a.end, len) else c
  }

  /** Where the cursor stands once the first k annotations are handled; other annotations move nothing. */
  function CurAfter(annotations: seq<CodeAnnotation>, len: nat, k: nat): (r: nat)
    requires k <= |annotations|
    ensures r <= len
  {
    if k == 0 then 0
    else
      var c, a := CurAfter(annotations, len, k - 1), annotations[k - 1];
      if a.kind.SyntaxHighlight? then ColoredEnd(a, len, PlainEnd(a, len, c)) else c
  }

  /** The escape sequence a highlight annotation prints its range in. */
  function Shade(a: CodeAnnotation, colorEnabled: bool, pal: Palette): string
    requires a.kind.SyntaxHighlight?
  {
    if colorEnabled then ColorFor(a.kind.highlight, pal) else COLOR_RESET
  }

  /**
   * The colour in force at each character before the cursor once the first
   * k annotations are handled: the reset up to a highlight's part (3/3),
   * then the highlight's colour up to where that part stops.
   */
  function PaintedUpTo(annotations: seq<CodeAnnotation>, len: nat, colorEnabled: bool, pal: Palette, k: nat)
    : (r: seq<string>)
    requires k <= |annotations|
    ensures |r| == CurAfter(annotations, len, k)
  {
    if k == 0 then []
    else
      var prev, c, a := PaintedUpTo(annotations, len, colorEnabled, pal, k - 1),
                        CurAfter(annotations, len, k - 1), annotations[k - 1];
      if a.kind.SyntaxHighlight? then
        var p := PlainEnd(a, len, c);
        prev + Uniform(COLOR_RESET, p - c) + Uniform(Shade(a, colorEnabled, pal), ColoredEnd(a, len, p) - p)
      else prev
  }

  /** Handling annotation k: a highlight appends its reset part, then its coloured part; other kinds add nothing. */
  lemma {:induction false} PaintedStep(annotations: seq<CodeAnnotation>, len: nat, colorEnabled: bool, pal: Palette,
                                       k: nat)
    requires k < |annotations|
    ensures var c, a := CurAfter(annotations, len, k), annotations[k];
      var prev := PaintedUpTo(annotations, len, colorEnabled, pal, k);
      if a.kind.SyntaxHighlight? then
        var p := PlainEnd(a, len, c);
        CurAfter(annotations, len, k + 1) == ColoredEnd(a, len, p) &&
        PaintedUpTo(annotations, len, colorEnabled, pal, k + 1) ==
          prev + Uniform(COLOR_RESET, p - c) + Uniform(Shade(a, colorEnabled, pal), ColoredEnd(a, len, p) - p)
      else
        CurAfter(annotations, len, k + 1) == c && PaintedUpTo(annotations, len, colorEnabled, pal, k + 1) == prev
  {
  }

  /** The colour in force at every character of a code of length `len`: the rest after the last annotation is reset. */
  function Painted(annotations: seq<CodeAnnotation>, len: nat, colorEnabled: bool, pal: Palette): (r: seq<string>)
    ensures |r| == len
  {
    PaintedUpTo(annotations, len, colorEnabled, pal, |annotations|)
    + Uniform(COLOR_RESET, len - CurAfter(annotations, len, |annotations|))
  }

  /**
   * Every character is printed in the reset or in the colour of a highlight
   * annotation whose range holds it.
   */
  lemma {:induction false} PaintedByCovering(annotations: seq<CodeAnnotation>, len: nat, colorEnabled: bool,
                                             pal: Palette, i: nat)
    requires i < len
    ensures var r := Painted(annotations, len, colorEnabled, pal);
      r[i] == COLOR_RESET ||
      exists k :: 0 <= k < |annotations| && annotations[k].kind.SyntaxHighlight?
                  && annotations[k].start <= i < annotations[k].end && r[i] == Shade(annotations[k], colorEnabled, pal)
  {
    var n := |annotations|;
    if i < CurAfter(annotations, len, n) {
      PaintedUpToCovering(annotations, len, colorEnabled, pal, n, i);
    }
  }

  lemma {:induction false} PaintedUpToCovering(annotations: seq<CodeAnnotation>, len: nat, colorEnabled: bool,
                                               pal: Palette, k: nat, i: nat)
    requires k <= |annotations| && i < CurAfter(annotations, len, k)
    ensures var r := PaintedUpTo(annotations, len, colorEnabled, pal, k);
      r[i] == COLOR_RESET ||
      exists j :: 0 <= j < k && annotations[j].kind.SyntaxHighlight?
                  && annotations[j].start <= i < annotations[j].end && r[i] == Shade(annotations[j], colorEnabled, pal)
    decreases k
  {
    var c, a := CurAfter(annotations, len, k - 1), annotations[k - 1];
    var prev := PaintedUpTo(annotations, len, colorEnabled, pal, k - 1);
    var r := PaintedUpTo(annotations, len, colorEnabled, pal, k);
    if i < c {
      PaintedUpToCovering(annotations, len, colorEnabled, pal, k - 1, i);
      assert r[i] == prev[i];
    } else if a.kind.SyntaxHighlight? {
      var p := PlainEnd(a, len, c);
      if p <= i {
        assert r[i] == Shade(a, colorEnabled, pal);
        assert a.start <= i < a.end;
      }
    }
  }

  /** Highlight ranges that are well formed and follow one another without overlapping. */
  ghost predicate InOrder(annotations: seq<CodeAnnotation>)
  {
    (forall k :: 0 <= k < |annotations| && annotations[k].kind.SyntaxHighlight? ==>
       annotations[k].start <= annotations[k].end)
    && forall j, k :: 0 <= j < k < |annotations| && annotations[j].kind.SyntaxHighlight?
                      && annotations[k].kind.SyntaxHighlight?
                      ==> annotations[j].end <= annotations[k].start
  }

  /** While no handled highlight range ends past `bound`, the cursor stays at or before it. */
  lemma {:induction false} CurAfterBelow(annotations: seq<CodeAnnotation>, len: nat, m: nat, bound: nat)
    requires m <= |annotations|
    requires forall j :: 0 <= j < m && annotations[j].kind.SyntaxHighlight? ==>
               annotations[j].start <= annotations[j].end <= bound
    ensures CurAfter(annotations, len, m) <= bound
  {
    if m > 0 {
      CurAfterBelow(annotations, len, m - 1, bound);
    }
  }

  /** Handling further annotations only appends colours. */
  lemma {:induction false} PaintedUpToKeeps(annotations: seq<CodeAnnotation>, len: nat, colorEnabled: bool,
                                            pal: Palette, k: nat, m: nat, i: nat)
    requires k <= m <= |annotations| && i < CurAfter(annotations, len, k)
    ensures i < CurAfter(annotations, len, m)
    ensures PaintedUpTo(annotations, len, colorEnabled, pal, m)[i]
         == PaintedUpTo(annotations, len, colorEnabled, pal, k)[i]
    decreases m - k
  {
    if k < m {
      PaintedStep(annotations, len, colorEnabled, pal, k);
      PaintedUpToKeeps(annotations, len, colorEnabled, pal, k + 1, m, i);
    }
  }

  /**
   * With highlight ranges in order, every character inside a highlight range
   * is printed in that annotation's colour: the palette colour of its kind
   * when colours are on.
   */
  lemma {:induction false} PaintedInRange(annotations: seq<CodeAnnotation>, len: nat, colorEnabled: bool,
                                          pal: Palette, k: nat, i: nat)
    requires InOrder(annotations)
    requires k < |annotations| && annotations[k].kind.SyntaxHighlight?
    requires annotations[k].start <= i < annotations[k].end && i < len
    ensures Painted(annotations, len, colorEnabled, pal)[i]
         == (if colorEnabled then ColorFor(annotations[k].kind.highlight, pal) else COLOR_RESET)
  {
    var a := annotations[k];
    CurAfterBelow(annotations, len, k, a.start);
    PaintedStep(annotations, len, colorEnabled, pal, k);
    var c := CurAfter(annotations, len, k);
    var p := PlainEnd(a, len, c);
    assert p == a.start;
    assert PaintedUpTo(annotations, len, colorEnabled, pal, k + 1)[i] == Shade(a, colorEnabled, pal);
    PaintedUpToKeeps(annotations, len, colorEnabled, pal, k + 1, |annotations|, i);
  }

  /** A complete printout coloured as `Painted` colours only characters inside a highlight range. */
  lemma {:induction false} PaintedPrintedAll(code: string, annotations: seq<CodeAnnotation>, colorEnabled: bool,
                                             out: seq<Token>, lineOffsets: Option<seq<u64>>, lineIdx: nat, pal: Palette)
    requires Printed(code, annotations, colorEnabled, out, lineOffsets, |code|, lineIdx)
    requires Actives(out) == Painted(annotations, |code|, colorEnabled, pal)
    ensures PrintedAll(code, annotations, colorEnabled, out, lineOffsets)
  {
    forall i | 0 <= i < |code| && Actives(out)[i] != COLOR_RESET
      ensures Highlighted(annotations, i)
    {
      PaintedByCovering(annotations, |code|, colorEnabled, pal, i);
    }
  }

  // ---------------------------------------------------------------- the annotated code

  /** `RAnnotatedCode`. */
  class AnnotatedCode {
    var code: string
    var annotations: seq<CodeAnnotation>
    var colorEnabled: bool

    /** `r_annotated_code_new`: the code with no annotations. */
    constructor (code: string)
      ensures this.code == code && annotations == [] && !colorEnabled
    {
      this.code, annotations, colorEnabled := code, [], false;
    }

    /** `r_annotated_code_add_annotation`: appends exactly one annotation at the end. */
    method AddAnnotation(annotation: CodeAnnotation)
      modifies this
      ensures annotations == old(annotations) + [annotation]
      ensures code == old(code) && colorEnabled == old(colorEnabled)
    {
      annotations := annotations + [annotation];
    }

    /** `r_annotated_code_annotations_in`: the annotations covering `offset`, in insertion order. */
    method AnnotationsIn(offset: nat) returns (r: seq<CodeAnnotation>)
      ensures r == Filter(annotations, (a: CodeAnnotation) => a.start <= offset < a.end)
      ensures forall a :: a in r <==> a in annotations && a.start <= offset < a.end
    {
      r := [];
      var i := 0;
      while i < |annotations|
        invariant 0 <= i <= |annotations|
        invariant r == Filter(annotations[..i], (a: CodeAnnotation) => a.start <= offset < a.end)
      {
        assert annotations[..i + 1][..i] == annotations[..i];
        var annotation := annotations[i];
        if offset >= annotation.start && offset < annotation.end {
          r := r + [annotation];
        }
        i := i + 1;
      }
      assert annotations[..i] == annotations;
      forall a ensures a in r <==> a in annotations && a.start <= offset < a.end {
        FilterMembership(annotations, (a: CodeAnnotation) => a.start <= offset < a.end, a);
      }
    }

    /** `PICK_COLOR(color)`: the escape sequence, or nothing when colours are off. */
    function Pick(color: string): (t: seq<Token>)
      reads this
      ensures colorEnabled ==> t == [Esc(color)]
      ensures !colorEnabled ==> t == []
    {
      if colorEnabled then [Esc(color)] else []
    }

    /**
     * Prints character `cur`, preceded by its line bar when it starts a line
     * and line offsets are given. Inside a highlight (`color` is `Some`) the
     * bar is wrapped in a reset and the colour again.
     */
    method PrintChar(out: seq<Token>, lineOffsets: Option<seq<u64>>, cur: nat, lineIdx: nat,
                     color: Option<string>)
      returns (out': seq<Token>, lineIdx': nat)
      requires Printed(code, annotations, colorEnabled, out, lineOffsets, cur, lineIdx) && cur < |code|
      requires Active(out) == if color.Some? && colorEnabled then color.value else COLOR_RESET
      ensures Printed(code, annotations, colorEnabled, out', lineOffsets, cur + 1, lineIdx') && Active(out') == Active(out)
      ensures Actives(out') == Actives(out) + [Active(out)]
    {
      var mid := LineBar(out, lineOffsets, cur, lineIdx, color);
      CharPrinted(code, annotations, colorEnabled, out, mid, lineOffsets, cur, lineIdx);
      out' := mid + [Ch(code[cur])];
      lineIdx' := lineIdx + if lineOffsets.Some? && (cur == 0 || code[cur - 1] == '\n') then 1 else 0;
    }

    /** The bar in front of character `cur` when it starts a line and line offsets are given. */
    method LineBar(out: seq<Token>, lineOffsets: Option<seq<u64>>, cur: nat, lineIdx: nat, color: Option<string>)
      returns (mid: seq<Token>)
      requires cur < |code| && (!colorEnabled ==> NoEsc(out) == out)
      requires Active(out) == if color.Some? && colorEnabled then color.value else COLOR_RESET
      ensures NoEsc(mid) == NoEsc(out) + (if lineOffsets.Some? && LineStart(code, cur)
                                          then [Bar(LineOffset(lineOffsets.value, lineIdx))] else [])
      ensures Actives(mid) == Actives(out) && Active(mid) == Active(out) && (!colorEnabled ==> NoEsc(mid) == mid)
    {
      mid := out;
      if lineOffsets.Some? && (cur == 0 || code[cur - 1] == '\n') {
        var offset := if lineIdx < |lineOffsets.value| then lineOffsets.value[lineIdx] else 0;
        if color.Some? && colorEnabled {
          mid := out + [Esc(COLOR_RESET), Bar(offset), Esc(color.value)];
          WrappedBar(out, offset, color.value);
        } else {
          mid := out + [Bar(offset)];
          Appended(out, Bar(offset));
        }
      }
    }

    /**
     * The loop the printer writes three times: characters while `cur < stop`
     * and `cur < len`, each after its line bar; `color` is the highlight in
     * force, if any.
     */
    method PrintRun(out: seq<Token>, lineOffsets: Option<seq<u64>>, cur: nat, lineIdx: nat, stop: nat,
                    color: Option<string>)
      returns (out': seq<Token>, cur': nat, lineIdx': nat)
      requires Printed(code, annotations, colorEnabled, out, lineOffsets, cur, lineIdx)
      requires Active(out) == if color.Some? && colorEnabled then color.value else COLOR_RESET
      ensures Printed(code, annotations, colorEnabled, out', lineOffsets, cur', lineIdx') && Active(out') == Active(out)
      ensures cur' == if cur < stop then Min(stop, |code|) else cur
      ensures cur <= cur' && Actives(out') == Actives(out) + Uniform(Active(out), cur' - cur)
    {
      out', cur', lineIdx' := out, cur, lineIdx;
      while cur' < stop && cur' < |code|
        invariant cur <= cur' && Printed(code, annotations, colorEnabled, out', lineOffsets, cur', lineIdx')
        invariant Active(out') == Active(out)
        invariant cur' <= Max(cur, Min(stop, |code|))
        invariant Actives(out') == Actives(out) + Uniform(Active(out), cur' - cur)
        decreases |code| - cur'
      {
        out', cur', lineIdx' := RunStep(out, out', lineOffsets, cur, cur', lineIdx', color);
      }
    }

    /** One pass of `PrintRun`'s loop: one more character in the colour the run started with. */
    method RunStep(out: seq<Token>, out': seq<Token>, lineOffsets: Option<seq<u64>>, cur: nat, cur': nat, lineIdx': nat,
                   color: Option<string>)
      returns (out'': seq<Token>, cur'': nat, lineIdx'': nat)
      requires Printed(code, annotations, colorEnabled, out', lineOffsets, cur', lineIdx') && cur <= cur' < |code|
      requires Active(out') == Active(out) && Active(out) == if color.Some? && colorEnabled then color.value else COLOR_RESET
      requires Actives(out') == Actives(out) + Uniform(Active(out), cur' - cur)
      ensures Printed(code, annotations, colorEnabled, out'', lineOffsets, cur'', lineIdx'') && Active(out'') == Active(out)
      ensures cur'' == cur' + 1 && Actives(out'') == Actives(out) + Uniform(Active(out), cur'' - cur)
    {
      out'', lineIdx'' := PrintChar(out', lineOffsets, cur', lineIdx', color);
      cur'' := cur' + 1;
      UniformSnoc(Actives(out), Active(out), cur' - cur);
    }

    /** Part (2/3) and the closing loop: uncoloured characters while `cur < stop`. */
    method PrintPlainUpTo(out: seq<Token>, lineOffsets: Option<seq<u64>>, cur: nat, lineIdx: nat, stop: nat)
      returns (out': seq<Token>, cur': nat, lineIdx': nat)
      requires Printed(code, annotations, colorEnabled, out, lineOffsets, cur, lineIdx) && Active(out) == COLOR_RESET
      ensures Printed(code, annotations, colorEnabled, out', lineOffsets, cur', lineIdx') && Active(out') == COLOR_RESET
      ensures cur' == if cur < stop then Min(stop, |code|) else cur
      ensures cur <= cur' && Actives(out') == Actives(out) + Uniform(COLOR_RESET, cur' - cur)
    {
      out', cur', lineIdx' := PrintRun(out, lineOffsets, cur, lineIdx, stop, None);
    }

    /** Part (3/3): the characters of annotation k's range in its colour, then a reset. */
    method PrintColored(out: seq<Token>, lineOffsets: Option<seq<u64>>, cur: nat, lineIdx: nat, color: string,
                        k: nat)
      returns (out': seq<Token>, cur': nat, lineIdx': nat)
      requires Printed(code, annotations, colorEnabled, out, lineOffsets, cur, lineIdx) && Active(out) == COLOR_RESET
      requires k < |annotations| && annotations[k].kind.SyntaxHighlight?
      requires cur < |code| ==> annotations[k].start <= cur
      ensures Printed(code, annotations, colorEnabled, out', lineOffsets, cur', lineIdx') && Active(out') == COLOR_RESET
      ensures cur' == if cur < annotations[k].end then Min(annotations[k].end, |code|) else cur
      ensures cur <= cur' && Actives(out') == Actives(out) + Uniform(if colorEnabled then color else COLOR_RESET, cur' - cur)
    {
      var start := out + Pick(color);
      if colorEnabled {
        EscPrinted(code, annotations, colorEnabled, out, lineOffsets, cur, lineIdx, color);
      } else {
        assert start == out;
      }
      out', cur', lineIdx' := PrintRun(start, lineOffsets, cur, lineIdx, annotations[k].end, Some(color));
      ghost var run := out';
      out' := out' + Pick(COLOR_RESET);
      if colorEnabled {
        EscPrinted(code, annotations, colorEnabled, run, lineOffsets, cur', lineIdx', COLOR_RESET);
      } else {
        assert out' == run;
      }
    }

    /**
     * One pass of the loop over the annotations: a SYNTAX_HIGHLIGHT one is
     * printed in its colour after the uncoloured part before it, any other
     * kind is skipped.
     */
    method PrintAnnotation(out: seq<Token>, lineOffsets: Option<seq<u64>>, cur: nat, lineIdx: nat, k: nat,
                           pal: Palette)
      returns (out': seq<Token>, cur': nat, lineIdx': nat)
      requires k < |annotations| && Printed(code, annotations, colorEnabled, out, lineOffsets, cur, lineIdx)
      requires Active(out) == COLOR_RESET && cur == CurAfter(annotations, |code|, k)
      requires Actives(out) == PaintedUpTo(annotations, |code|, colorEnabled, pal, k)
      ensures Printed(code, annotations, colorEnabled, out', lineOffsets, cur', lineIdx') && Active(out') == COLOR_RESET
      ensures cur' == CurAfter(annotations, |code|, k + 1)
      ensures Actives(out') == PaintedUpTo(annotations, |code|, colorEnabled, pal, k + 1)
    {
      PaintedStep(annotations, |code|, colorEnabled, pal, k);
      out', cur', lineIdx' := out, cur, lineIdx;
      if annotations[k].kind.SyntaxHighlight? {
        out', cur', lineIdx' := PrintHighlight(out, lineOffsets, cur, lineIdx, k, pal);
      }
    }

    /** Parts (2/3) and (3/3) for a highlight annotation k: reset up to its start, then its colour up to its end. */
    method PrintHighlight(out: seq<Token>, lineOffsets: Option<seq<u64>>, cur: nat, lineIdx: nat, k: nat,
                          pal: Palette)
      returns (out': seq<Token>, cur': nat, lineIdx': nat)
      requires k < |annotations| && annotations[k].kind.SyntaxHighlight?
      requires Printed(code, annotations, colorEnabled, out, lineOffsets, cur, lineIdx) && Active(out) == COLOR_RESET
      ensures Printed(code, annotations, colorEnabled, out', lineOffsets, cur', lineIdx') && Active(out') == COLOR_RESET
      ensures var p := PlainEnd(annotations[k], |code|, cur);
        cur' == ColoredEnd(annotations[k], |code|, p) &&
        Actives(out') == Actives(out) + Uniform(COLOR_RESET, p - cur)
                                      + Uniform(Shade(annotations[k], colorEnabled, pal), cur' - p)
    {
      var annotation := annotations[k];
      var color := ColorFor(annotation.kind.highlight, pal);
      out', cur', lineIdx' := PrintPlainUpTo(out, lineOffsets, cur, lineIdx, annotation.start);
      assert cur' == PlainEnd(annotation, |code|, cur);
      out', cur', lineIdx' := PrintColored(out', lineOffsets, cur', lineIdx', color, k);
    }

    /** The loop over the annotations, in order. */
    method PrintAnnotations(lineOffsets: Option<seq<u64>>, pal: Palette) returns (out: seq<Token>, cur: nat, lineIdx: nat)
      ensures Printed(code, annotations, colorEnabled, out, lineOffsets, cur, lineIdx) && Active(out) == COLOR_RESET
      ensures cur == CurAfter(annotations, |code|, |annotations|)
      ensures Actives(out) == PaintedUpTo(annotations, |code|, colorEnabled, pal, |annotations|)
    {
      cur, lineIdx := 0, 0;
      out := [];
      var k := 0;
      while k < |annotations|
        invariant 0 <= k <= |annotations| && Printed(code, annotations, colorEnabled, out, lineOffsets, cur, lineIdx) && Active(out) == COLOR_RESET
        invariant cur == CurAfter(annotations, |code|, k)
        invariant Actives(out) == PaintedUpTo(annotations, |code|, colorEnabled, pal, k)
      {
        out, cur, lineIdx := PrintAnnotation(out, lineOffsets, cur, lineIdx, k, pal);
        k := k + 1;
      }
    }

    /**
     * `r_annotated_code_print`. Without annotations it prints the code and a
     * newline. Otherwise it walks the annotations in order, skipping all but
     * SYNTAX_HIGHLIGHT ones, and prints each character once: uncoloured up to
     * the annotation's start, coloured up to its end, uncoloured after the
     * last one.
     */
    method Print(lineOffsets: Option<seq<u64>>, pal: Palette) returns (out: seq<Token>)
      ensures annotations == [] ==> out == Chars(code) + [Ch('\n')]
      ensures annotations != [] ==> PrintedAll(code, annotations, colorEnabled, out, lineOffsets)
      ensures annotations != [] ==> Actives(out) == Painted(annotations, |code|, colorEnabled, pal)
    {
      if |annotations| == 0 {
        out := Chars(code) + [Ch('\n')];
        return;
      }
      var cur, lineIdx;
      out, cur, lineIdx := PrintAnnotations(lineOffsets, pal);
      out, cur, lineIdx := PrintPlainUpTo(out, lineOffsets, cur, lineIdx, |code|);
      assert cur == |code|;
      PaintedPrintedAll(code, annotations, colorEnabled, out, lineOffsets, lineIdx, pal);
    }
  }

  /** Escape sequences aside, the printer shows every character of the code once and in order. */
  lemma {:induction false} PrintShowsCode(code: string, annotations: seq<CodeAnnotation>, colorEnabled: bool,
                                          out: seq<Token>, lineOffsets: Option<seq<u64>>)
    requires PrintedAll(code, annotations, colorEnabled, out, lineOffsets)
    ensures CharsOf(NoEsc(out)) == code
  {
    PlainShowsCode(code, lineOffsets, |code|);
    assert code[..|code|] == code;
  }

  /** Without colours and line offsets, a code with annotations prints as exactly its own text. */
  lemma {:induction false} PrintsCodeVerbatim(code: string, annotations: seq<CodeAnnotation>, out: seq<Token>,
                                              pal: Palette)
    requires PrintedAll(code, annotations, false, out, None)
    ensures Render(out, false, pal) == code
  {
    PlainWithoutBars(code, |code|);
    assert code[..|code|] == code;
    RenderChars(code, false, pal);
  }

  /** Lines past the end of the offsets vector show offset 0, which prints as a blank bar. */
  lemma {:induction false} BlankBarPastOffsets(lineOffsets: seq<u64>, k: nat, colorEnabled: bool, pal: Palette)
    requires k >= |lineOffsets|
    ensures BarText(LineOffset(lineOffsets, k), colorEnabled, pal) == Repeat(' ', 18) + "|"
  {
    assert Repeat(' ', 18) + "|" == "                  |";
  }
}
