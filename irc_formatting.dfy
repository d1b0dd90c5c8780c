/**
 * `formatIrcAnnotated` and its helpers: the mIRC control-code scanner that
 * turns a chat line into styled runs of text, the 16-colour palette, the
 * trailing-punctuation trim of found links and the `www.` normalisation.
 *
 * Compose's `SpanStyle` becomes the `SpanStyle` record below, a colour is
 * the unsigned value of its 32-bit ARGB word, and `Color.Unspecified` is
 * `None`. The styled output is the sequence of runs the builder receives,
 * in order.
 */
module IrcFormatting {
  import opened Wrappers
  import Text

  // ---------------------------------------------------------------------
  // Control codes
  // ---------------------------------------------------------------------

  const BoldCode: char := '\U{2}'
  const ItalicCode: char := '\U{1D}'
  const UnderlineCode: char := '\U{1F}'
  const StrikeCode: char := '\U{1E}'
  const InverseCode: char := '\U{16}'
  const ResetCode: char := '\U{F}'
  const ColorCode: char := '\U{3}'
  const HexColorCode: char := '\U{4}'

  /** The five codes that flip one flag each. */
  predicate IsToggle(c: char) {
    c == BoldCode || c == ItalicCode || c == UnderlineCode || c == StrikeCode || c == InverseCode
  }

  /** The characters the scanner acts on; every other character is text. */
  predicate IsControl(c: char) {
    IsToggle(c) || c == ResetCode || c == ColorCode || c == HexColorCode
  }

  predicate NoControl(s: string) {
    forall k :: 0 <= k < |s| ==> !IsControl(s[k])
  }

  // ---------------------------------------------------------------------
  // Style state
  // ---------------------------------------------------------------------

  /** The local `State` record: five flags and the optional foreground and background colours. */
  datatype FormatState = FormatState(
    bold: bool,
    italic: bool,
    underline: bool,
    strike: bool,
    inverse: bool,
    fg: Option<nat>,
    bg: Option<nat>)

  /** `State()`: every flag off, no colours. */
  const Plain: FormatState := FormatState(false, false, false, false, false, None, None)

  /** The state change of one toggle code. */
  function Toggle(st: FormatState, c: char): (r: FormatState)
    requires IsToggle(c)
    ensures r.bold == (st.bold != (c == BoldCode)) && r.italic == (st.italic != (c == ItalicCode))
    ensures r.underline == (st.underline != (c == UnderlineCode)) && r.strike == (st.strike != (c == StrikeCode))
    ensures r.inverse == (st.inverse != (c == InverseCode))
    ensures r.fg == st.fg && r.bg == st.bg
  {
    if c == BoldCode then st.(bold := !st.bold)
    else if c == ItalicCode then st.(italic := !st.italic)
    else if c == UnderlineCode then st.(underline := !st.underline)
    else if c == StrikeCode then st.(strike := !st.strike)
    else st.(inverse := !st.inverse)
  }

  /** The same toggle twice leaves the state as it was. */
  lemma ToggleTwice(st: FormatState, c: char)
    requires IsToggle(c)
    ensures Toggle(Toggle(st, c), c) == st
  {
  }

  /** `TextDecoration`: none, underline, line-through, or both combined. */
  datatype Decoration = NoDecoration | Underline | LineThrough | UnderlineAndLineThrough

  /** The parts of Compose's `SpanStyle` the scanner sets; `None` colours are `Color.Unspecified`. */
  datatype SpanStyle = SpanStyle(
    color: Option<nat>,
    background: Option<nat>,
    semiBold: bool,
    italic: bool,
    decoration: Decoration)

  /** `currentStyle()`: inverse swaps in the background as text colour, backgrounds may be disabled. */
  function CurrentStyle(st: FormatState, stripColors: bool, allowBackgrounds: bool): (r: SpanStyle)
    ensures r.semiBold == st.bold && r.italic == st.italic
    ensures (r.decoration == NoDecoration <==> !st.underline && !st.strike)
            && (r.decoration == UnderlineAndLineThrough <==> st.underline && st.strike)
            && (r.decoration == Underline ==> !st.strike)
            && (r.decoration == LineThrough ==> !st.underline)
    ensures stripColors ==> r.color.None? && r.background.None?
    ensures !allowBackgrounds ==> r.background.None?
    ensures !st.inverse && !stripColors ==> r.color == st.fg && r.background == (if allowBackgrounds then st.bg else None)
    ensures st.inverse && !stripColors && allowBackgrounds && st.bg.Some? ==> r.color == st.bg && r.background == st.fg
  {
    var fg := if stripColors then None else st.fg;
    var bg := if stripColors || !allowBackgrounds then None else st.bg;
    var color := if st.inverse && bg.Some? then bg else fg;
    var background := if !allowBackgrounds then None else if st.inverse && color.Some? then st.fg else bg;
    SpanStyle(
      color,
      background,
      st.bold,
      st.italic,
      if st.underline && st.strike then UnderlineAndLineThrough
      else if st.underline then Underline
      else if st.strike then LineThrough
      else NoDecoration)
  }

  // ---------------------------------------------------------------------
  // Colours
  // ---------------------------------------------------------------------

  /**
   * `(0xFF shl 24) or rgb` and `rgb or 0xFF000000`, as an unsigned 32-bit word:
   * the alpha byte and a 24-bit colour occupy disjoint bits, so the `or` is their sum.
   */
  function Opaque(rgb: nat): nat
    requires rgb < 0x100_0000
  {
    0xFF00_0000 + rgb
  }

  /** The 16 mIRC colours as RGB. */
  const MircTable: seq<nat> := [
    0xFFFFFF, 0x000000, 0x00007F, 0x009300, 0xFF0000, 0x7F0000, 0x9C009C, 0xFC7F00,
    0xFFFF00, 0x00FC00, 0x009393, 0x00FFFF, 0x0000FC, 0xFF00FF, 0x7F7F7F, 0xD2D2D2]

  /** Kotlin's `%` on `Int`: the remainder takes the sign of the dividend. */
  function KotlinRem(a: int, b: int): (r: int)
    requires b > 0
    ensures -b < r < b
    ensures a >= 0 ==> r == a % b
    ensures a < 0 ==> r <= 0
  {
    if a >= 0 then a % b else -((-a) % b)
  }

  /** `mircPalette`: the guarded index, folded onto the 16 colours, fully opaque. */
  function MircPalette(n: int): (c: nat)
    ensures c == Opaque(MircTable[(n % 100) % 16])
  {
    var idx := KotlinRem(KotlinRem(n, 100) + 100, 100);
    RemGuard(n);
    Opaque(if 0 <= idx <= 15 then MircTable[idx] else MircTable[idx % 16])
  }

  /** The codes 0 to 99 fold onto the table by their remainder modulo 16. */
  lemma MircPaletteOfCode(n: int)
    requires 0 <= n < 100
    ensures MircPalette(n) == Opaque(MircTable[n % 16])
  {
    assert n % 100 == n;
  }

  /** Through the guard, the palette repeats every 100 codes, negative ones included. */
  lemma MircPalettePeriodic(n: int)
    ensures MircPalette(n + 100) == MircPalette(n)
  {
    assert (n + 100) % 100 == n % 100;
  }

  /** The guard `((n % 100) + 100) % 100` is the non-negative remainder. */
  lemma RemGuard(n: int)
    ensures KotlinRem(KotlinRem(n, 100) + 100, 100) == n % 100
  {
    if n < 0 {
      var m := -n;
      var q, s := m / 100, m % 100;
      assert m == 100 * q + s;
      if s == 0 {
        assert n == 100 * (-q);
      } else {
        assert n == 100 * (-q - 1) + (100 - s);
      }
    }
  }

  /** Six hexadecimal digits fit in 24 bits. */
  lemma SixHexDigits(s: string)
    requires |s| == 6 && Text.AllHex(s)
    ensures Text.HexNumber(s) < 0x100_0000
  {
    assert Text.HexBound(1) == 16;
    assert Text.HexBound(2) == 256;
    assert Text.HexBound(3) == 4096;
    assert Text.HexBound(4) == 65536;
    assert Text.HexBound(5) == 1048576;
    assert Text.HexBound(6) == 16777216;
  }

  // ---------------------------------------------------------------------
  // The arguments of ^C and ^D
  // ---------------------------------------------------------------------

  /** `readNumber()`: up to two decimal digits at `i`, and where reading stopped. */
  function NumberAt(input: string, i: nat): (r: (Option<nat>, nat))
    requires i <= |input|
    ensures i <= r.1 <= i + 2 && r.1 <= |input|
    ensures r.0.None? <==> r.1 == i
    ensures r.0.None? <==> i == |input| || !Text.IsDigit(input[i])
    ensures Text.AllDigits(input[i..r.1]) && (r.0.Some? ==> r.0.value == Text.DigitsValue(input[i..r.1]))
    ensures r.1 == i + 1 ==> r.1 == |input| || !Text.IsDigit(input[r.1])
  {
    if i < |input| && Text.IsDigit(input[i]) then
      if i + 1 < |input| && Text.IsDigit(input[i + 1]) then
        assert input[i..i + 2][..1] == input[i..i + 1];
        assert input[i..i + 1][..0] == [];
        assert Text.DigitsValue(input[i..i + 1]) == Text.DigitValue(input[i]);
        assert Text.DigitsValue(input[i..i + 2]) == Text.DigitsValue(input[i..i + 1]) * 10 + Text.DigitValue(input[i + 1]);
        (Some(Text.DigitValue(input[i]) * 10 + Text.DigitValue(input[i + 1])), i + 2)
      else
        assert input[i..i + 1][..0] == [];
        (Some(Text.DigitValue(input[i])), i + 1)
    else (None, i)
  }

  /** `readHex(6)`: six hexadecimal digits at `i`, or nothing consumed. */
  function HexAt(input: string, i: nat): (r: (Option<nat>, nat))
    requires i <= |input|
    ensures r.0.Some? <==> i + 6 <= |input| && Text.AllHex(input[i..i + 6])
    ensures r.1 == if r.0.Some? then i + 6 else i
    ensures r.0.Some? ==> r.0.value == Text.HexNumber(input[i..i + 6]) && r.0.value < 0x100_0000
  {
    if i + 6 > |input| then (None, i)
    else
      var s := input[i..i + 6];
      if Text.AllHex(s) then
        SixHexDigits(s);
        (Some(Text.HexNumber(s)), i + 6)
      else (None, i)
  }

  /** The palette colour of a read number, if one was read. */
  function PaletteOf(n: Option<nat>): Option<nat> {
    match n
    case Some(v) => Some(MircPalette(v))
    case None => None
  }

  /** The opaque colour of a read hex group, if one was read. */
  function HexColorOf(n: Option<nat>): Option<nat>
    requires n.Some? ==> n.value < 0x100_0000
  {
    match n
    case Some(v) => Some(Opaque(v))
    case None => None
  }

  /** The 0x03 branch from just after the code: `NN[,MM]`, and where scanning resumes. */
  function ColorArgs(input: string, i: nat, st: FormatState, stripColors: bool): (r: (FormatState, nat))
    requires i <= |input|
    ensures i <= r.1 <= i + 5 && r.1 <= |input|
    ensures r.0 == st.(fg := r.0.fg, bg := r.0.bg)
    ensures i == |input| || (!Text.IsDigit(input[i]) && input[i] != ',') ==> r == (st.(fg := None, bg := None), i)
    ensures stripColors ==> r.0.fg.None? && r.0.bg.None?
    ensures r.1 > i && !stripColors && Text.IsDigit(input[i]) ==> r.0.fg == PaletteOf(NumberAt(input, i).0)
  {
    var (fgNum, j1) := NumberAt(input, i);
    var hasComma := j1 < |input| && input[j1] == ',';
    var (bgNum, j2) := if hasComma then NumberAt(input, j1 + 1) else (None, j1);
    var st1 :=
      if fgNum.None? && !hasComma then st.(fg := None, bg := None)
      else if !stripColors then st.(fg := PaletteOf(fgNum), bg := if hasComma then PaletteOf(bgNum) else st.bg)
      else st.(fg := None, bg := None);
    (st1, j2)
  }

  /** The 0x04 branch from just after the code: `RRGGBB[,RRGGBB]`, and where scanning resumes. */
  function HexArgs(input: string, i: nat, st: FormatState, stripColors: bool): (r: (FormatState, nat))
    requires i <= |input|
    ensures i <= r.1 <= i + 13 && r.1 <= |input|
    ensures r.0 == st.(fg := r.0.fg, bg := r.0.bg)
    ensures HexAt(input, i).0.None? && (i == |input| || input[i] != ',') ==> r == (st.(fg := None, bg := None), i)
    ensures stripColors ==> r.0.fg.None? && r.0.bg.None?
    ensures !stripColors && HexAt(input, i).0.Some? ==> r.0.fg == Some(0xFF00_0000 + HexAt(input, i).0.value)
  {
    var (fgHex, j1) := HexAt(input, i);
    var hasComma := j1 < |input| && input[j1] == ',';
    var (bgHex, j2) := if hasComma then HexAt(input, j1 + 1) else (None, j1);
    var st1 :=
      if fgHex.None? && !hasComma then st.(fg := None, bg := None)
      else if !stripColors then st.(fg := HexColorOf(fgHex), bg := if hasComma then HexColorOf(bgHex) else st.bg)
      else st.(fg := None, bg := None);
    (st1, j2)
  }

  /** The branch of the `when` block for the control code at `i`: the new state and where scanning resumes. */
  function Control(input: string, i: nat, st: FormatState, stripColors: bool): (r: (FormatState, nat))
    requires i < |input| && IsControl(input[i])
    ensures i < r.1 <= |input|
  {
    var c := input[i];
    if IsToggle(c) then (Toggle(st, c), i + 1)
    else if c == ResetCode then (Plain, i + 1)
    else if c == ColorCode then ColorArgs(input, i + 1, st, stripColors)
    else HexArgs(input, i + 1, st, stripColors)
  }

  /** 0x0F clears every flag and both colours, whatever the state. */
  lemma ResetClears(input: string, i: nat, st: FormatState, stripColors: bool)
    requires i < |input| && input[i] == ResetCode
    ensures Control(input, i, st, stripColors) == (Plain, i + 1)
  {
  }

  /** With `stripColors`, no control code ever gives the state a colour. */
  lemma StripKeepsColorless(input: string, i: nat, st: FormatState)
    requires i < |input| && IsControl(input[i])
    requires st.fg.None? && st.bg.None?
    ensures Control(input, i, st, true).0.fg.None? && Control(input, i, st, true).0.bg.None?
  {
  }

  // ---------------------------------------------------------------------
  // The scanner
  // ---------------------------------------------------------------------

  /** A run of text and the style it was appended with. */
  datatype Segment = Segment(style: SpanStyle, text: string)

  /** `flush(until)`: the text since `openAt`, styled, if there is any. */
  function Flush(input: string, openAt: nat, until: nat, style: SpanStyle): (r: seq<Segment>)
    requires openAt <= until <= |input|
    ensures |r| <= 1
    ensures r == [] <==> until == openAt
    ensures r != [] ==> r[0] == Segment(style, input[openAt..until])
  {
    if until > openAt then [Segment(style, input[openAt..until])] else []
  }

  /** The runs the scanner emits from position `i`, with text open since `openAt` in state `st`. */
  function FormatFrom(input: string, i: nat, openAt: nat, st: FormatState, stripColors: bool, allowBackgrounds: bool)
    : seq<Segment>
    requires openAt <= i <= |input|
    decreases |input| - i
  {
    if i == |input| then Flush(input, openAt, i, CurrentStyle(st, stripColors, allowBackgrounds))
    else if !IsControl(input[i]) then FormatFrom(input, i + 1, openAt, st, stripColors, allowBackgrounds)
    else
      var next := Control(input, i, st, stripColors);
      Flush(input, openAt, i, CurrentStyle(st, stripColors, allowBackgrounds))
      + FormatFrom(input, next.1, next.1, next.0, stripColors, allowBackgrounds)
  }

  /** The runs of `formatIrcAnnotated(input, stripColors, allowBackgrounds)`. */
  function Format(input: string, stripColors: bool, allowBackgrounds: bool): seq<Segment> {
    FormatFrom(input, 0, 0, Plain, stripColors, allowBackgrounds)
  }

  /** The text of a sequence of runs, concatenated. */
  function Texts(segs: seq<Segment>): string {
    if segs == [] then "" else segs[0].text + Texts(segs[1..])
  }

  /** `formatIrcAnnotated`'s scanning loop, emitting the runs it appends to the builder. */
  method FormatIrcAnnotated(input: string, stripColors: bool, allowBackgrounds: bool) returns (segments: seq<Segment>)
    ensures segments == Format(input, stripColors, allowBackgrounds)
  {
    var state := Plain;
    var i: nat := 0;
    var openAt: nat := 0;
    var openStyle := CurrentStyle(state, stripColors, allowBackgrounds);
    segments := [];
    while i < |input|
      invariant openAt <= i <= |input|
      invariant openStyle == CurrentStyle(state, stripColors, allowBackgrounds)
      invariant segments + FormatFrom(input, i, openAt, state, stripColors, allowBackgrounds)
                == Format(input, stripColors, allowBackgrounds)
      decreases |input| - i
    {
      var ch := input[i];
      if IsControl(ch) {
        // flush(i)
        segments := segments + Flush(input, openAt, i, openStyle);
        state, i := ControlStep(input, i, state, stripColors);
        openAt := i;
        openStyle := CurrentStyle(state, stripColors, allowBackgrounds);
      } else {
        i := i + 1;
      }
    }
    // Append the rest
    segments := segments + Flush(input, openAt, |input|, openStyle);
  }

  /** The state updates of the `when` branches for the control code at `i`, consuming its arguments. */
  method ControlStep(input: string, i: nat, st: FormatState, stripColors: bool) returns (st1: FormatState, next: nat)
    requires i < |input| && IsControl(input[i])
    ensures (st1, next) == Control(input, i, st, stripColors)
  {
    var ch := input[i];
    st1 := st;
    next := i + 1;
    if ch == BoldCode {
      st1 := st1.(bold := !st1.bold);
    } else if ch == ItalicCode {
      st1 := st1.(italic := !st1.italic);
    } else if ch == UnderlineCode {
      st1 := st1.(underline := !st1.underline);
    } else if ch == StrikeCode {
      st1 := st1.(strike := !st1.strike);
    } else if ch == InverseCode {
      st1 := st1.(inverse := !st1.inverse);
    } else if ch == ResetCode {
      st1 := st1.(bold := false, italic := false, underline := false, strike := false, inverse := false,
                  fg := None, bg := None);
    } else if ch == ColorCode {
      st1, next := ColorStep(input, next, st1, stripColors);
    } else {
      st1, next := HexStep(input, next, st1, stripColors);
    }
  }

  /** The 0x03 branch after the code: read `NN[,MM]` and set or clear the colours. */
  method ColorStep(input: string, i: nat, st: FormatState, stripColors: bool) returns (st1: FormatState, next: nat)
    requires i <= |input|
    ensures (st1, next) == ColorArgs(input, i, st, stripColors)
  {
    st1 := st;
    var fgNum, bgNum: Option<nat>;
    fgNum, next := ReadNumber(input, i);
    var hasComma := next < |input| && input[next] == ',';
    bgNum := None;
    if hasComma {
      next := next + 1;
      bgNum, next := ReadNumber(input, next);
    }
    if fgNum.None? && !hasComma {
      // ^C with no args => reset colors
      st1 := st1.(fg := None, bg := None);
    } else if !stripColors {
      st1 := st1.(fg := PaletteOf(fgNum));
      if hasComma {
        st1 := st1.(bg := PaletteOf(bgNum));
      }
    } else {
      st1 := st1.(fg := None, bg := None);
    }
  }

  /** The 0x04 branch after the code: read `RRGGBB[,RRGGBB]` and set or clear the colours. */
  method HexStep(input: string, i: nat, st: FormatState, stripColors: bool) returns (st1: FormatState, next: nat)
    requires i <= |input|
    ensures (st1, next) == HexArgs(input, i, st, stripColors)
  {
    st1 := st;
    var fgHex, bgHex: Option<nat>;
    fgHex, next := ReadHex(input, i);
    var hasComma := next < |input| && input[next] == ',';
    bgHex := None;
    if hasComma {
      next := next + 1;
      bgHex, next := ReadHex(input, next);
    }
    if fgHex.None? && !hasComma {
      st1 := st1.(fg := None, bg := None);
    } else if !stripColors {
      st1 := st1.(fg := HexColorOf(fgHex));
      if hasComma {
        st1 := st1.(bg := HexColorOf(bgHex));
      }
    } else {
      st1 := st1.(fg := None, bg := None);
    }
  }

  /** `readNumber()`, advancing past the digits it reads. */
  method ReadNumber(input: string, i: nat) returns (value: Option<nat>, next: nat)
    requires i <= |input|
    ensures (value, next) == NumberAt(input, i)
  {
    next := i;
    if !(next < |input| && Text.IsDigit(input[next])) {
      return None, next;
    }
    var v := Text.DigitValue(input[next]);
    next := next + 1;
    if next < |input| && Text.IsDigit(input[next]) {
      v := v * 10 + Text.DigitValue(input[next]);
      next := next + 1;
    }
    value := Some(v);
  }

  /** `readHex(6)`, advancing past the group only when all six characters are hexadecimal digits. */
  method ReadHex(input: string, i: nat) returns (value: Option<nat>, next: nat)
    requires i <= |input|
    ensures (value, next) == HexAt(input, i)
  {
    if i + 6 > |input| {
      return None, i;
    }
    var s := input[i..i + 6];
    if !Text.AllHex(s) {
      return None, i;
    }
    return Some(Text.HexNumber(s)), i + 6;
  }

  // ---------------------------------------------------------------------
  // What the scanner guarantees
  // ---------------------------------------------------------------------

  /** Every run is non-empty and free of control codes. */
  predicate Clean(r: seq<Segment>) {
    forall n :: 0 <= n < |r| ==> r[n].text != [] && NoControl(r[n].text)
  }

  lemma {:induction false} FormatFromClean(input: string, i: nat, openAt: nat, st: FormatState, stripColors: bool,
                                           allowBackgrounds: bool)
    requires openAt <= i <= |input|
    requires NoControl(input[openAt..i])
    ensures Clean(FormatFrom(input, i, openAt, st, stripColors, allowBackgrounds))
    decreases |input| - i
  {
    if i < |input| {
      if !IsControl(input[i]) {
        assert input[openAt..i + 1] == input[openAt..i] + [input[i]];
        assert FormatFrom(input, i, openAt, st, stripColors, allowBackgrounds)
            == FormatFrom(input, i + 1, openAt, st, stripColors, allowBackgrounds);
        FormatFromClean(input, i + 1, openAt, st, stripColors, allowBackgrounds);
      } else {
        var next := Control(input, i, st, stripColors);
        var f := Flush(input, openAt, i, CurrentStyle(st, stripColors, allowBackgrounds));
        var rest := FormatFrom(input, next.1, next.1, next.0, stripColors, allowBackgrounds);
        assert input[next.1..next.1] == [];
        FormatFromClean(input, next.1, next.1, next.0, stripColors, allowBackgrounds);
        assert FormatFrom(input, i, openAt, st, stripColors, allowBackgrounds) == f + rest;
        assert forall n :: 0 <= n < |f| ==> f[n].text == input[openAt..i];
      }
    }
  }

  /** The formatted text holds no control code, and no run is empty. */
  lemma FormatClean(input: string, stripColors: bool, allowBackgrounds: bool)
    ensures Clean(Format(input, stripColors, allowBackgrounds))
  {
    assert input[0..0] == [];
    FormatFromClean(input, 0, 0, Plain, stripColors, allowBackgrounds);
  }

  /** From a point after which no control code follows, what is open is emitted as one run. */
  lemma {:induction false} FormatFromPlain(input: string, i: nat, openAt: nat, st: FormatState, stripColors: bool,
                                           allowBackgrounds: bool)
    requires openAt <= i <= |input|
    requires NoControl(input[i..])
    ensures FormatFrom(input, i, openAt, st, stripColors, allowBackgrounds)
            == Flush(input, openAt, |input|, CurrentStyle(st, stripColors, allowBackgrounds))
    decreases |input| - i
  {
    if i < |input| {
      assert input[i..][0] == input[i] && input[i..][1..] == input[i + 1..];
      FormatFromPlain(input, i + 1, openAt, st, stripColors, allowBackgrounds);
    }
  }

  /** A line without control codes comes out unchanged, as one run in the initial style (none when empty). */
  lemma PlainLineUnchanged(input: string, stripColors: bool, allowBackgrounds: bool)
    requires NoControl(input)
    ensures Format(input, stripColors, allowBackgrounds)
            == if input == [] then [] else [Segment(SpanStyle(None, None, false, false, NoDecoration), input)]
  {
    assert input[0..] == input;
    FormatFromPlain(input, 0, 0, Plain, stripColors, allowBackgrounds);
    assert input[0..|input|] == input;
  }

  /** `a` can be obtained from `b` by deleting characters. */
  predicate IsSubsequence(a: string, b: string)
    decreases |b|
  {
    a == [] || (b != [] && ((a[0] == b[0] && IsSubsequence(a[1..], b[1..])) || IsSubsequence(a, b[1..])))
  }

  lemma {:induction false} SubsequenceSelf(a: string)
    ensures IsSubsequence(a, a)
    decreases |a|
  {
    if a != [] {
      SubsequenceSelf(a[1..]);
    }
  }

  /** Characters in front of `b` may be skipped. */
  lemma {:induction false} SubsequenceSkip(a: string, x: string, b: string)
    requires IsSubsequence(a, b)
    ensures IsSubsequence(a, x + b)
    decreases |x|
  {
    if x != [] {
      assert (x + b)[1..] == x[1..] + b;
      SubsequenceSkip(a, x[1..], b);
    } else {
      assert x + b == b;
    }
  }

  /** Subsequences of the two halves make a subsequence of the whole. */
  lemma {:induction false} SubsequenceAppend(a1: string, b1: string, a2: string, b2: string)
    requires IsSubsequence(a1, b1) && IsSubsequence(a2, b2)
    ensures IsSubsequence(a1 + a2, b1 + b2)
    decreases |b1|
  {
    if a1 == [] {
      assert a1 + a2 == a2;
      SubsequenceSkip(a2, b1, b2);
    } else {
      assert (b1 + b2)[1..] == b1[1..] + b2;
      if a1[0] == b1[0] && IsSubsequence(a1[1..], b1[1..]) {
        SubsequenceAppend(a1[1..], b1[1..], a2, b2);
        assert (a1 + a2)[1..] == a1[1..] + a2;
      } else {
        SubsequenceAppend(a1, b1[1..], a2, b2);
      }
    }
  }

  lemma {:induction false} TextsAppend(x: seq<Segment>, y: seq<Segment>)
    ensures Texts(x + y) == Texts(x) + Texts(y)
    decreases |x|
  {
    if x != [] {
      assert (x + y)[1..] == x[1..] + y;
      TextsAppend(x[1..], y);
    } else {
      assert x + y == y;
    }
  }

  /** The emitted text from `i` on is a subsequence of the input from `openAt` on. */
  lemma FormatFromSubsequence(input: string, i: nat, openAt: nat, st: FormatState,
                              stripColors: bool, allowBackgrounds: bool)
    requires openAt <= i <= |input|
    ensures IsSubsequence(Texts(FormatFrom(input, i, openAt, st, stripColors, allowBackgrounds)), input[openAt..])
  {
    FormatFromText(input, i, openAt, st, stripColors, allowBackgrounds);
    StrippedSubsequence(input, i);
    SubsequenceSelf(input[openAt..i]);
    SubsequenceAppend(input[openAt..i], input[openAt..i], Stripped(input, i), input[i..]);
    assert input[openAt..i] + input[i..] == input[openAt..];
  }

  /** What stripping leaves is a subsequence of what it started from. */
  lemma {:induction false} StrippedSubsequence(input: string, i: nat)
    requires i <= |input|
    ensures IsSubsequence(Stripped(input, i), input[i..])
    decreases |input| - i
  {
    if i < |input| {
      if IsControl(input[i]) {
        var j := CodeEnd(input, i);
        StrippedDrops(input, i);
        StrippedSubsequence(input, j);
        SubsequenceSkip(Stripped(input, j), input[i..j], input[j..]);
        assert input[i..j] + input[j..] == input[i..];
      } else {
        StrippedKeeps(input, i);
        StrippedSubsequence(input, i + 1);
        SubsequenceCons(input[i], Stripped(input, i + 1), input[i + 1..]);
        assert [input[i]] + input[i + 1..] == input[i..];
      }
    }
  }

  /** Stripping drops a control code and its arguments. */
  lemma StrippedDrops(input: string, i: nat)
    requires i < |input| && IsControl(input[i])
    ensures Stripped(input, i) == Stripped(input, CodeEnd(input, i))
  {
  }

  /** A character in front of both keeps a subsequence. */
  lemma SubsequenceCons(c: char, a: string, b: string)
    requires IsSubsequence(a, b)
    ensures IsSubsequence([c] + a, [c] + b)
  {
    assert ([c] + a)[1..] == a && ([c] + b)[1..] == b;
  }

  /** The formatted text is the input with characters deleted. */
  lemma FormatSubsequence(input: string, stripColors: bool, allowBackgrounds: bool)
    ensures IsSubsequence(Texts(Format(input, stripColors, allowBackgrounds)), input)
  {
    FormatFromSubsequence(input, 0, 0, Plain, stripColors, allowBackgrounds);
    assert input[0..] == input;
  }

  /** Where the `NN[,MM]` arguments of a 0x03 code end, when they start at `i`. */
  function ColorSpanEnd(input: string, i: nat): nat
    requires i <= |input|
  {
    var j := NumberAt(input, i).1;
    if j < |input| && input[j] == ',' then NumberAt(input, j + 1).1 else j
  }

  /** Where the `RRGGBB[,RRGGBB]` arguments of a 0x04 code end, when they start at `i`. */
  function HexSpanEnd(input: string, i: nat): nat
    requires i <= |input|
  {
    var j := HexAt(input, i).1;
    if j < |input| && input[j] == ',' then HexAt(input, j + 1).1 else j
  }

  /** The end of the control code at `i` together with its arguments, whatever the style state. */
  function CodeEnd(input: string, i: nat): (r: nat)
    requires i < |input| && IsControl(input[i])
    ensures i < r <= |input|
  {
    if input[i] == ColorCode then ColorSpanEnd(input, i + 1)
    else if input[i] == HexColorCode then HexSpanEnd(input, i + 1)
    else i + 1
  }

  /** The input from `i` on with every control code and its arguments deleted, and nothing else. */
  function Stripped(input: string, i: nat): string
    requires i <= |input|
    decreases |input| - i
  {
    if i == |input| then []
    else if !IsControl(input[i]) then [input[i]] + Stripped(input, i + 1)
    else Stripped(input, CodeEnd(input, i))
  }

  /** The scanner resumes where the code's arguments end, in every state. */
  lemma ControlSpan(input: string, i: nat, st: FormatState, stripColors: bool)
    requires i < |input| && IsControl(input[i])
    ensures Control(input, i, st, stripColors).1 == CodeEnd(input, i)
  {
  }

  /** The emitted text from `i` on is the open text followed by the rest with the codes deleted. */
  lemma {:induction false} FormatFromText(input: string, i: nat, openAt: nat, st: FormatState,
                                          stripColors: bool, allowBackgrounds: bool)
    requires openAt <= i <= |input|
    ensures Texts(FormatFrom(input, i, openAt, st, stripColors, allowBackgrounds))
            == input[openAt..i] + Stripped(input, i)
    decreases |input| - i
  {
    if i == |input| {
      var f := Flush(input, openAt, i, CurrentStyle(st, stripColors, allowBackgrounds));
      assert FormatFrom(input, i, openAt, st, stripColors, allowBackgrounds) == f;
      assert Texts(f) == input[openAt..i] by {
        if f != [] {
          assert Texts(f) == input[openAt..i] + Texts([]);
        }
      }
    } else if !IsControl(input[i]) {
      FormatAtText(input, i, openAt, st, stripColors, allowBackgrounds);
    } else {
      FormatAtCode(input, i, openAt, st, stripColors, allowBackgrounds);
    }
  }

  /** The step of `FormatFromText` at an ordinary character. */
  lemma {:induction false} FormatAtText(input: string, i: nat, openAt: nat, st: FormatState,
                                        stripColors: bool, allowBackgrounds: bool)
    requires openAt <= i < |input| && !IsControl(input[i])
    ensures Texts(FormatFrom(input, i, openAt, st, stripColors, allowBackgrounds))
            == input[openAt..i] + Stripped(input, i)
    decreases |input| - i, 0
  {
    calc {
      Texts(FormatFrom(input, i, openAt, st, stripColors, allowBackgrounds));
      == { FormatFromSkips(input, i, openAt, st, stripColors, allowBackgrounds); }
      Texts(FormatFrom(input, i + 1, openAt, st, stripColors, allowBackgrounds));
      == { FormatFromText(input, i + 1, openAt, st, stripColors, allowBackgrounds); }
      input[openAt..i + 1] + Stripped(input, i + 1);
      == { assert input[openAt..i + 1] == input[openAt..i] + [input[i]]; }
      input[openAt..i] + ([input[i]] + Stripped(input, i + 1));
      == { StrippedKeeps(input, i); }
      input[openAt..i] + Stripped(input, i);
    }
  }

  /** The scanner steps over an ordinary character. */
  lemma FormatFromSkips(input: string, i: nat, openAt: nat, st: FormatState,
                        stripColors: bool, allowBackgrounds: bool)
    requires openAt <= i < |input| && !IsControl(input[i])
    ensures FormatFrom(input, i, openAt, st, stripColors, allowBackgrounds)
            == FormatFrom(input, i + 1, openAt, st, stripColors, allowBackgrounds)
  {
  }

  /** Stripping keeps an ordinary character. */
  lemma StrippedKeeps(input: string, i: nat)
    requires i < |input| && !IsControl(input[i])
    ensures Stripped(input, i) == [input[i]] + Stripped(input, i + 1)
  {
  }

  /** The step of `FormatFromText` at a control code. */
  lemma {:induction false} FormatAtCode(input: string, i: nat, openAt: nat, st: FormatState,
                                        stripColors: bool, allowBackgrounds: bool)
    requires openAt <= i < |input| && IsControl(input[i])
    ensures Texts(FormatFrom(input, i, openAt, st, stripColors, allowBackgrounds))
            == input[openAt..i] + Stripped(input, i)
    decreases |input| - i, 0
  {
    var next := Control(input, i, st, stripColors);
    FormatAtCodeText(input, i, openAt, st, stripColors, allowBackgrounds);
    FormatFromText(input, next.1, next.1, next.0, stripColors, allowBackgrounds);
    assert input[next.1..next.1] == [];
    ControlSpan(input, i, st, stripColors);
    StrippedDrops(input, i);
  }

  /** At a control code the text emitted is the open text and then the text emitted after the code. */
  lemma FormatAtCodeText(input: string, i: nat, openAt: nat, st: FormatState,
                         stripColors: bool, allowBackgrounds: bool)
    requires openAt <= i < |input| && IsControl(input[i])
    ensures Texts(FormatFrom(input, i, openAt, st, stripColors, allowBackgrounds))
            == input[openAt..i] + Texts(FormatFrom(input, Control(input, i, st, stripColors).1,
                                                   Control(input, i, st, stripColors).1,
                                                   Control(input, i, st, stripColors).0, stripColors, allowBackgrounds))
  {
    var f := Flush(input, openAt, i, CurrentStyle(st, stripColors, allowBackgrounds));
    var next := Control(input, i, st, stripColors);
    var rest := FormatFrom(input, next.1, next.1, next.0, stripColors, allowBackgrounds);
    FormatFromFlushes(input, i, openAt, st, stripColors, allowBackgrounds);
    TextsAppend(f, rest);
    FlushText(input, openAt, i, CurrentStyle(st, stripColors, allowBackgrounds));
  }

  /** A flush emits exactly the open text. */
  lemma FlushText(input: string, openAt: nat, until: nat, style: SpanStyle)
    requires openAt <= until <= |input|
    ensures Texts(Flush(input, openAt, until, style)) == input[openAt..until]
  {
    if until > openAt {
      assert Texts(Flush(input, openAt, until, style)) == input[openAt..until] + Texts([]);
    }
  }

  /** At a control code the scanner flushes the open text and resumes after the code's arguments. */
  lemma FormatFromFlushes(input: string, i: nat, openAt: nat, st: FormatState,
                          stripColors: bool, allowBackgrounds: bool)
    requires openAt <= i < |input| && IsControl(input[i])
    ensures FormatFrom(input, i, openAt, st, stripColors, allowBackgrounds)
            == Flush(input, openAt, i, CurrentStyle(st, stripColors, allowBackgrounds))
               + FormatFrom(input, Control(input, i, st, stripColors).1, Control(input, i, st, stripColors).1,
                            Control(input, i, st, stripColors).0, stripColors, allowBackgrounds)
  {
  }

  /**
   * The formatted text is the input with exactly the control codes and their
   * arguments deleted, and so the same whatever the two switches say.
   */
  lemma FormatText(input: string, stripColors: bool, allowBackgrounds: bool)
    ensures Texts(Format(input, stripColors, allowBackgrounds)) == Stripped(input, 0)
  {
    FormatFromText(input, 0, 0, Plain, stripColors, allowBackgrounds);
    assert input[0..0] == [];
  }

  /** A reset code splits a line: the text of the whole is the text of the two halves. */
  lemma ResetSplits(a: string, b: string, stripColors: bool, allowBackgrounds: bool)
    ensures Texts(Format(a + [ResetCode] + b, stripColors, allowBackgrounds))
            == Texts(Format(a, stripColors, allowBackgrounds)) + Texts(Format(b, stripColors, allowBackgrounds))
  {
    var w := a + [ResetCode] + b;
    FormatText(w, stripColors, allowBackgrounds);
    FormatText(a, stripColors, allowBackgrounds);
    FormatText(b, stripColors, allowBackgrounds);
    StrippedPrefix(w, a, 0);
    assert w[|a|] == ResetCode;
    ShiftFrom(a + [ResetCode], b, 0);
  }

  /** Up to the end of a prefix that ends just before a reset, stripping runs as on the prefix. */
  lemma {:induction false} StrippedPrefix(w: string, a: string, i: nat)
    requires i <= |a| < |w| && w[..|a|] == a && w[|a|] == ResetCode
    ensures Stripped(w, i) == Stripped(a, i) + Stripped(w, |a|)
    decreases |a| - i
  {
    if i < |a| {
      assert w[i] == a[i];
      if IsControl(a[i]) {
        PrefixCodeEnd(w, a, i);
        StrippedPrefix(w, a, CodeEnd(a, i));
      } else {
        StrippedPrefix(w, a, i + 1);
      }
    }
  }

  /** A code inside the prefix ends where it ends in the prefix alone. */
  lemma PrefixCodeEnd(w: string, a: string, i: nat)
    requires i < |a| < |w| && w[..|a|] == a && w[|a|] == ResetCode && IsControl(a[i])
    ensures CodeEnd(w, i) == CodeEnd(a, i)
  {
    assert w[i] == a[i];
    assert forall k :: 0 <= k < |a| ==> w[k] == a[k];
    assert !Text.IsDigit(ResetCode) && ResetCode != ',';
    if a[i] == ColorCode {
      SpanAgrees(w, a, i + 1);
    } else if a[i] == HexColorCode {
      HexSpanAgrees(w, a, i + 1);
    }
  }

  lemma SpanAgrees(w: string, a: string, i: nat)
    requires i <= |a| < |w| && w[..|a|] == a && w[|a|] == ResetCode
    ensures ColorSpanEnd(w, i) == ColorSpanEnd(a, i)
  {
    assert forall k :: 0 <= k < |a| ==> w[k] == a[k];
    var j := NumberAt(a, i).1;
    assert NumberAt(w, i).1 == j;
    if j < |a| && a[j] == ',' {
      assert NumberAt(w, j + 1).1 == NumberAt(a, j + 1).1;
    }
  }

  lemma HexSpanAgrees(w: string, a: string, i: nat)
    requires i <= |a| < |w| && w[..|a|] == a && w[|a|] == ResetCode
    ensures HexSpanEnd(w, i) == HexSpanEnd(a, i)
  {
    assert forall k :: 0 <= k < |a| ==> w[k] == a[k];
    var j := HexAt(a, i).1;
    HexAtAgrees(w, a, i);
    if j < |a| && a[j] == ',' {
      HexAtAgrees(w, a, j + 1);
    }
  }

  lemma HexAtAgrees(w: string, a: string, i: nat)
    requires i <= |a| < |w| && w[..|a|] == a && w[|a|] == ResetCode
    ensures HexAt(w, i).1 == HexAt(a, i).1
  {
    if i + 6 <= |a| {
      assert w[i..i + 6] == a[i..i + 6];
    } else if i + 6 <= |w| {
      assert w[i..i + 6][|a| - i] == ResetCode;
      assert !Text.AllHex(w[i..i + 6]);
    }
  }

  /** Behind a prefix `p`, stripping runs as on the suffix alone. */
  lemma {:induction false} ShiftFrom(p: string, b: string, i: nat)
    requires i <= |b|
    ensures Stripped(p + b, |p| + i) == Stripped(b, i)
    decreases |b| - i
  {
    if i < |b| {
      if IsControl(b[i]) {
        ShiftFromCode(p, b, i);
      } else {
        ShiftFromText(p, b, i);
      }
    }
  }

  lemma {:induction false} ShiftFromText(p: string, b: string, i: nat)
    requires i < |b| && !IsControl(b[i])
    ensures Stripped(p + b, |p| + i) == Stripped(b, i)
    decreases |b| - i, 0
  {
    assert (p + b)[|p| + i] == b[i];
    StrippedKeeps(p + b, |p| + i);
    StrippedKeeps(b, i);
    ShiftFrom(p, b, i + 1);
  }

  lemma {:induction false} ShiftFromCode(p: string, b: string, i: nat)
    requires i < |b| && IsControl(b[i])
    ensures Stripped(p + b, |p| + i) == Stripped(b, i)
    decreases |b| - i, 0
  {
    assert (p + b)[|p| + i] == b[i];
    StrippedDrops(p + b, |p| + i);
    StrippedDrops(b, i);
    ShiftCodeEnd(p, b, i);
    ShiftFrom(p, b, CodeEnd(b, i));
  }

  lemma ShiftCodeEnd(p: string, b: string, i: nat)
    requires i < |b| && IsControl(b[i])
    ensures CodeEnd(p + b, |p| + i) == |p| + CodeEnd(b, i)
  {
    var c := b[i];
    assert (p + b)[|p| + i] == c;
    if c == ColorCode {
      ShiftColorSpan(p, b, i + 1);
    } else if c == HexColorCode {
      ShiftHexSpan(p, b, i + 1);
    }
  }

  lemma ShiftColorSpan(p: string, b: string, i: nat)
    requires i <= |b|
    ensures ColorSpanEnd(p + b, |p| + i) == |p| + ColorSpanEnd(b, i)
  {
    ShiftNumber(p, b, i);
    var j := NumberAt(b, i).1;
    if j < |b| {
      assert (p + b)[|p| + j] == b[j];
      if b[j] == ',' {
        ShiftNumber(p, b, j + 1);
      }
    }
  }

  lemma ShiftHexSpan(p: string, b: string, i: nat)
    requires i <= |b|
    ensures HexSpanEnd(p + b, |p| + i) == |p| + HexSpanEnd(b, i)
  {
    ShiftHex(p, b, i);
    var j := HexAt(b, i).1;
    if j < |b| {
      assert (p + b)[|p| + j] == b[j];
      if b[j] == ',' {
        ShiftHex(p, b, j + 1);
      }
    }
  }

  lemma ShiftNumber(p: string, b: string, i: nat)
    requires i <= |b|
    ensures NumberAt(p + b, |p| + i).1 == |p| + NumberAt(b, i).1
  {
    if i < |b| {
      assert (p + b)[|p| + i] == b[i];
      if i + 1 < |b| {
        assert (p + b)[|p| + i + 1] == b[i + 1];
      }
    }
  }

  lemma ShiftHex(p: string, b: string, i: nat)
    requires i <= |b|
    ensures HexAt(p + b, |p| + i).1 == |p| + HexAt(b, i).1
  {
    if i + 6 <= |b| {
      assert (p + b)[|p| + i..|p| + i + 6] == b[i..i + 6];
    }
  }

  // ---------------------------------------------------------------------
  // Links
  // ---------------------------------------------------------------------

  /** `LinkRange`: where a link starts and ends in the text, and its URL. */
  datatype LinkRange = LinkRange(start: nat, end: nat, url: string)

  /** The characters trimmed off the end of a matched link. */
  const LinkTrailing: set<char> := {',', '.', ';', ':', ')', ']', '!', '?'}

  /** The trim loop of `findLinks`: the match `[s, e)` loses its trailing punctuation. */
  method TrimLinkEnd(text: string, s: nat, e: nat) returns (end: nat)
    requires s <= e <= |text|
    ensures s <= end <= e
    ensures end == s || text[end - 1] !in LinkTrailing
    ensures forall k :: end <= k < e ==> text[k] in LinkTrailing
  {
    end := e;
    while end > s && text[end - 1] in LinkTrailing
      invariant s <= end <= e
      invariant forall k :: end <= k < e ==> text[k] in LinkTrailing
    {
      end := end - 1;
    }
  }

  /**
   * `findLinks`, given the URL pattern's matches `[start, end)` in order:
   * each becomes a range whose URL is the match less its trailing punctuation.
   */
  method FindLinks(text: string, matches: seq<(nat, nat)>) returns (out: seq<LinkRange>)
    requires forall m :: 0 <= m < |matches| ==> matches[m].0 <= matches[m].1 <= |text|
    ensures |out| == |matches|
    ensures forall m :: 0 <= m < |out| ==>
      var (s, e) := matches[m];
      out[m].start == s && s <= out[m].end <= e && out[m].url == text[s..out[m].end]
      && Text.StartsWith(text[s..e], out[m].url)
      && (out[m].url == [] || out[m].url[|out[m].url| - 1] !in LinkTrailing)
      && forall k :: out[m].end <= k < e ==> text[k] in LinkTrailing
  {
    out := [];
    for m := 0 to |matches|
      invariant |out| == m
      invariant forall n :: 0 <= n < m ==>
        var (s, e) := matches[n];
        out[n].start == s && s <= out[n].end <= e && out[n].url == text[s..out[n].end]
        && Text.StartsWith(text[s..e], out[n].url)
        && (out[n].url == [] || out[n].url[|out[n].url| - 1] !in LinkTrailing)
        && forall k :: out[n].end <= k < e ==> text[k] in LinkTrailing
    {
      var (s, e) := matches[m];
      var end := TrimLinkEnd(text, s, e);
      var url := text[s..end];
      assert text[s..e][..|url|] == url;
      out := out + [LinkRange(s, end, url)];
    }
  }

  /** `normalizeLinkUrl`: `www.` links get an `http://` scheme; every other link is kept as it is. */
  function NormalizeLinkUrl(raw: string): (r: string)
    ensures Text.StartsWithIgnoreCase(raw, "www.") ==> r == "http://" + raw
    ensures !Text.StartsWithIgnoreCase(raw, "www.") ==> r == raw
  {
    WwwIsNoScheme(raw);
    if Text.StartsWithIgnoreCase(raw, "http") then raw
    else if Text.StartsWithIgnoreCase(raw, "irc://") || Text.StartsWithIgnoreCase(raw, "ircs://") then raw
    else if Text.StartsWithIgnoreCase(raw, "ftp://") || Text.StartsWithIgnoreCase(raw, "file://")
         || Text.StartsWithIgnoreCase(raw, "mailto:") then raw
    else if Text.StartsWithIgnoreCase(raw, "www.") then "http://" + raw
    else raw
  }

  /** One prefix excludes another when their first characters differ ignoring case. */
  lemma FirstCharExcludes(raw: string, p: string, q: string)
    requires |p| > 0 && |q| > 0 && Text.LowerChar(p[0]) != Text.LowerChar(q[0])
    requires Text.StartsWithIgnoreCase(raw, p)
    ensures !Text.StartsWithIgnoreCase(raw, q)
  {
    assert Text.Lower(raw)[..|Text.Lower(p)|][0] == Text.Lower(raw)[0];
  }

  /** A `www.` link starts with none of the schemes `normalizeLinkUrl` tests first. */
  lemma WwwIsNoScheme(raw: string)
    ensures Text.StartsWithIgnoreCase(raw, "www.") ==>
      !Text.StartsWithIgnoreCase(raw, "http") && !Text.StartsWithIgnoreCase(raw, "irc://")
      && !Text.StartsWithIgnoreCase(raw, "ircs://") && !Text.StartsWithIgnoreCase(raw, "ftp://")
      && !Text.StartsWithIgnoreCase(raw, "file://") && !Text.StartsWithIgnoreCase(raw, "mailto:")
  {
    if Text.StartsWithIgnoreCase(raw, "www.") {
      FirstCharExcludes(raw, "www.", "http");
      FirstCharExcludes(raw, "www.", "irc://");
      FirstCharExcludes(raw, "www.", "ircs://");
      FirstCharExcludes(raw, "www.", "ftp://");
      FirstCharExcludes(raw, "www.", "file://");
      FirstCharExcludes(raw, "www.", "mailto:");
    }
  }
}
