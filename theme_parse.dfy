/**
 * Reading a theme document (src/theme.rs): `convert_color`, `GradientStop::parse_stop`
 * and the line loop of `Theme::load`.
 *
 * The CSS tokenizer (cssparser) and palette's colour-space conversions are external
 * libraries: `Collaborators` carries them as uninterpreted functions.  `tokenize` gives,
 * for one line, the outcome of the three successive parser calls `parse_stop` makes
 * (`expect_percentage`, then `Color::parse` twice); `toOklab` is palette's conversion of
 * the colour value `convert_color` constructs; `darken` is palette's `Darken::darken`.
 */
module ThemeParse {
  import opened Base
  import opened Themes

  // ------------------------------------------------------------------ CSS colour values

  datatype PredefinedColorSpace = Srgb | SrgbLinear | DisplayP3 | A98Rgb | ProphotoRgb | Rec2020 | XyzD50 | XyzD65

  /** cssparser_color's `Color`: every component except the legacy rgba ones may be missing. */
  datatype CssColor =
    | CurrentColor
    | Rgba(red: Byte, green: Byte, blue: Byte, rgbaAlpha: real)
    | Hsl(hue: Option<real>, saturation: Option<real>, lightness: Option<real>, alpha: Option<real>)
    | Hwb(hue: Option<real>, whiteness: Option<real>, blackness: Option<real>, alpha: Option<real>)
    | Lab(lightness: Option<real>, a: Option<real>, b: Option<real>, alpha: Option<real>)
    | Lch(lightness: Option<real>, chroma: Option<real>, hue: Option<real>, alpha: Option<real>)
    | Oklab(lightness: Option<real>, a: Option<real>, b: Option<real>, alpha: Option<real>)
    | Oklch(lightness: Option<real>, chroma: Option<real>, hue: Option<real>, alpha: Option<real>)
    | ColorFunction(space: PredefinedColorSpace, c1: Option<real>, c2: Option<real>, c3: Option<real>, alpha: Option<real>)

  /** The palette colour types `convert_color` constructs before converting to Oklab. */
  datatype PaletteSpace =
    | LegacySrgb | HslSrgb | HwbSrgb | CieLab | CieLch | OklchSpace
    | SrgbSpace | LinearSrgb | DisplayP3Space | Adobe98 | ProPhoto | Rec2020Space | XyzD50Space | XyzD65Space

  /**
   * A palette colour value: its type, its three components in the order of that type's
   * constructor (for HSL: hue, saturation, lightness), and its alpha.  `adaptFromD50` marks
   * the two paths that go through `Xyza::<D65>::adapt_from` on the way to Oklab.
   */
  datatype PaletteColor = PaletteColor(space: PaletteSpace, c1: real, c2: real, c3: real, alpha: real, adaptFromD50: bool)

  /** `alpha.unwrap_or(1.)` */
  function AlphaOr1(alpha: Option<real>): real
  {
    match alpha
    case Some(x) => x
    case None => 1.0
  }

  /** Builds the palette value for three optional components, or None when one is missing (`c?`). */
  function Build3(space: PaletteSpace, c1: Option<real>, c2: Option<real>, c3: Option<real>, alpha: Option<real>, adapt: bool): Option<PaletteColor>
  {
    if c1.None? || c2.None? || c3.None? then None
    else Some(PaletteColor(space, c1.value, c2.value, c3.value, AlphaOr1(alpha), adapt))
  }

  function PredefinedSpace(space: PredefinedColorSpace): PaletteSpace
  {
    match space
    case Srgb => SrgbSpace
    case SrgbLinear => LinearSrgb
    case DisplayP3 => DisplayP3Space
    case A98Rgb => Adobe98
    case ProphotoRgb => ProPhoto
    case Rec2020 => Rec2020Space
    case XyzD50 => XyzD50Space
    case XyzD65 => XyzD65Space
  }

  /**
   * The palette value `convert_color` builds for every variant but `Oklab` (which it builds
   * directly as an Oklaba) and `CurrentColor`, with HSL's saturation and lightness in the
   * slots palette's `Hsla::new(hue, saturation, lightness, alpha)` gives them.
   */
  function BuildPaletteColor(c: CssColor): Option<PaletteColor>
    requires !c.Oklab?
  {
    match c
    case CurrentColor => None
    case Rgba(r, g, b, alpha) => Some(PaletteColor(LegacySrgb, r as real, g as real, b as real, alpha, false))
    case Hsl(h, s, l, alpha) => Build3(HslSrgb, h, s, l, alpha, false)
    case Hwb(h, w, b, alpha) => Build3(HwbSrgb, h, w, b, alpha, false)
    case Lab(l, a, b, alpha) => Build3(CieLab, l, a, b, alpha, false)
    case Lch(l, ch, h, alpha) => Build3(CieLch, l, ch, h, alpha, false)
    case Oklch(l, ch, h, alpha) => Build3(OklchSpace, l, ch, h, alpha, false)
    case ColorFunction(space, c1, c2, c3, alpha) =>
      Build3(PredefinedSpace(space), c1, c2, c3, alpha, space == ProphotoRgb || space == XyzD50)
  }

  /**
   * The HSL arm as the source writes it: it passes `hue?, lightness?, saturation?`, so palette's
   * saturation slot receives the CSS lightness and its lightness slot the CSS saturation.
   */
  function BuildPaletteColorAsWritten(c: CssColor): Option<PaletteColor>
    requires !c.Oklab?
  {
    match c
    case Hsl(h, s, l, alpha) => Build3(HslSrgb, h, l, s, alpha, false)
    case _ => BuildPaletteColor(c)
  }

  /** `convert_color`, with the HSL arm corrected (see BuildPaletteColor). */
  function ConvertColor(toOklab: PaletteColor -> Oklaba, c: CssColor): Option<Oklaba>
  {
    if c.Oklab? then
      if c.lightness.None? || c.a.None? || c.b.None? then None
      else Some(Oklaba(c.lightness.value, c.a.value, c.b.value, AlphaOr1(c.alpha)))
    else
      match BuildPaletteColor(c)
      case None => None
      case Some(p) =>
        // the legacy rgba arm converts the alpha-less colour and then attaches its alpha
        if p.space == LegacySrgb then Some(toOklab(p).(alpha := p.alpha)) else Some(toOklab(p))
  }

  /** A non-alpha component of the colour is missing. */
  predicate MissingComponent(c: CssColor)
  {
    match c
    case CurrentColor => false
    case Rgba(_, _, _, _) => false
    case Hsl(h, s, l, _) => h.None? || s.None? || l.None?
    case Hwb(h, w, b, _) => h.None? || w.None? || b.None?
    case Lab(l, a, b, _) => l.None? || a.None? || b.None?
    case Lch(l, ch, h, _) => l.None? || ch.None? || h.None?
    case Oklab(l, a, b, _) => l.None? || a.None? || b.None?
    case Oklch(l, ch, h, _) => l.None? || ch.None? || h.None?
    case ColorFunction(_, c1, c2, c3, _) => c1.None? || c2.None? || c3.None?
  }

  /** The alpha a colour value states, if any (the legacy form always states one). */
  function StatedAlpha(c: CssColor): Option<real>
  {
    match c
    case CurrentColor => None
    case Rgba(_, _, _, alpha) => Some(alpha)
    case Hsl(_, _, _, alpha) => alpha
    case Hwb(_, _, _, alpha) => alpha
    case Lab(_, _, _, alpha) => alpha
    case Lch(_, _, _, alpha) => alpha
    case Oklab(_, _, _, alpha) => alpha
    case Oklch(_, _, _, alpha) => alpha
    case ColorFunction(_, _, _, _, alpha) => alpha
  }

  /** `convert_color` fails exactly for `currentColor` and for a colour with a missing component. */
  lemma ConvertColorFailsExactly(toOklab: PaletteColor -> Oklaba, c: CssColor)
    ensures ConvertColor(toOklab, c).None? <==> (c.CurrentColor? || MissingComponent(c))
  {
  }

  /** A missing alpha becomes 1, a stated one is kept, in the value handed to palette. */
  lemma ConvertColorAlpha(c: CssColor)
    requires !c.Oklab? && BuildPaletteColor(c).Some?
    ensures BuildPaletteColor(c).value.alpha == (if StatedAlpha(c).Some? then StatedAlpha(c).value else 1.0)
  {
  }

  /** Oklab needs no conversion: its components and (defaulted) alpha are taken as they are. */
  lemma ConvertColorOklabIsDirect(toOklab: PaletteColor -> Oklaba, l: real, a: real, b: real, alpha: Option<real>)
    ensures ConvertColor(toOklab, Oklab(Some(l), Some(a), Some(b), alpha)) == Some(Oklaba(l, a, b, AlphaOr1(alpha)))
  {
  }

  /** The legacy rgba form always converts, and keeps its own alpha whatever the conversion does. */
  lemma ConvertColorLegacyKeepsAlpha(toOklab: PaletteColor -> Oklaba, r: Byte, g: Byte, b: Byte, alpha: real)
    ensures ConvertColor(toOklab, Rgba(r, g, b, alpha)).Some?
    ensures ConvertColor(toOklab, Rgba(r, g, b, alpha)).value.alpha == alpha
  {
  }

  /** Only the ProPhoto and XYZ-D50 colour functions pass through white-point adaptation. */
  lemma ConvertColorAdaptsOnlyD50Spaces(c: CssColor)
    requires !c.Oklab? && BuildPaletteColor(c).Some?
    ensures BuildPaletteColor(c).value.adaptFromD50 <==> (c.ColorFunction? && (c.space == ProphotoRgb || c.space == XyzD50))
  {
  }

  /** Corrected HSL arm: the CSS saturation and lightness reach palette's saturation and lightness slots. */
  lemma HslComponentsInPaletteOrder(h: real, s: real, l: real, alpha: Option<real>)
    ensures BuildPaletteColor(Hsl(Some(h), Some(s), Some(l), alpha)) == Some(PaletteColor(HslSrgb, h, s, l, AlphaOr1(alpha), false))
  {
  }

  /**
   * As written, `hsl(0 0% 100%)` (white: saturation 0, lightness 1) reaches palette with
   * lightness 0 and saturation 1, which is black.
   */
  lemma HslComponentsSwappedAsWritten()
    ensures var white := Hsl(Some(0.0), Some(0.0), Some(1.0), None);
      && BuildPaletteColorAsWritten(white) == Some(PaletteColor(HslSrgb, 0.0, 1.0, 0.0, 1.0, false))
      && BuildPaletteColorAsWritten(white) != BuildPaletteColor(white)
  {
  }

  // ------------------------------------------------------------------ parse_stop

  /** cssparser error kinds the model distinguishes. */
  datatype CssErrorKind = EndOfInput | OtherBasic | InternalError | Unsupported

  /** A cssparser error with its source location. */
  datatype CssError = CssError(kind: CssErrorKind, line: int, column: int)

  /** The outcomes of `expect_percentage` and of the two `Color::parse` calls on one line. */
  datatype StopTokens = StopTokens(level: Result<real, CssError>, fg: Result<CssColor, CssError>, bg: Result<CssColor, CssError>)

  datatype Collaborators = Collaborators(
    tokenize: string -> StopTokens,
    toOklab: PaletteColor -> Oklaba,
    darken: (Oklaba, real) -> Oklaba)

  /** The error `parse_stop` builds for an unconvertible colour: line 1, column 0. */
  const UnsupportedError: CssError := CssError(Unsupported, 1, 0)

  /** `GradientStop::parse_stop`. */
  function ParseStop(ext: Collaborators, line: string): Result<GradientStop, CssError>
  {
    var tokens := ext.tokenize(line);
    match tokens.level
    case Err(e) => Err(e)
    case Ok(level) =>
      match tokens.fg
      case Err(e) => Err(e)
      case Ok(fgCss) =>
        // a second colour is optional: end of input means "none", any other error propagates
        var bgCss: Result<Option<CssColor>, CssError> :=
          match tokens.bg
          case Ok(c) => Ok(Some(c))
          case Err(e) => if e.kind == EndOfInput then Ok(None) else Err(e);
        if bgCss.Err? then Err(bgCss.error)
        else
          match ConvertColor(ext.toOklab, fgCss)
          case None => Err(UnsupportedError)
          case Some(fg) =>
            match bgCss.value
            case None => Ok(GradientStop(level, fg, ext.darken(fg, 0.5)))
            case Some(c) =>
              match ConvertColor(ext.toOklab, c)
              case None => Err(UnsupportedError)
              case Some(bg) => Ok(GradientStop(level, fg, bg))
  }

  /** With no second colour, the background is the foreground darkened by 0.5. */
  lemma ParseStopDefaultBackground(ext: Collaborators, line: string, e: CssError)
    requires var t := ext.tokenize(line);
      t.level.Ok? && t.fg.Ok? && t.bg == Err(e) && e.kind == EndOfInput
      && ConvertColor(ext.toOklab, t.fg.value).Some?
    ensures var t := ext.tokenize(line);
      var fg := ConvertColor(ext.toOklab, t.fg.value).value;
      ParseStop(ext, line) == Ok(GradientStop(t.level.value, fg, ext.darken(fg, 0.5)))
  {
  }

  /** Any other failure of the second colour propagates unchanged, before either colour is converted. */
  lemma ParseStopPropagatesBackgroundError(ext: Collaborators, line: string, e: CssError)
    requires var t := ext.tokenize(line);
      t.level.Ok? && t.fg.Ok? && t.bg == Err(e) && e.kind != EndOfInput
    ensures ParseStop(ext, line) == Err(e)
  {
  }

  /** A successful stop has the parsed level and the converted foreground; it fails on an unconvertible colour. */
  lemma ParseStopResult(ext: Collaborators, line: string)
    ensures var t := ext.tokenize(line);
      ParseStop(ext, line).Ok? <==>
        && t.level.Ok? && t.fg.Ok? && ConvertColor(ext.toOklab, t.fg.value).Some?
        && (t.bg.Ok? ==> ConvertColor(ext.toOklab, t.bg.value).Some?)
        && (t.bg.Err? ==> t.bg.error.kind == EndOfInput)
    ensures var t := ext.tokenize(line);
      ParseStop(ext, line).Ok? ==>
        ParseStop(ext, line).value.level == t.level.value
        && Some(ParseStop(ext, line).value.fg) == ConvertColor(ext.toOklab, t.fg.value)
    ensures var t := ext.tokenize(line);
      (t.level.Ok? && t.fg.Ok? && (t.bg.Ok? || t.bg.error.kind == EndOfInput)
       && ConvertColor(ext.toOklab, t.fg.value).None?) ==> ParseStop(ext, line) == Err(UnsupportedError)
  {
  }

  // ------------------------------------------------------------------ section headers

  /** The characters the model treats as `\s` and as `str::trim` whitespace. */
  predicate IsSpace(c: char)
  {
    c == ' ' || c == '\t' || c == '\n' || c == '\r' || c == '\U{B}' || c == '\U{C}'
  }

  function TrimStart(s: string): (r: string)
    ensures |r| <= |s| && r == s[|s| - |r|..]
    ensures r == [] || !IsSpace(r[0])
    ensures forall k :: 0 <= k < |s| - |r| ==> IsSpace(s[k])
  {
    if s != [] && IsSpace(s[0]) then TrimStart(s[1..]) else s
  }

  function TrimEnd(s: string): (r: string)
    ensures |r| <= |s| && r == s[..|r|]
    ensures r == [] || !IsSpace(r[|r| - 1])
    ensures forall k :: |r| <= k < |s| ==> IsSpace(s[k])
  {
    if s != [] && IsSpace(s[|s| - 1]) then TrimEnd(s[..|s| - 1]) else s
  }

  /** `str::trim` */
  function Trim(s: string): string
  {
    TrimEnd(TrimStart(s))
  }

  predicate IsLowerAscii(c: char)
  {
    'a' <= c <= 'z'
  }

  /** `^\s*\[\s*([a-z]+)\s*\]\s*$`: the captured name of a section header line, if the line is one. */
  function SectionHeader(line: string): (r: Option<string>)
    ensures r.Some? ==> |r.value| > 0 && forall k :: 0 <= k < |r.value| ==> IsLowerAscii(r.value[k])
  {
    var t := Trim(line);
    if |t| >= 2 && t[0] == '[' && t[|t| - 1] == ']' then
      var name := Trim(t[1..|t| - 1]);
      if |name| > 0 && forall k :: 0 <= k < |name| ==> IsLowerAscii(name[k]) then Some(name) else None
    else None
  }

  /** The three names recognized after `to_lowercase` (a no-op on `[a-z]+`). */
  function SectionByTitle(name: string): (r: Option<ChargeState>)
    ensures r == Some(Charging) <==> name == "charging"
    ensures r == Some(NoCharge) <==> name == "nocharge"
    ensures r == Some(Discharging) <==> name == "discharging"
  {
    if name == "charging" then Some(Charging)
    else if name == "nocharge" then Some(NoCharge)
    else if name == "discharging" then Some(Discharging)
    else None
  }

  predicate IsBlank(line: string)
  {
    Trim(line) == []
  }

  /** A header is never blank, so the order of the two tests in `load` does not matter. */
  lemma HeaderIsNotBlank(line: string)
    requires SectionHeader(line).Some?
    ensures !IsBlank(line)
  {
  }

  /** Every character of `w` is whitespace (a match of `\s*`). */
  predicate AllSpace(w: string)
  {
    forall k :: 0 <= k < |w| ==> IsSpace(w[k])
  }

  predicate AllLowerAscii(n: string)
  {
    forall k :: 0 <= k < |n| ==> IsLowerAscii(n[k])
  }

  /** Leading whitespace followed by a non-space start is trimmed to exactly that start. */
  lemma {:induction false} TrimStartSpaces(w: string, s: string)
    requires AllSpace(w) && (s == [] || !IsSpace(s[0]))
    ensures TrimStart(w + s) == s
  {
    if w == [] {
      assert w + s == s;
    } else {
      assert (w + s)[1..] == w[1..] + s;
      TrimStartSpaces(w[1..], s);
    }
  }

  /** A non-space end followed by trailing whitespace is trimmed to exactly that end. */
  lemma {:induction false} TrimEndSpaces(s: string, w: string)
    requires AllSpace(w) && (s == [] || !IsSpace(s[|s| - 1]))
    ensures TrimEnd(s + w) == s
  {
    if w == [] {
      assert s + w == s;
    } else {
      assert (s + w)[..|s + w| - 1] == s + w[..|w| - 1];
      TrimEndSpaces(s, w[..|w| - 1]);
    }
  }

  /** Trimming whitespace that surrounds a word with non-space ends gives back the word. */
  lemma TrimSurrounded(w1: string, x: string, w2: string)
    requires AllSpace(w1) && AllSpace(w2) && |x| > 0 && !IsSpace(x[0]) && !IsSpace(x[|x| - 1])
    ensures Trim(w1 + x + w2) == x
  {
    assert w1 + x + w2 == w1 + (x + w2);
    TrimStartSpaces(w1, x + w2);
    TrimEndSpaces(x, w2);
  }

  /** `TrimStart` removes a run of whitespace from the front. */
  lemma TrimStartSplit(s: string) returns (w: string)
    ensures AllSpace(w) && s == w + TrimStart(s)
  {
    var r := TrimStart(s);
    var n := |s| - |r|;
    w := s[..n];
    assert forall k :: 0 <= k < |w| ==> w[k] == s[k];
    assert s == s[..n] + s[n..];
  }

  /** `TrimEnd` removes a run of whitespace from the back. */
  lemma TrimEndSplit(s: string) returns (w: string)
    ensures AllSpace(w) && s == TrimEnd(s) + w
  {
    var r := TrimEnd(s);
    w := s[|r|..];
    assert s == s[..|r|] + s[|r|..];
  }

  lemma Associate(a: string, b: string, c: string)
    ensures a + (b + c) == a + b + c
  {
  }

  /** Every string is its trimmed core between two runs of whitespace. */
  lemma TrimSplit(s: string) returns (w1: string, w2: string)
    ensures AllSpace(w1) && AllSpace(w2) && s == w1 + Trim(s) + w2
  {
    var ts := TrimStart(s);
    var t := TrimEnd(ts);
    w1 := TrimStartSplit(s);
    w2 := TrimEndSplit(ts);
    Associate(w1, t, w2);
  }

  /** What the header test reads: the trimmed line in brackets, and the trimmed text between them. */
  lemma SectionHeaderByTrims(line: string, n: string)
    requires var t := Trim(line); |t| >= 2 && t[0] == '[' && t[|t| - 1] == ']' && Trim(t[1..|t| - 1]) == n
    ensures SectionHeader(line) == if |n| > 0 && AllLowerAscii(n) then Some(n) else None
  {
  }

  lemma HeaderTrims(line: string)
    requires SectionHeader(line).Some?
    ensures var t := Trim(line);
      |t| >= 2 && t[0] == '[' && t[|t| - 1] == ']' && SectionHeader(line).value == Trim(t[1..|t| - 1])
  {
  }

  /** A string of at least two characters is its first character, its middle and its last character. */
  lemma Bracketed(t: string)
    requires |t| >= 2
    ensures t == [t[0]] + t[1..|t| - 1] + [t[|t| - 1]]
  {
  }

  lemma Assemble(line: string, w1: string, t: string, w4: string, inner: string, w2: string, n: string, w3: string)
    requires line == w1 + t + w4 && t == "[" + inner + "]" && inner == w2 + n + w3
    ensures line == w1 + "[" + w2 + n + w3 + "]" + w4
  {
    assert "[" + inner + "]" == "[" + w2 + n + w3 + "]";
    assert w1 + ("[" + w2 + n + w3 + "]") + w4 == w1 + "[" + w2 + n + w3 + "]" + w4;
  }

  /**
   * A line is a section header naming `n` exactly when it has the shape of the header
   * regex: optional whitespace, `[`, optional whitespace, a non-empty run of lower-case
   * letters, optional whitespace, `]`, optional whitespace.
   */
  lemma SectionHeaderOfShape(w1: string, w2: string, n: string, w3: string, w4: string)
    requires AllSpace(w1) && AllSpace(w2) && AllSpace(w3) && AllSpace(w4)
    requires |n| > 0 && AllLowerAscii(n)
    ensures SectionHeader(w1 + "[" + w2 + n + w3 + "]" + w4) == Some(n)
  {
    var inner := w2 + n + w3;
    var t := "[" + inner + "]";
    var line := w1 + "[" + w2 + n + w3 + "]" + w4;
    Assemble(line, w1, t, w4, inner, w2, n, w3);
    TrimSurrounded(w1, t, w4);
    assert t[1..|t| - 1] == inner;
    assert !IsSpace(n[0]) && !IsSpace(n[|n| - 1]);
    TrimSurrounded(w2, n, w3);
    SectionHeaderByTrims(line, n);
  }

  /** Conversely, every header line has that shape around the name it yields. */
  lemma SectionHeaderShape(line: string) returns (w1: string, w2: string, w3: string, w4: string)
    requires SectionHeader(line).Some?
    ensures AllSpace(w1) && AllSpace(w2) && AllSpace(w3) && AllSpace(w4)
    ensures var n := SectionHeader(line).value;
      |n| > 0 && AllLowerAscii(n) && line == w1 + "[" + w2 + n + w3 + "]" + w4
  {
    var n := SectionHeader(line).value;
    HeaderTrims(line);
    var t := Trim(line);
    var inner := t[1..|t| - 1];
    w1, w4 := TrimSplit(line);
    w2, w3 := TrimSplit(inner);
    Bracketed(t);
    Assemble(line, w1, t, w4, inner, w2, n, w3);
  }

  /** A string with non-space ends is its own trim. */
  lemma TrimKeeps(s: string)
    requires |s| > 0 && !IsSpace(s[0]) && !IsSpace(s[|s| - 1])
    ensures Trim(s) == s
  {
    assert TrimStart(s) == s;
  }

  /**
   * A bracketed name with a character outside `a-z` (an upper-case letter, say) is not a
   * header, and not blank either.
   */
  lemma NonLowerNameIsNotHeader(name: string, k: nat)
    requires |name| > 0 && !IsSpace(name[0]) && !IsSpace(name[|name| - 1])
    requires k < |name| && !IsLowerAscii(name[k])
    ensures SectionHeader("[" + name + "]") == None && !IsBlank("[" + name + "]")
  {
    assert !AllLowerAscii(name) by {
      assert !IsLowerAscii(name[k]);
    }
    BracketedNonLower(name, "[" + name + "]");
    BracketedNotBlank(name, "[" + name + "]");
  }

  lemma BracketedNonLower(name: string, line: string)
    requires |name| > 0 && !IsSpace(name[0]) && !IsSpace(name[|name| - 1]) && !AllLowerAscii(name)
    requires line == "[" + name + "]"
    ensures SectionHeader(line) == None
  {
    assert |line| == |name| + 2 && line[0] == '[' && line[|line| - 1] == ']';
    assert forall i :: 0 <= i < |name| ==> line[i + 1] == name[i];
    assert line[1..|line| - 1] == name;
    TrimKeeps(line);
    TrimKeeps(name);
    SectionHeaderByTrims(line, name);
  }

  lemma BracketedNotBlank(name: string, line: string)
    requires |name| > 0 && !IsSpace(name[0]) && !IsSpace(name[|name| - 1])
    requires line == "[" + name + "]"
    ensures !IsBlank(line)
  {
    assert |line| == |name| + 2 && line[0] == '[' && line[|line| - 1] == ']';
    TrimKeeps(line);
  }

  /**
   * Inside a section, a bracketed name with a character outside `a-z`, such as `[Charging]`,
   * is handled as a gradient stop line: it is handed to `parse_stop`, and its stop (or its
   * relocated error) is the outcome.
   */
  lemma UpperCaseHeaderIsStopLine(ext: Collaborators, st: ScanState, lineNo: nat, name: string, k: nat)
    requires lineNo >= 1 && st.section.Some?
    requires |name| > 0 && !IsSpace(name[0]) && !IsSpace(name[|name| - 1])
    requires k < |name| && !IsLowerAscii(name[k])
    ensures var line := "[" + name + "]";
      var parsed := ParseStop(ext, line);
      var s := st.section.value;
      Step(ext, st, lineNo, line) ==
        if parsed.Err? then Err(BadStop(Relocate(parsed.error, lineNo)))
        else Ok(st.(theme := WithSection(st.theme, s, SectionByName(st.theme, s) + [parsed.value])))
  {
    NonLowerNameIsNotHeader(name, k);
  }

  /** In particular `[Charging]` does not match the lower-case header regex. */
  lemma UpperCaseIsNotHeader(name: string)
    requires name == "Charging"
    ensures SectionHeader("[" + name + "]") == None && !IsBlank("[" + name + "]")
  {
    assert name[0] == 'C' && name[|name| - 1] == 'g';
    NonLowerNameIsNotHeader(name, 0);
  }

  // ------------------------------------------------------------------ load

  datatype LoadError =
    | InvalidSection(line: nat)     // "Invalid section name at line {line_no}"
    | UnexpectedStop(line: nat)     // "Unexpected gradient stop at line {line_no}"
    | BadStop(error: CssError)      // a parse_stop error with its line moved by line_no - 1

  /** The loop state of `load`: the current section and the stops pushed so far. */
  datatype ScanState = ScanState(section: Option<ChargeState>, theme: Theme)

  const EmptyTheme: Theme := Theme([], [], [])

  /** `err.location.line += line_no - 1` */
  function Relocate(e: CssError, lineNo: nat): CssError
    requires lineNo >= 1
  {
    e.(line := e.line + lineNo - 1)
  }

  /** One iteration of the line loop of `load`, for the line numbered `lineNo`. */
  function Step(ext: Collaborators, st: ScanState, lineNo: nat, line: string): Result<ScanState, LoadError>
    requires lineNo >= 1
  {
    match SectionHeader(line)
    case Some(name) =>
      (match SectionByTitle(name)
       case None => Err(InvalidSection(lineNo))
       case Some(s) => Ok(st.(section := Some(s))))
    case None =>
      if IsBlank(line) then Ok(st)
      else if st.section.None? then Err(UnexpectedStop(lineNo))
      else
        match ParseStop(ext, line)
        case Err(e) => Err(BadStop(Relocate(e, lineNo)))
        case Ok(stop) =>
          var s := st.section.value;
          Ok(st.(theme := WithSection(st.theme, s, SectionByName(st.theme, s) + [stop])))
  }

  /**
   * A line loop that stops at the first error: `step` is applied to the state reached so far,
   * the 1-based number of each line and the line itself.
   */
  function ScanWith(step: (ScanState, nat, string) -> Result<ScanState, LoadError>, lines: seq<string>): Result<ScanState, LoadError>
  {
    if lines == [] then Ok(ScanState(None, EmptyTheme))
    else
      match ScanWith(step, lines[..|lines| - 1])
      case Err(e) => Err(e)
      case Ok(st) => step(st, |lines|, lines[|lines| - 1])
  }

  /** `Step` for any line number; the loop numbers lines from 1, so the second branch is never taken. */
  function StepAt(ext: Collaborators): (ScanState, nat, string) -> Result<ScanState, LoadError>
  {
    (st: ScanState, lineNo: nat, line: string) => if lineNo >= 1 then Step(ext, st, lineNo, line) else Ok(st)
  }

  /** The line loop of `load` over `lines`, numbering them from 1. */
  function Scan(ext: Collaborators, lines: seq<string>): Result<ScanState, LoadError>
  {
    ScanWith(StepAt(ext), lines)
  }

  /** The loop over n lines is one more step after the loop over the first n - 1. */
  lemma ScanNext(ext: Collaborators, lines: seq<string>, n: nat)
    requires 1 <= n <= |lines| && Scan(ext, lines[..n - 1]).Ok?
    ensures Scan(ext, lines[..n]) == Step(ext, Scan(ext, lines[..n - 1]).value, n, lines[n - 1])
  {
    assert lines[..n][..n - 1] == lines[..n - 1];
  }

  /** Once the loop fails on a prefix, it fails on the whole document with the same error. */
  lemma {:induction false} ScanWithErrorPersists(step: (ScanState, nat, string) -> Result<ScanState, LoadError>, lines: seq<string>, k: nat)
    requires k <= |lines| && ScanWith(step, lines[..k]).Err?
    ensures ScanWith(step, lines) == ScanWith(step, lines[..k])
  {
    if k < |lines| {
      var front := lines[..|lines| - 1];
      assert front[..k] == lines[..k];
      ScanWithErrorPersists(step, front, k);
    } else {
      assert lines[..k] == lines;
    }
  }

  /** A failing loop has a shortest failing prefix, of k lines: the k - 1 lines before it are accepted. */
  lemma {:induction false} ScanWithFirstFailure(step: (ScanState, nat, string) -> Result<ScanState, LoadError>, lines: seq<string>) returns (k: nat)
    requires ScanWith(step, lines).Err?
    ensures 1 <= k <= |lines| && ScanWith(step, lines[..k - 1]).Ok?
    ensures ScanWith(step, lines) == step(ScanWith(step, lines[..k - 1]).value, k, lines[k - 1])
  {
    assert lines != [];
    var front := lines[..|lines| - 1];
    if ScanWith(step, front).Err? {
      k := ScanWithFirstFailure(step, front);
      assert front[..k - 1] == lines[..k - 1];
      assert front[k - 1] == lines[k - 1];
    } else {
      k := |lines|;
      assert lines[..k - 1] == front;
    }
  }

  function SortTheme(t: Theme): Theme
  {
    Theme(SortByLevel(t.discharging), SortByLevel(t.noCharge), SortByLevel(t.charging))
  }

  /** What `Theme::load` returns for the lines of a theme document. */
  function LoadSpec(ext: Collaborators, lines: seq<string>): Result<Theme, LoadError>
  {
    match Scan(ext, lines)
    case Err(e) => Err(e)
    case Ok(st) => Ok(SortTheme(st.theme))
  }

  /** Once the scan of a prefix fails, the scan of the whole document fails with the same error. */
  lemma ScanErrorPersists(ext: Collaborators, lines: seq<string>, k: nat)
    requires k <= |lines| && Scan(ext, lines[..k]).Err?
    ensures Scan(ext, lines) == Scan(ext, lines[..k])
  {
    ScanWithErrorPersists(StepAt(ext), lines, k);
  }

  /** `Theme::load`: the line loop, then a stable sort of each section by level. */
  method Load(ext: Collaborators, lines: seq<string>) returns (r: Result<Theme, LoadError>)
    ensures r == LoadSpec(ext, lines)
  {
    var theme := EmptyTheme;
    var section: Option<ChargeState> := None;
    var lineNo: nat := 0;
    while lineNo < |lines|
      invariant lineNo <= |lines|
      invariant Scan(ext, lines[..lineNo]) == Ok(ScanState(section, theme))
    {
      lineNo := lineNo + 1;
      var line := lines[lineNo - 1];
      ScanNext(ext, lines, lineNo);
      var header := SectionHeader(line);
      if header.Some? {
        var named := SectionByTitle(header.value);
        if named.None? {
          r := Err(InvalidSection(lineNo));
          ScanErrorPersists(ext, lines, lineNo);
          return;
        }
        section := named;
      } else if IsBlank(line) {
        // blank lines are skipped
      } else {
        if section.None? {
          r := Err(UnexpectedStop(lineNo));
          ScanErrorPersists(ext, lines, lineNo);
          return;
        }
        var stop := ParseStop(ext, line);
        if stop.Err? {
          r := Err(BadStop(Relocate(stop.error, lineNo)));
          ScanErrorPersists(ext, lines, lineNo);
          return;
        }
        var s := section.value;
        theme := WithSection(theme, s, SectionByName(theme, s) + [stop.value]);
      }
    }
    assert lines[..lineNo] == lines;
    theme := Theme(SortByLevel(theme.discharging), SortByLevel(theme.noCharge), SortByLevel(theme.charging));
    r := Ok(theme);
  }

  // ------------------------------------------------------------------ properties of load

  /** A failing document fails at some line k (1-based): every earlier line was accepted and line k gave the error. */
  lemma LoadFailsAtLine(ext: Collaborators, lines: seq<string>) returns (k: nat)
    requires Scan(ext, lines).Err?
    ensures 1 <= k <= |lines|
    ensures Scan(ext, lines[..k - 1]).Ok?
    ensures Step(ext, Scan(ext, lines[..k - 1]).value, k, lines[k - 1]) == Scan(ext, lines)
  {
    k := ScanWithFirstFailure(StepAt(ext), lines);
  }

  /** Blank and whitespace-only lines change nothing. */
  lemma StepSkipsBlank(ext: Collaborators, st: ScanState, lineNo: nat, line: string)
    requires lineNo >= 1 && IsBlank(line)
    ensures Step(ext, st, lineNo, line) == Ok(st)
  {
    if SectionHeader(line).Some? {
      HeaderIsNotBlank(line);
    }
  }

  /** A header line selects its section (also one selected before) and adds no stop; an unknown name is an error citing the line. */
  lemma StepHeader(ext: Collaborators, st: ScanState, lineNo: nat, line: string)
    requires lineNo >= 1 && SectionHeader(line).Some?
    ensures var named := SectionByTitle(SectionHeader(line).value);
      Step(ext, st, lineNo, line) == if named.None? then Err(InvalidSection(lineNo)) else Ok(ScanState(named, st.theme))
  {
  }

  /** A stop line before any header is an error citing its line number. */
  lemma StepStopOutsideSection(ext: Collaborators, st: ScanState, lineNo: nat, line: string)
    requires lineNo >= 1 && SectionHeader(line).None? && !IsBlank(line) && st.section.None?
    ensures Step(ext, st, lineNo, line) == Err(UnexpectedStop(lineNo))
  {
  }

  /**
   * A stop line inside a section appends its stop to that section only; a stop that does not
   * parse is an error whose location is moved down by lineNo - 1 (an unconvertible colour
   * therefore cites the line itself).
   */
  lemma StepStopLine(ext: Collaborators, st: ScanState, lineNo: nat, line: string)
    requires lineNo >= 1 && SectionHeader(line).None? && !IsBlank(line) && st.section.Some?
    ensures var parsed := ParseStop(ext, line);
      && (parsed.Err? ==> Step(ext, st, lineNo, line) == Err(BadStop(Relocate(parsed.error, lineNo))))
      && (parsed == Err(UnsupportedError) ==> Step(ext, st, lineNo, line).error.error.line == lineNo)
    ensures ParseStop(ext, line).Ok? ==>
      var next := Step(ext, st, lineNo, line);
      && next.Ok? && next.value.section == st.section
      && SectionByName(next.value.theme, st.section.value)
           == SectionByName(st.theme, st.section.value) + [ParseStop(ext, line).value]
      && forall other :: other != st.section.value ==>
           SectionByName(next.value.theme, other) == SectionByName(st.theme, other)
  {
  }

  /** After a successful load each section is its parsed stops, stably sorted by level under Totalize. */
  lemma LoadSortsEachSection(ext: Collaborators, lines: seq<string>, state: ChargeState)
    requires LoadSpec(ext, lines).Ok?
    ensures var parsed := SectionByName(Scan(ext, lines).value.theme, state);
      var loaded := SectionByName(LoadSpec(ext, lines).value, state);
      && SortedByLevel(loaded)
      && multiset(loaded) == multiset(parsed)
      && forall k :: AtLevel(loaded, k) == AtLevel(parsed, k)
  {
    SortByLevelIsStableSort(SectionByName(Scan(ext, lines).value.theme, state));
  }
}
