/**
 * The colour picker: a `#rrggbb` colour is read into its red, green and blue components, the grey
 * case of the RGB-to-HSL conversion is computed, and the HEX and RGB fields are formatted.
 */
module ColorPicker {
  import opened Wrappers
  import opened JsText

  const InitialColor := "#000000"

  // ---- reading the colour ----

  /** The character codes of a string, as `parseInt` reads them. */
  function Codes(s: string): (r: seq<int>)
    ensures |r| == |s| && forall i :: 0 <= i < |s| ==> r[i] == s[i] as int
  {
    seq(|s|, i requires 0 <= i < |s| => s[i] as int)
  }

  function Min(a: nat, b: nat): nat {
    if a <= b then a else b
  }

  /** `s.slice(from, to)` for `0 <= from <= to`: both ends are cut back to the length. */
  function Slice(s: string, from: nat, to: nat): (r: string)
    requires from <= to
    ensures |r| <= to - from
  {
    s[Min(from, |s|)..Min(to, |s|)]
  }

  /** `parseInt(color.slice(from, from + 2), 16)`, with `None` for `NaN`. */
  function Component(color: string, from: nat): Option<int> {
    ParseInt16(Codes(Slice(color, from, from + 2)))
  }

  /** The `rgb` state: each component a number or `NaN`. */
  datatype Rgb = Rgb(r: Option<int>, g: Option<int>, b: Option<int>)

  /** The three `parseInt` calls of `handleColorChange`. */
  function ParseColor(color: string): (r: Rgb)
    ensures |color| <= 1 ==> r == Rgb(None, None, None)
  {
    Rgb(Component(color, 1), Component(color, 3), Component(color, 5))
  }

  /** A well-formed colour: `#` and six hex digits, in either case. */
  predicate IsHexColor(color: string) {
    |color| == 7 && color[0] == '#' && forall i :: 1 <= i < 7 ==> IsHexDigit(color[i] as int)
  }

  /** Two hex digits denote 16 times the first plus the second. */
  lemma HexPair(d: seq<int>)
    requires |d| == 2 && AllHex(d)
    ensures HexValue(d) == 16 * HexDigitValue(d[0]) + HexDigitValue(d[1])
  {
    assert d[..1][..0] == [];
  }

  function PairValue(color: string, at: nat): nat
    requires at + 1 < |color| && IsHexDigit(color[at] as int) && IsHexDigit(color[at + 1] as int)
  {
    16 * HexDigitValue(color[at] as int) + HexDigitValue(color[at + 1] as int)
  }

  /** Two hex digits at `at` and `at + 1` are read as one component. */
  lemma ComponentOfDigits(color: string, at: nat)
    requires at + 1 < |color| && IsHexDigit(color[at] as int) && IsHexDigit(color[at + 1] as int)
    ensures Component(color, at) == Some(PairValue(color, at)) && PairValue(color, at) <= 255
  {
    var d := Codes(Slice(color, at, at + 2));
    assert d == [color[at] as int, color[at + 1] as int];
    HexPair(d);
  }

  /** Characters 1-2, 3-4 and 5-6 of a well-formed colour are its components, each within 0..255. */
  lemma ParseHexColor(color: string)
    requires IsHexColor(color)
    ensures ParseColor(color) == Rgb(Some(PairValue(color, 1)), Some(PairValue(color, 3)), Some(PairValue(color, 5)))
    ensures PairValue(color, 1) <= 255 && PairValue(color, 3) <= 255 && PairValue(color, 5) <= 255
  {
    ComponentOfDigits(color, 1);
    ComponentOfDigits(color, 3);
    ComponentOfDigits(color, 5);
  }

  // ---- writing a colour ----

  function HexDigitChar(d: nat): (c: char)
    requires d < 16
    ensures IsHexDigit(c as int) && HexDigitValue(c as int) == d
  {
    LowerHexDigit(d) as char
  }

  /** `#rrggbb` with lower-case digits, as the colour input reports a colour. */
  function FormatColor(r: nat, g: nat, b: nat): (c: string)
    requires r < 256 && g < 256 && b < 256
    ensures IsHexColor(c)
  {
    ['#', HexDigitChar(r / 16), HexDigitChar(r % 16), HexDigitChar(g / 16), HexDigitChar(g % 16),
     HexDigitChar(b / 16), HexDigitChar(b % 16)]
  }

  /** The two digits `FormatColor` writes for a component read back as that component. */
  lemma PairOfComponent(c: string, at: nat, v: nat)
    requires v < 256 && at + 1 < |c| && c[at] == HexDigitChar(v / 16) && c[at + 1] == HexDigitChar(v % 16)
    ensures IsHexDigit(c[at] as int) && IsHexDigit(c[at + 1] as int) && PairValue(c, at) == v
  {
  }

  /** Reading a formatted colour gives back its three components. */
  lemma ParseFormatColor(r: nat, g: nat, b: nat)
    requires r < 256 && g < 256 && b < 256
    ensures ParseColor(FormatColor(r, g, b)) == Rgb(Some(r), Some(g), Some(b))
  {
    var c := FormatColor(r, g, b);
    PairOfComponent(c, 1, r);
    PairOfComponent(c, 3, g);
    PairOfComponent(c, 5, b);
    ParseHexColor(c);
  }

  /** `toUpperCase` on the characters a colour is made of: `a`-`z` become `A`-`Z`. */
  function UpperAscii(s: string): (r: string)
    ensures |r| == |s|
    ensures forall i :: 0 <= i < |s| ==> r[i] == if 'a' <= s[i] <= 'z' then (s[i] as int - 32) as char else s[i]
  {
    seq(|s|, i requires 0 <= i < |s| => if 'a' <= s[i] <= 'z' then (s[i] as int - 32) as char else s[i])
  }

  /** The HEX field: the colour upper-cased. */
  function HexText(color: string): (r: string)
    ensures |r| == |color|
    ensures forall i :: 0 <= i < |r| ==> !('a' <= r[i] <= 'z')
  {
    UpperAscii(color)
  }

  /**
   * Upper-case and lower-case digits give the same components: the HEX field of a well-formed
   * colour is `#` and six digits, and reads as the same colour.
   */
  lemma ParseIgnoresCase(color: string)
    requires IsHexColor(color)
    ensures IsHexColor(HexText(color)) && ParseColor(HexText(color)) == ParseColor(color)
  {
    UpperSamePairs(color);
    ParseHexColor(color);
    ParseHexColor(HexText(color));
  }

  /** The upper-cased colour is well-formed and has the same digit pairs. */
  lemma UpperSamePairs(color: string)
    requires IsHexColor(color)
    ensures IsHexColor(HexText(color))
    ensures PairValue(HexText(color), 1) == PairValue(color, 1)
    ensures PairValue(HexText(color), 3) == PairValue(color, 3)
    ensures PairValue(HexText(color), 5) == PairValue(color, 5)
  {
    var u := HexText(color);
    forall i | 1 <= i < 7 ensures IsHexDigit(u[i] as int) && HexDigitValue(u[i] as int) == HexDigitValue(color[i] as int) {
      UpperDigit(color[i]);
    }
  }

  /** Upper-casing a hex digit keeps it a hex digit of the same value. */
  lemma UpperDigit(c: char)
    requires IsHexDigit(c as int)
    ensures var u := if 'a' <= c <= 'z' then (c as int - 32) as char else c;
      IsHexDigit(u as int) && HexDigitValue(u as int) == HexDigitValue(c as int)
  {
  }

  // ---- RGB to HSL ----

  /** The `hsl` state: each component a number or `NaN`. */
  datatype Hsl = Hsl(h: Option<int>, s: Option<int>, l: Option<int>)

  /** The conversion for differing components, which works in floating point and is not modelled. */
  type Chromatic = (int, int, int) -> Hsl

  /**
   * `rgbToHsl`. Equal components take the grey branch: hue and saturation 0, lightness
   * `Math.round(100 * r / 255)`. A `NaN` component leaves the hue at 0 and makes the rest `NaN`.
   */
  function RgbToHsl(rgb: Rgb, chromatic: Chromatic): (r: Hsl)
    ensures rgb.r.Some? && rgb.g.Some? && rgb.b.Some? && rgb.r == rgb.g == rgb.b ==>
      r.h == Some(0) && r.s == Some(0) && r.l.Some?
  {
    match rgb
    case Rgb(Some(r), Some(g), Some(b)) =>
      if r == g && g == b then Hsl(Some(0), Some(0), Some((200 * r + 255) / 510))
      else chromatic(r, g, b)
    case _ => Hsl(Some(0), None, None)
  }

  /** For a grey, the lightness is 100 * r / 255 rounded to the nearest integer, within 0..100. */
  lemma GreyLightness(v: int, chromatic: Chromatic)
    requires 0 <= v <= 255
    ensures var l := RgbToHsl(Rgb(Some(v), Some(v), Some(v)), chromatic).l.value;
      && 0 <= l <= 100
      && 255 * (2 * l - 1) <= 200 * v < 255 * (2 * l + 1)
  {
  }

  /** Black and white are lightness 0 and 100. */
  lemma BlackAndWhite(chromatic: Chromatic)
    ensures RgbToHsl(Rgb(Some(0), Some(0), Some(0)), chromatic) == Hsl(Some(0), Some(0), Some(0))
    ensures RgbToHsl(Rgb(Some(255), Some(255), Some(255)), chromatic) == Hsl(Some(0), Some(0), Some(100))
  {
  }

  // ---- the display fields ----

  function DigitChar(d: nat): (c: char)
    requires d < 10
    ensures '0' <= c <= '9' && c as int - '0' as int == d
  {
    ('0' as int + d) as char
  }

  /** The decimal digits of `n`, without leading zeros. */
  function Decimal(n: nat): (r: string)
    ensures r != [] && forall i :: 0 <= i < |r| ==> '0' <= r[i] <= '9'
    ensures DecimalValue(r) == n
    ensures |r| == 1 || r[0] != '0'
    decreases n
  {
    if n < 10 then [DigitChar(n)]
    else
      var r := Decimal(n / 10) + [DigitChar(n % 10)];
      assert r[..|r| - 1] == Decimal(n / 10);
      r
  }

  /** The number a string of decimal digits denotes. */
  function DecimalValue(s: string): nat
    requires forall i :: 0 <= i < |s| ==> '0' <= s[i] <= '9'
  {
    if s == [] then 0 else DecimalValue(s[..|s| - 1]) * 10 + (s[|s| - 1] as int - '0' as int)
  }

  /** A number as a template literal shows it. */
  function NumberText(v: Option<int>): string {
    match v
    case None => "NaN"
    case Some(n) => if n < 0 then "-" + Decimal(-n) else Decimal(n)
  }

  /** The RGB field. */
  function RgbText(rgb: Rgb): string {
    "rgb(" + NumberText(rgb.r) + ", " + NumberText(rgb.g) + ", " + NumberText(rgb.b) + ")"
  }

  /** The HSL field. */
  function HslText(hsl: Hsl): string {
    "hsl(" + NumberText(hsl.h) + "°, " + NumberText(hsl.s) + "%, " + NumberText(hsl.l) + "%)"
  }

  /** The RGB field of a well-formed colour shows its three components in decimal. */
  lemma RgbTextOfColor(color: string)
    requires IsHexColor(color)
    ensures RgbText(ParseColor(color))
      == "rgb(" + Decimal(PairValue(color, 1)) + ", " + Decimal(PairValue(color, 3)) + ", " + Decimal(PairValue(color, 5)) + ")"
  {
    ParseHexColor(color);
  }

  /** The HSL field of three known numbers. */
  lemma HslTextOf(h: nat, s: nat, l: nat)
    ensures HslText(Hsl(Some(h), Some(s), Some(l))) == "hsl(" + Decimal(h) + "°, " + Decimal(s) + "%, " + Decimal(l) + "%)"
  {
  }

  /** The HSL field of a grey shows hue 0, saturation 0 and the rounded lightness in decimal. */
  lemma GreyHslText(v: int, chromatic: Chromatic)
    requires 0 <= v <= 255
    ensures var l := RgbToHsl(Rgb(Some(v), Some(v), Some(v)), chromatic).l.value;
      && 0 <= l <= 100 && 255 * (2 * l - 1) <= 200 * v < 255 * (2 * l + 1)
      && HslText(RgbToHsl(Rgb(Some(v), Some(v), Some(v)), chromatic)) == "hsl(0°, 0%, " + Decimal(l) + "%)"
  {
    var hsl := RgbToHsl(Rgb(Some(v), Some(v), Some(v)), chromatic);
    GreyLightness(v, chromatic);
    HslTextOf(0, 0, hsl.l.value);
    assert Decimal(0) == "0";
  }

  // ---- the component ----

  /** The picker's state: the `useState` fields. */
  class Picker {
    var color: string
    var rgb: Rgb
    var hsl: Hsl

    /** Black, with its components and HSL all zero. */
    constructor ()
      ensures color == InitialColor
      ensures rgb == Rgb(Some(0), Some(0), Some(0)) && hsl == Hsl(Some(0), Some(0), Some(0))
    {
      color := InitialColor;
      rgb := Rgb(Some(0), Some(0), Some(0));
      hsl := Hsl(Some(0), Some(0), Some(0));
    }

    /** The components and HSL are the ones read from the colour. */
    predicate Consistent(chromatic: Chromatic)
      reads this
    {
      rgb == ParseColor(color) && hsl == RgbToHsl(rgb, chromatic)
    }

    /** `handleColorChange`: the new colour, its components and its HSL. */
    method HandleColorChange(newColor: string, chromatic: Chromatic)
      modifies this
      ensures color == newColor && rgb == ParseColor(newColor) && hsl == RgbToHsl(rgb, chromatic)
      ensures Consistent(chromatic)
    {
      color := newColor;
      rgb := ParseColor(newColor);
      hsl := RgbToHsl(rgb, chromatic);
    }
  }

  /** The initial state agrees with reading `#000000`. */
  lemma InitialIsBlack(chromatic: Chromatic)
    ensures ParseColor(InitialColor) == Rgb(Some(0), Some(0), Some(0))
    ensures RgbToHsl(ParseColor(InitialColor), chromatic) == Hsl(Some(0), Some(0), Some(0))
  {
    ZeroDigits(InitialColor);
    BlackAndWhite(chromatic);
  }

  /** A colour whose six digits are all `0` is black. */
  lemma ZeroDigits(c: string)
    requires |c| == 7 && c[0] == '#' && forall i :: 1 <= i < 7 ==> c[i] == '0'
    ensures ParseColor(c) == Rgb(Some(0), Some(0), Some(0))
  {
    assert IsHexColor(c);
    ParseHexColor(c);
  }
}
