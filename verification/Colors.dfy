/** Contrast of colours, and a text colour that can be read on any surface. */
module Colors {
  import opened Wrappers
  import Ids

  // ----- Hexadecimal colours -----

  function Digit(c: char): Option<nat> {
    if '0' <= c <= '9' then Some(c as int - '0' as int)
    else if 'a' <= c <= 'f' then Some(c as int - 'a' as int + 10)
    else if 'A' <= c <= 'F' then Some(c as int - 'A' as int + 10)
    else None
  }

  predicate IsHex(s: string) {
    s != "" && forall i :: 0 <= i < |s| ==> Digit(s[i]).Some?
  }

  datatype Rgb = Rgb(r: nat, g: nat, b: nat)

  function Pair(high: char, low: char): nat
    requires Digit(high).Some? && Digit(low).Some?
  {
    16 * Digit(high).value + Digit(low).value
  }

  /** The channels of every accepted form; an alpha channel is dropped. */
  function Parse(color: string): (c: Option<Rgb>)
    ensures c.Some? ==> c.value.r < 256 && c.value.g < 256 && c.value.b < 256
  {
    var hex := if color != "" && color[0] == '#' then color[1..] else color;
    if !IsHex(hex) then None
    else if |hex| == 3 || |hex| == 4 then
      Some(Rgb(Pair(hex[0], hex[0]), Pair(hex[1], hex[1]), Pair(hex[2], hex[2])))
    else if |hex| == 6 || |hex| == 8 then
      Some(Rgb(Pair(hex[0], hex[1]), Pair(hex[2], hex[3]), Pair(hex[4], hex[5])))
    else None
  }

  /** A channel as two lower-case digits. */
  function ChannelText(n: nat): string
    requires n < 256
  {
    [Ids.HexDigit(n / 16), Ids.HexDigit(n % 16)]
  }

  lemma ChannelReadsBack(n: nat)
    requires n < 256
    ensures var t := ChannelText(n); IsHex(t) && Pair(t[0], t[1]) == n
  {
  }

  /** A colour written out in six digits, with or without '#' and an alpha channel, parses to its channels. */
  lemma FullFormReadsBack(c: Rgb, alpha: string)
    requires c.r < 256 && c.g < 256 && c.b < 256 && (alpha == "" || (|alpha| == 2 && IsHex(alpha)))
    ensures var digits := ChannelText(c.r) + ChannelText(c.g) + ChannelText(c.b) + alpha;
            Parse("#" + digits) == Some(c) && Parse(digits) == Some(c)
  {
    ChannelReadsBack(c.r);
    ChannelReadsBack(c.g);
    ChannelReadsBack(c.b);
    var digits := ChannelText(c.r) + ChannelText(c.g) + ChannelText(c.b) + alpha;
    assert ("#" + digits)[1..] == digits;
    assert Digit('#').None? && digits[0] == ChannelText(c.r)[0];
  }

  /** The short form stands for each of its digits doubled. */
  lemma ShortFormIsDoubled(r: char, g: char, b: char, alpha: string)
    requires |alpha| <= 1
    ensures Parse("#" + [r, g, b] + alpha) == if IsHex([r, g, b] + alpha) then Parse([r, r, g, g, b, b]) else None
  {
    var short, long := [r, g, b] + alpha, [r, r, g, g, b, b];
    assert ("#" + short)[1..] == short && "#" + [r, g, b] + alpha == "#" + short;
    if IsHex(short) {
      assert short[0] == r && short[1] == g && short[2] == b;
      assert IsHex(long);
    }
  }

  // ----- Luminance and contrast -----

  /** The transfer from an 8-bit channel to linear light: its power law is not modelled, its range is. */
  type Transfer = nat -> real

  ghost predicate Linearizes(toLinear: Transfer) {
    toLinear(0) == 0.0 && toLinear(255) == 1.0 && forall c: nat :: c < 256 ==> 0.0 <= toLinear(c) <= 1.0
  }

  /** A colour that does not parse counts as black. */
  function GetRelativeLuminance(color: string, toLinear: Transfer): real {
    match Parse(color)
    case None => 0.0
    case Some(c) => 0.2126 * toLinear(c.r) + 0.7152 * toLinear(c.g) + 0.0722 * toLinear(c.b)
  }

  function Contrast(a: real, b: real): real
    requires a >= 0.0 && b >= 0.0
  {
    var lighter, darker := if a > b then a else b, if a > b then b else a;
    (lighter + 0.05) / (darker + 0.05)
  }

  function GetContrastRatio(a: string, b: string, toLinear: Transfer): real
    requires GetRelativeLuminance(a, toLinear) >= 0.0 && GetRelativeLuminance(b, toLinear) >= 0.0
  {
    Contrast(GetRelativeLuminance(a, toLinear), GetRelativeLuminance(b, toLinear))
  }

  lemma LuminanceRange(color: string, toLinear: Transfer)
    requires Linearizes(toLinear)
    ensures 0.0 <= GetRelativeLuminance(color, toLinear) <= 1.0
  {
    hide IsHex;
    var c := Parse(color);
    if c.Some? {
      assert 0.0 <= toLinear(c.value.r) <= 1.0 && 0.0 <= toLinear(c.value.g) <= 1.0
        && 0.0 <= toLinear(c.value.b) <= 1.0;
    }
  }

  const BLACK := "#000000"
  const WHITE := "#ffffff"

  lemma Poles(toLinear: Transfer)
    requires Linearizes(toLinear)
    ensures GetRelativeLuminance(BLACK, toLinear) == 0.0 && GetRelativeLuminance(WHITE, toLinear) == 1.0
  {
    assert BLACK[1..] == "000000" && WHITE[1..] == "ffffff";
    assert Parse(BLACK) == Some(Rgb(0, 0, 0));
    assert Parse(WHITE) == Some(Rgb(255, 255, 255));
  }

  /** Black and white between them: their contrasts with any surface multiply to 21. */
  lemma PolesMultiplyTo21(luminance: real)
    requires 0.0 <= luminance <= 1.0
    ensures Contrast(0.0, luminance) * Contrast(1.0, luminance) == 21.0
    ensures Contrast(0.0, luminance) >= 1.0 && Contrast(1.0, luminance) >= 1.0
  {
    PoleContrasts(luminance);
    Cancels(luminance + 0.05);
  }

  lemma Cancels(l: real)
    requires l > 0.0
    ensures (l / 0.05) * (1.05 / l) == 21.0
  {
    var a, b := l / 0.05, 1.05 / l;
    assert a * 0.05 == l && b * l == 1.05;
    assert a == l * 20.0;
    assert a * b == 20.0 * (b * l);
  }

  lemma LargerFactor(x: real, y: real, r: real)
    requires x * y == 21.0 && x >= 1.0 && y >= 1.0 && r >= 0.0 && r * r <= 21.0
    ensures x >= r || y >= r
  {
    if x < r && y < r { ProductBelow(x, y, r); }
  }

  lemma ProductBelow(x: real, y: real, r: real)
    requires 0.0 < x < r && 0.0 < y < r
    ensures x * y < r * r
  {
    Scaled(x, r, y);
    Scaled(y, r, r);
  }

  lemma Scaled(a: real, b: real, c: real)
    requires a < b && c > 0.0
    ensures a * c < b * c
    ensures Product(a, c) < Product(b, c)
  {
  }

  /** The better of the two soft colours if it is readable enough, else the better of black and white. */
  function GetReadableTextColor(
    surface: string, darkText: string, lightText: string, minRatio: real, toLinear: Transfer): string
    requires forall color :: GetRelativeLuminance(color, toLinear) >= 0.0
  {
    var soft :=
      if GetContrastRatio(darkText, surface, toLinear) >= GetContrastRatio(lightText, surface, toLinear)
      then darkText else lightText;
    if GetContrastRatio(soft, surface, toLinear) >= minRatio then soft
    else if GetContrastRatio(BLACK, surface, toLinear) >= GetContrastRatio(WHITE, surface, toLinear) then BLACK
    else WHITE
  }

  lemma Luminances(toLinear: Transfer)
    requires Linearizes(toLinear)
    ensures forall color :: GetRelativeLuminance(color, toLinear) >= 0.0
  {
    forall color: string
      ensures GetRelativeLuminance(color, toLinear) >= 0.0
    {
      LuminanceRange(color, toLinear);
    }
  }

  /**
   * On every surface, parseable or not, and for every pair of soft colours, the chosen text colour has at
   * least the contrast asked for, as long as its square does not exceed 21; 4.5 is such a ratio.
   */
  lemma TextIsReadable(surface: string, darkText: string, lightText: string, minRatio: real, toLinear: Transfer)
    requires Linearizes(toLinear) && minRatio * minRatio <= 21.0
    ensures forall color :: GetRelativeLuminance(color, toLinear) >= 0.0
    ensures GetContrastRatio(GetReadableTextColor(surface, darkText, lightText, minRatio, toLinear), surface, toLinear)
         >= minRatio
  {
    hide Contrast, Parse;
    Luminances(toLinear);
    LuminanceRange(surface, toLinear);
    Poles(toLinear);
    var l := GetRelativeLuminance(surface, toLinear);
    PolesMultiplyTo21(l);
    if minRatio >= 0.0 {
      LargerFactor(Contrast(0.0, l), Contrast(1.0, l), minRatio);
    }
  }

  /** For a ratio whose square exceeds 21 there is a luminance on which neither black nor white is readable. */
  lemma BoundIsSharp(minRatio: real) returns (luminance: real)
    requires minRatio > 0.0 && minRatio * minRatio > 21.0 && minRatio <= 21.0
    ensures 0.0 <= luminance <= 1.0
    ensures Contrast(0.0, luminance) < minRatio && Contrast(1.0, luminance) < minRatio
  {
    hide Contrast;
    // Twenty times the surface's luminance plus 0.05, strictly between 21 / minRatio and minRatio.
    var least := Quotient(21.0, minRatio);
    assert Product(minRatio, minRatio) > 21.0;
    hide Product;
    LessByScaling(least, minRatio, minRatio);
    AtMostByScaling(1.0, least, minRatio) by { OneTimes(minRatio); }
    var l := (least + minRatio) / 40.0;
    luminance := l - 0.05;
    PoleContrasts(luminance);
    Scaled(least, 20.0 * l, minRatio);
    QuotientBelow(1.05, l, minRatio) by { TwentyTimes(l, minRatio); }
  }

  function Product(a: real, b: real): real { a * b }

  lemma OneTimes(a: real)
    ensures Product(1.0, a) == a
  {
  }

  lemma TwentyTimes(l: real, b: real)
    ensures Product(20.0 * l, b) == 20.0 * Product(l, b)
  {
  }

  lemma Quotient(a: real, b: real) returns (q: real)
    requires b > 0.0
    ensures Product(q, b) == a
  {
    q := a / b;
  }

  lemma QuotientBelow(a: real, b: real, bound: real)
    requires b > 0.0 && a < Product(b, bound)
    ensures a / b < bound
  {
  }

  lemma PoleContrasts(luminance: real)
    requires 0.0 <= luminance <= 1.0
    ensures Contrast(0.0, luminance) == (luminance + 0.05) / 0.05
    ensures Contrast(1.0, luminance) == 1.05 / (luminance + 0.05)
  {
  }

  lemma LessByScaling(a: real, b: real, c: real)
    requires c > 0.0 && Product(a, c) < Product(b, c)
    ensures a < b
  {
  }

  lemma AtMostByScaling(a: real, b: real, c: real)
    requires c > 0.0 && Product(a, c) <= Product(b, c)
    ensures a <= b
  {
  }
}
