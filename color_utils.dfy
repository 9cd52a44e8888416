/**
 * The colour helpers: normalising an HSL triple, converting it to RGB
 * channels and printing those as a `#rrggbb` string.  Hue, saturation and
 * lightness are integers; the conversion to RGB is computed over exact
 * rationals.
 */
module ColorUtils {
  import opened JsPrims

  datatype Hsl = Hsl(h: int, s: int, l: int)
  datatype Rgb = Rgb(r: int, g: int, b: int)


  /** Math.max(0, Math.min(100, x)). */
  function Clamp(x: int): (c: int)
    ensures 0 <= c <= 100
    ensures 0 <= x <= 100 ==> c == x
    ensures x < 0 ==> c == 0
    ensures x > 100 ==> c == 100
  {
    Max(0, Min(100, x))
  }

  /**
   * validateHslValue: ((h % 360) + 360) % 360 with JavaScript's truncating
   * remainder, which is the hue reduced into [0, 360); s and l clamped to
   * [0, 100].
   */
  function ValidateHsl(h: int, s: int, l: int): (v: Hsl)
    ensures 0 <= v.h < 360 && v.h == h % 360
    ensures 0 <= v.s <= 100 && 0 <= v.l <= 100
    ensures 0 <= s <= 100 ==> v.s == s
    ensures 0 <= l <= 100 ==> v.l == l
  {
    Hsl(JsRem(JsRem(h, 360) + 360, 360), Clamp(s), Clamp(l))
  }

  predicate IsNormal(v: Hsl) {
    0 <= v.h < 360 && 0 <= v.s <= 100 && 0 <= v.l <= 100
  }

  /** Hues a whole number of turns apart normalise alike. */
  lemma HuePeriodic(h: int, k: int, s: int, l: int)
    ensures ValidateHsl(h + 360 * k, s, l) == ValidateHsl(h, s, l)
  {
    assert (h + 360 * k) % 360 == h % 360;
  }

  /** A normal triple is its own normalisation, so normalising twice is normalising once. */
  lemma ValidateNormal(v: Hsl)
    requires IsNormal(v)
    ensures ValidateHsl(v.h, v.s, v.l) == v
  {
  }

  lemma ValidateIdempotent(h: int, s: int, l: int)
    ensures var v := ValidateHsl(h, s, l); ValidateHsl(v.h, v.s, v.l) == v
  {
    ValidateNormal(ValidateHsl(h, s, l));
  }

  // ---------------------------------------------------------------------
  // hslToRgb
  // ---------------------------------------------------------------------

  function RealMin(a: real, b: real): real { if a <= b then a else b }
  function RealMax(a: real, b: real): real { if a >= b then a else b }

  /** Math.round: the nearest integer, halves rounded up. */
  function Round(x: real): int { (x + 0.5).Floor }

  /** k(n) = (n + h / 30) % 12, for non-negative arguments. */
  function Sector(n: real, hue: int): (k: real)
    requires n >= 0.0 && hue >= 0
    ensures 0.0 <= k < 12.0
  {
    var x := n + hue as real / 30.0;
    x - 12.0 * ((x / 12.0).Floor as real)
  }

  lemma MulNonNegative(x: real, y: real)
    requires x >= 0.0 && y >= 0.0
    ensures x * y >= 0.0
  {
  }

  /** A share s of m, taken with factor c in [-1, 1], stays within m of zero. */
  lemma ScaledWithin(s: real, m: real, c: real)
    requires 0.0 <= s <= 1.0 && 0.0 <= m && -1.0 <= c <= 1.0
    ensures -m <= (s * m) * c <= m
  {
    var a := s * m;
    MulNonNegative(s, m);
    MulNonNegative(1.0 - s, m);
    assert (1.0 - s) * m == m - a;
    MulNonNegative(a, 1.0 - c);
    assert a * (1.0 - c) == a - a * c;
    MulNonNegative(a, 1.0 + c);
    assert a * (1.0 + c) == a + a * c;
    assert a * c == (s * m) * c;
    assert -m <= a * c <= m;
  }

  /** l - a * c with a = s * min(l, 1 - l) lies in [0, 1]. */
  lemma LevelWithin(s: real, l: real, c: real)
    requires 0.0 <= s <= 1.0 && 0.0 <= l <= 1.0 && -1.0 <= c <= 1.0
    ensures 0.0 <= l - (s * RealMin(l, 1.0 - l)) * c <= 1.0
  {
    var m := RealMin(l, 1.0 - l);
    ScaledWithin(s, m, c);
    LevelMinus(l, m, (s * m) * c);
  }

  /** Taking p with |p| <= min(l, 1 - l) from a level l leaves a level. */
  lemma LevelMinus(l: real, m: real, p: real)
    requires 0.0 <= l <= 1.0 && m == RealMin(l, 1.0 - l) && -m <= p <= m
    ensures 0.0 <= l - p <= 1.0
  {
  }

  /** f(n) of hslToRgb on a normal triple, a level in [0, 1]. */
  function Level(n: real, v: Hsl): (f: real)
    requires n >= 0.0 && IsNormal(v)
    ensures 0.0 <= f <= 1.0
  {
    var s := v.s as real / 100.0;
    var l := v.l as real / 100.0;
    var k := Sector(n, v.h);
    var m := RealMin(l, 1.0 - l);
    var c := RealMax(-1.0, RealMin(k - 3.0, RealMin(9.0 - k, 1.0)));
    LevelWithin(s, l, c);
    l - (s * m) * c
  }

  /** Math.round(255 * f(n)). */
  function Channel(n: real, v: Hsl): (c: int)
    requires n >= 0.0 && IsNormal(v)
    ensures 0 <= c <= 255
  {
    Round(255.0 * Level(n, v))
  }

  /** hslToRgb: normalise, then take f(0), f(8) and f(4) as red, green and blue. */
  function HslToRgb(h: int, s: int, l: int): (c: Rgb)
    ensures 0 <= c.r <= 255 && 0 <= c.g <= 255 && 0 <= c.b <= 255
  {
    var v := ValidateHsl(h, s, l);
    Rgb(Channel(0.0, v), Channel(8.0, v), Channel(4.0, v))
  }

  /** The conversion sees only the normalised triple. */
  lemma HslToRgbNormalises(h: int, s: int, l: int)
    ensures var v := ValidateHsl(h, s, l); HslToRgb(h, s, l) == HslToRgb(v.h, v.s, v.l)
  {
    ValidateIdempotent(h, s, l);
  }

  /** At full saturation and half lightness f(n) is 1 in sector 0 and 0 in sectors 4 and 8. */
  lemma FullSaturationLevel(n: real, v: Hsl)
    requires n >= 0.0 && v.s == 100 && v.l == 50 && 0 <= v.h < 360
    ensures Sector(n, v.h) == 0.0 ==> Level(n, v) == 1.0
    ensures Sector(n, v.h) == 4.0 || Sector(n, v.h) == 8.0 ==> Level(n, v) == 0.0
  {
    assert v.s as real / 100.0 == 1.0 && v.l as real / 100.0 == 0.5;
    assert RealMin(0.5, 1.0 - 0.5) == 0.5;
  }

  /** Below two full turns of twelve, k(n) is the offset taken once or twice around. */
  lemma SectorBelowTwoTurns(n: real, hue: int)
    requires n >= 0.0 && hue >= 0 && n + hue as real / 30.0 < 24.0
    ensures var x := n + hue as real / 30.0; Sector(n, hue) == if x < 12.0 then x else x - 12.0
  {
    var x := n + hue as real / 30.0;
    if x < 12.0 {
      assert (x / 12.0).Floor == 0;
    } else {
      assert (x / 12.0).Floor == 1;
    }
  }

  /** The channels at full saturation and half lightness of a hue whose sectors for red, green and blue are given. */
  lemma PrimaryChannels(hue: int, kr: real, kg: real, kb: real)
    requires 0 <= hue < 360
    requires Sector(0.0, hue) == kr && Sector(8.0, hue) == kg && Sector(4.0, hue) == kb
    requires kr in {0.0, 4.0, 8.0} && kg in {0.0, 4.0, 8.0} && kb in {0.0, 4.0, 8.0}
    ensures HslToRgb(hue, 100, 50) == Rgb(if kr == 0.0 then 255 else 0, if kg == 0.0 then 255 else 0, if kb == 0.0 then 255 else 0)
  {
    var v := Hsl(hue, 100, 50);
    assert ValidateHsl(hue, 100, 50) == v;
    assert Round(255.0) == 255 && Round(0.0) == 0;
    FullSaturationLevel(0.0, v);
    FullSaturationLevel(8.0, v);
    FullSaturationLevel(4.0, v);
  }

  /** The sectors of red, green and blue at a hue below 240 degrees. */
  lemma SectorsOf(hue: int)
    requires 0 <= hue <= 240
    ensures Sector(0.0, hue) == hue as real / 30.0
    ensures var x := 8.0 + hue as real / 30.0; Sector(8.0, hue) == if x < 12.0 then x else x - 12.0
    ensures var x := 4.0 + hue as real / 30.0; Sector(4.0, hue) == if x < 12.0 then x else x - 12.0
  {
    SectorBelowTwoTurns(0.0, hue);
    SectorBelowTwoTurns(8.0, hue);
    SectorBelowTwoTurns(4.0, hue);
  }

  /** Full saturation at half lightness gives the primaries at hues 0, 120 and 240. */
  lemma Primaries()
    ensures HslToRgb(0, 100, 50) == Rgb(255, 0, 0)
    ensures HslToRgb(120, 100, 50) == Rgb(0, 255, 0)
    ensures HslToRgb(240, 100, 50) == Rgb(0, 0, 255)
  {
    SectorsOf(0);
    PrimaryChannels(0, 0.0, 8.0, 4.0);
    SectorsOf(120);
    PrimaryChannels(120, 4.0, 0.0, 8.0);
    SectorsOf(240);
    PrimaryChannels(240, 8.0, 4.0, 0.0);
  }

  /** Without saturation f(n) is the lightness itself. */
  lemma UnsaturatedLevel(n: real, v: Hsl)
    requires n >= 0.0 && IsNormal(v) && v.s == 0
    ensures Level(n, v) == v.l as real / 100.0
  {
    var m := RealMin(v.l as real / 100.0, 1.0 - v.l as real / 100.0);
    assert v.s as real / 100.0 == 0.0;
    assert 0.0 * m == 0.0;
  }

  /** Without saturation every channel is the same grey. */
  lemma Achromatic(h: int, s: int, l: int)
    requires s <= 0
    ensures HslToRgb(h, s, l).r == HslToRgb(h, s, l).g == HslToRgb(h, s, l).b
    ensures HslToRgb(h, s, l).r == Round(255.0 * (Clamp(l) as real / 100.0))
  {
    var v := ValidateHsl(h, s, l);
    UnsaturatedLevel(0.0, v);
    UnsaturatedLevel(8.0, v);
    UnsaturatedLevel(4.0, v);
  }

  /** At lightness 0 or 100 the share a is zero, so f(n) is the lightness. */
  lemma ExtremeLevel(n: real, v: Hsl)
    requires n >= 0.0 && IsNormal(v) && (v.l == 0 || v.l == 100)
    ensures Level(n, v) == v.l as real / 100.0
  {
    var l := v.l as real / 100.0;
    assert RealMin(l, 1.0 - l) == 0.0;
    assert (v.s as real / 100.0) * 0.0 == 0.0;
  }

  /** Lightness 0 is black and lightness 100 is white, whatever the hue and saturation. */
  lemma BlackAndWhite(h: int, s: int, l: int)
    ensures l <= 0 ==> HslToRgb(h, s, l) == Rgb(0, 0, 0)
    ensures l >= 100 ==> HslToRgb(h, s, l) == Rgb(255, 255, 255)
  {
    var v := ValidateHsl(h, s, l);
    if l <= 0 || l >= 100 {
      ExtremeLevel(0.0, v);
      ExtremeLevel(8.0, v);
      ExtremeLevel(4.0, v);
      assert Round(0.0) == 0 && Round(255.0) == 255;
    }
  }

  // ---------------------------------------------------------------------
  // hslToHex
  // ---------------------------------------------------------------------

  predicate IsChannels(c: Rgb) {
    0 <= c.r <= 255 && 0 <= c.g <= 255 && 0 <= c.b <= 255
  }

  /** `n.toString(16).padStart(2, '0')`. */
  function HexPair(n: nat): string
  {
    PadStart(ToHex(n), 2, '0')
  }

  /** The template of hslToHex: '#' and the three pairs in the order red, green, blue. */
  function RgbHex(c: Rgb): (hex: string)
    requires IsChannels(c)
  {
    "#" + (HexPair(c.r) + (HexPair(c.g) + HexPair(c.b)))
  }

  /** The seven characters of the printed colour: '#', then each channel's high and low digit. */
  lemma RgbHexDigits(c: Rgb)
    requires IsChannels(c)
    ensures RgbHex(c) == ['#', HexDigit(c.r / 16), HexDigit(c.r % 16), HexDigit(c.g / 16),
                          HexDigit(c.g % 16), HexDigit(c.b / 16), HexDigit(c.b % 16)]
  {
    TwoHexDigits(c.r);
    TwoHexDigits(c.g);
    TwoHexDigits(c.b);
  }

  /** The value of a two-digit hexadecimal pair. */
  function PairValue(x: char, y: char): int
  {
    16 * HexValue(x) + HexValue(y)
  }

  /** The two digits of a byte read back as the byte. */
  lemma PairOfByte(n: nat)
    requires n < 256
    ensures PairValue(HexDigit(n / 16), HexDigit(n % 16)) == n
  {
    HexValueOfDigit(n / 16);
    HexValueOfDigit(n % 16);
  }

  /** Seven characters laid out as RgbHex prints c read back as c. */
  lemma PairsOfDigits(c: Rgb, hex: string)
    requires IsChannels(c)
    requires hex == ['#', HexDigit(c.r / 16), HexDigit(c.r % 16), HexDigit(c.g / 16),
                     HexDigit(c.g % 16), HexDigit(c.b / 16), HexDigit(c.b % 16)]
    ensures PairValue(hex[1], hex[2]) == c.r && PairValue(hex[3], hex[4]) == c.g && PairValue(hex[5], hex[6]) == c.b
  {
    PairOfByte(c.r);
    PairOfByte(c.g);
    PairOfByte(c.b);
  }

  /** Reading the three pairs back gives the channels: the printed form loses nothing. */
  lemma RgbHexRoundTrip(c: Rgb)
    requires IsChannels(c)
    ensures |RgbHex(c)| == 7 && RgbHex(c)[0] == '#'
    ensures PairValue(RgbHex(c)[1], RgbHex(c)[2]) == c.r
    ensures PairValue(RgbHex(c)[3], RgbHex(c)[4]) == c.g
    ensures PairValue(RgbHex(c)[5], RgbHex(c)[6]) == c.b
  {
    RgbHexDigits(c);
    PairsOfDigits(c, RgbHex(c));
  }

  /** hslToHex. */
  function HslToHex(h: int, s: int, l: int): string
  {
    RgbHex(HslToRgb(h, s, l))
  }

  /**
   * hslToHex prints '#' and the high and low lowercase hex digit of the red,
   * green and blue channels of the same triple, and the pairs read back as
   * those channels.
   */
  lemma HexMatchesRgb(h: int, s: int, l: int)
    ensures var c := HslToRgb(h, s, l);
      HslToHex(h, s, l) == ['#', HexDigit(c.r / 16), HexDigit(c.r % 16), HexDigit(c.g / 16),
                            HexDigit(c.g % 16), HexDigit(c.b / 16), HexDigit(c.b % 16)]
    ensures var c := HslToRgb(h, s, l); var hex := HslToHex(h, s, l);
      PairValue(hex[1], hex[2]) == c.r && PairValue(hex[3], hex[4]) == c.g && PairValue(hex[5], hex[6]) == c.b
  {
    RgbHexDigits(HslToRgb(h, s, l));
    RgbHexRoundTrip(HslToRgb(h, s, l));
  }
}
