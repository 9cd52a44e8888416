/**
 * The palette shown beside the colour picker: the complementary hue, the
 * two analogous hues, four monochromatic variants, and the colour handed
 * to the picker when a swatch is chosen.  The hue arithmetic uses
 * JavaScript's truncating `%`.
 */
module ColorPalette {
  import opened Wrappers
  import opened JsPrims
  import opened ColorUtils

  /** generateComplementary: the hue half a turn away. */
  function Complementary(h: int): int {
    JsRem(h + 180, 360)
  }

  /** For a non-negative hue the complement is a hue in [0, 360), and taking it twice gives h % 360 back. */
  lemma ComplementaryInvolution(h: int)
    requires h >= 0
    ensures 0 <= Complementary(h) < 360
    ensures Complementary(h) == (h + 180) % 360
    ensures Complementary(Complementary(h)) == h % 360
  {
  }

  /** A negative hue below -180 keeps its sign: the complement is then not a hue in [0, 360). */
  lemma ComplementaryOfNegative()
    ensures Complementary(-200) == -20
  {
  }

  /** generateAnalogous: thirty degrees either side. */
  function Analogous(h: int): seq<int> {
    [JsRem(h + 30, 360), JsRem(h + 330, 360)]
  }

  /**
   * For a non-negative hue both analogous hues lie in [0, 360), they are h
   * plus and minus thirty degrees modulo 360, and stepping thirty degrees
   * forward from the second, or back from the first, gives h % 360.
   */
  lemma AnalogousHues(h: int)
    requires h >= 0
    ensures |Analogous(h)| == 2
    ensures forall i :: 0 <= i < 2 ==> 0 <= Analogous(h)[i] < 360
    ensures Analogous(h)[0] == (h + 30) % 360 && Analogous(h)[1] == (h - 30) % 360
    ensures JsRem(Analogous(h)[1] + 30, 360) == h % 360
    ensures JsRem(Analogous(h)[0] + 330, 360) == h % 360
  {
    ForwardAndBack(h, 30);
    ForwardAndBack(h, 330);
    ShiftByTurns(h - 30, 1);
  }

  /** Hues a whole number of turns apart have the same remainder. */
  lemma ShiftByTurns(y: int, k: int)
    ensures (y + 360 * k) % 360 == y % 360
  {
    assert y + 360 * k == 360 * (y / 360 + k) + y % 360;
  }

  /** Turning a non-negative hue by d and then by the rest of a full turn gives back h % 360. */
  lemma ForwardAndBack(h: int, d: int)
    requires h >= 0 && 0 < d < 360
    ensures var x := JsRem(h + d, 360); 0 <= x < 360 && x == (h + d) % 360 && JsRem(x + (360 - d), 360) == h % 360
  {
    var x := (h + d) % 360;
    JsRemOfNatural(h + d, 360);
    JsRemOfNatural(x + (360 - d), 360);
    assert x + (360 - d) == h + 360 * (1 - (h + d) / 360);
    ShiftByTurns(h, 1 - (h + d) / 360);
  }

  /** generateMonochromatic: saturation up and down by 20, then lightness up and down by 20, within [0, 100]. */
  function Monochromatic(h: int, s: int, l: int): seq<Hsl> {
    [ Hsl(h, Min(100, s + 20), l),
      Hsl(h, Max(0, s - 20), l),
      Hsl(h, s, Min(100, l + 20)),
      Hsl(h, s, Max(0, l - 20)) ]
  }

  /** The variant moves the saturation or the lightness of (h, s, l), not both, and never the hue. */
  predicate OneStep(v: Hsl, h: int, s: int, l: int) {
    v.h == h && (v.s == s || v.l == l)
  }

  lemma MonochromaticVariants(h: int, s: int, l: int)
    ensures |Monochromatic(h, s, l)| == 4
    ensures forall i :: 0 <= i < 4 ==> OneStep(Monochromatic(h, s, l)[i], h, s, l)
    // the lighter and more saturated variants step up by 20, never above 100
    ensures Monochromatic(h, s, l)[0].s <= 100 && Monochromatic(h, s, l)[2].l <= 100
    ensures s <= 80 ==> Monochromatic(h, s, l)[0].s == s + 20
    ensures l <= 80 ==> Monochromatic(h, s, l)[2].l == l + 20
    // the darker and less saturated ones step down by 20, never below 0
    ensures Monochromatic(h, s, l)[1].s >= 0 && Monochromatic(h, s, l)[3].l >= 0
    ensures s >= 20 ==> Monochromatic(h, s, l)[1].s == s - 20
    ensures l >= 20 ==> Monochromatic(h, s, l)[3].l == l - 20
  {
  }

  /** For s and l in [0, 100] every variant is in range too. */
  lemma MonochromaticInRange(h: int, s: int, l: int)
    requires 0 <= s <= 100 && 0 <= l <= 100
    ensures forall i :: 0 <= i < 4 ==>
      0 <= Monochromatic(h, s, l)[i].s <= 100 && 0 <= Monochromatic(h, s, l)[i].l <= 100
  {
  }

  /** The colour handed to onColorSelect. */
  datatype Selection = Selection(hex: string, rgb: Rgb, hsl: Hsl)

  /** handleSelect: the callback, when there is one, sees the hex text, the channels and the triple as given. */
  function HandleSelect(h: int, s: int, l: int, hasCallback: bool): Option<Selection> {
    if hasCallback then Some(Selection(HslToHex(h, s, l), HslToRgb(h, s, l), Hsl(h, s, l))) else None
  }

  /**
   * Nothing is sent without a callback; otherwise the triple passes through
   * unnormalised, the channels are those of the normalised triple, and the
   * hex text prints those same channels.
   */
  lemma SelectionConsistent(h: int, s: int, l: int, hasCallback: bool)
    ensures HandleSelect(h, s, l, hasCallback).Some? <==> hasCallback
    ensures hasCallback ==>
      var sel := HandleSelect(h, s, l, hasCallback).value;
      var v := ValidateHsl(h, s, l);
      sel.hsl == Hsl(h, s, l)
      && sel.rgb == HslToRgb(v.h, v.s, v.l)
      && |sel.hex| == 7 && sel.hex[0] == '#'
      && PairValue(sel.hex[1], sel.hex[2]) == sel.rgb.r
      && PairValue(sel.hex[3], sel.hex[4]) == sel.rgb.g
      && PairValue(sel.hex[5], sel.hex[6]) == sel.rgb.b
  {
    HslToRgbNormalises(h, s, l);
    HexMatchesRgb(h, s, l);
  }
}
