/**
 * What the hue-mode law guarantees, proved about the pure model in
 * hue_mode.dfy: per-pixel independence, alpha pass-through, the copy of the
 * base colour when nothing is composited, the equivalence of an absent
 * mask with an opaque one, the range of the mixing ratio, the effect of a
 * desaturated layer, and what goes wrong when the output buffer is the
 * input buffer.
 */
module HueModeProperties {
  import opened Colour
  import opened HueMode

  /** The shape every buffer-level lemma asks of its inputs. */
  predicate Shaped(input: seq<real>, layer: seq<real>, mask: Option<seq<real>>, n: nat)
  {
    4 * n <= |input| && 4 * n <= |layer| && (mask.Some? ==> n <= |mask.value|)
  }

  /**
   * Zero opacity, a zero mask value, or a zero alpha on either side (with
   * the other alpha not negative) give zero coverage.
   */
  lemma CoverageVanishes(inAlpha: real, layerAlpha: real, opacity: real, mask: Option<real>)
    ensures opacity == 0.0 || mask == Some(0.0) ==> CompositeAlpha(inAlpha, layerAlpha, opacity, mask) == 0.0
    ensures (inAlpha == 0.0 && 0.0 <= layerAlpha) || (layerAlpha == 0.0 && 0.0 <= inAlpha) ==>
      CompositeAlpha(inAlpha, layerAlpha, opacity, mask) == 0.0
  {
  }

  /** Coverage is never negative when the alphas, the opacity and the mask value are not. */
  lemma CoverageNonNegative(inAlpha: real, layerAlpha: real, opacity: real, mask: Option<real>)
    requires 0.0 <= inAlpha && 0.0 <= layerAlpha && 0.0 <= opacity
    requires mask.Some? ==> 0.0 <= mask.value
    ensures 0.0 <= CompositeAlpha(inAlpha, layerAlpha, opacity, mask)
  {
    ProductNonNegative(Min(inAlpha, layerAlpha), opacity);
    if mask.Some? {
      ProductNonNegative(Min(inAlpha, layerAlpha) * opacity, mask.value);
    }
  }

  lemma ProductNonNegative(x: real, y: real)
    requires 0.0 <= x && 0.0 <= y
    ensures 0.0 <= x * y
  {
  }

  /** Pixel `i` of the composited buffer is the blend of pixel `i` of the inputs, whatever `n > i` is. */
  lemma {:induction false} CompositeAt(cv: Conversions, input: seq<real>, layer: seq<real>, mask: Option<seq<real>>,
                                       opacity: real, n: nat, i: nat)
    requires Shaped(input, layer, mask, n)
    requires i < n
    ensures PixelAt(Composite(cv, input, layer, mask, opacity, n), i) == BlendAt(cv, input, layer, mask, opacity, i)
    decreases n
  {
    var prev := Composite(cv, input, layer, mask, opacity, n - 1);
    var last := Channels(BlendAt(cv, input, layer, mask, opacity, n - 1));
    if i < n - 1 {
      CompositeAt(cv, input, layer, mask, opacity, n - 1, i);
      SliceOfPrefix(prev, last, 4 * i);
    } else {
      SliceOfSuffix(prev, last);
    }
  }

  lemma SliceOfPrefix(prev: seq<real>, last: seq<real>, off: nat)
    requires off + 4 <= |prev|
    ensures (prev + last)[off..off + 4] == prev[off..off + 4]
  {
  }

  lemma SliceOfSuffix(prev: seq<real>, last: seq<real>)
    requires |last| == 4
    ensures (prev + last)[|prev|..|prev| + 4] == last
  {
  }

  /**
   * Samples are independent: pixel `i` of the result depends only on pixel
   * `i` of the two inputs, mask entry `i` and the opacity, and not on the
   * sample count or on any other pixel.
   */
  lemma PixelLocality(cv: Conversions, opacity: real,
                      input1: seq<real>, layer1: seq<real>, mask1: Option<seq<real>>, n1: nat,
                      input2: seq<real>, layer2: seq<real>, mask2: Option<seq<real>>, n2: nat, i: nat)
    requires Shaped(input1, layer1, mask1, n1) && Shaped(input2, layer2, mask2, n2)
    requires i < n1 && i < n2
    requires PixelAt(input1, i) == PixelAt(input2, i) && PixelAt(layer1, i) == PixelAt(layer2, i)
    requires MaskAt(mask1, i) == MaskAt(mask2, i)
    ensures PixelAt(Composite(cv, input1, layer1, mask1, opacity, n1), i)
         == PixelAt(Composite(cv, input2, layer2, mask2, opacity, n2), i)
  {
    CompositeAt(cv, input1, layer1, mask1, opacity, n1, i);
    CompositeAt(cv, input2, layer2, mask2, opacity, n2, i);
  }

  /** Every output alpha is the base alpha, whichever branch the pixel took. */
  lemma AlphaPassThrough(cv: Conversions, input: seq<real>, layer: seq<real>, mask: Option<seq<real>>, opacity: real, n: nat)
    requires Shaped(input, layer, mask, n)
    ensures forall i :: 0 <= i < n ==> PixelAt(Composite(cv, input, layer, mask, opacity, n), i).a == PixelAt(input, i).a
  {
    forall i | 0 <= i < n
      ensures PixelAt(Composite(cv, input, layer, mask, opacity, n), i).a == PixelAt(input, i).a
    {
      CompositeAt(cv, input, layer, mask, opacity, n, i);
    }
  }

  /** An uncovered pixel of the buffer keeps its base colour, whatever the other pixels do. */
  lemma UncoveredPixelKeepsColour(cv: Conversions, input: seq<real>, layer: seq<real>, mask: Option<seq<real>>,
                                  opacity: real, n: nat, i: nat)
    requires Shaped(input, layer, mask, n) && i < n
    requires !Covered(PixelAt(input, i), PixelAt(layer, i), MaskAt(mask, i), opacity)
    ensures PixelAt(Composite(cv, input, layer, mask, opacity, n), i) == PixelAt(input, i)
  {
    CompositeAt(cv, input, layer, mask, opacity, n, i);
  }

  /** When no pixel is covered (zero composite or zero new alpha), the output is the base buffer itself. */
  lemma {:induction false} UncoveredIsIdentity(cv: Conversions, input: seq<real>, layer: seq<real>, mask: Option<seq<real>>,
                                               opacity: real, n: nat)
    requires Shaped(input, layer, mask, n)
    requires forall i :: 0 <= i < n ==> !Covered(PixelAt(input, i), PixelAt(layer, i), MaskAt(mask, i), opacity)
    ensures Composite(cv, input, layer, mask, opacity, n) == input[..4 * n]
    decreases n
  {
    if n > 0 {
      UncoveredIsIdentity(cv, input, layer, mask, opacity, n - 1);
      assert BlendAt(cv, input, layer, mask, opacity, n - 1) == PixelAt(input, n - 1);
      assert input[..4 * n] == input[..4 * (n - 1)] + input[4 * (n - 1)..4 * n];
    }
  }

  /** Opacity zero leaves the base buffer untouched, for any alphas and any mask. */
  lemma ZeroOpacityIsIdentity(cv: Conversions, input: seq<real>, layer: seq<real>, mask: Option<seq<real>>, n: nat)
    requires Shaped(input, layer, mask, n)
    ensures Composite(cv, input, layer, mask, 0.0, n) == input[..4 * n]
  {
    UncoveredIsIdentity(cv, input, layer, mask, 0.0, n);
  }

  /** An all-zero mask leaves the base buffer untouched, for any alphas and any opacity. */
  lemma ZeroMaskIsIdentity(cv: Conversions, input: seq<real>, layer: seq<real>, mask: seq<real>, opacity: real, n: nat)
    requires Shaped(input, layer, Some(mask), n)
    requires forall i :: 0 <= i < n ==> mask[i] == 0.0
    ensures Composite(cv, input, layer, Some(mask), opacity, n) == input[..4 * n]
  {
    UncoveredIsIdentity(cv, input, layer, Some(mask), opacity, n);
  }

  /**
   * A fully transparent base or layer (with the other alpha not negative)
   * leaves the base buffer untouched.
   */
  lemma TransparentIsIdentity(cv: Conversions, input: seq<real>, layer: seq<real>, mask: Option<seq<real>>, opacity: real, n: nat)
    requires Shaped(input, layer, mask, n)
    requires forall i :: 0 <= i < n ==>
      var a, la := PixelAt(input, i).a, PixelAt(layer, i).a;
      (a == 0.0 && 0.0 <= la) || (la == 0.0 && 0.0 <= a)
    ensures Composite(cv, input, layer, mask, opacity, n) == input[..4 * n]
  {
    UncoveredIsIdentity(cv, input, layer, mask, opacity, n);
  }

  /** An absent mask gives exactly the output of a mask whose every entry is 1.0. */
  lemma {:induction false} NoMaskIsOpaqueMask(cv: Conversions, input: seq<real>, layer: seq<real>, ones: seq<real>,
                                              opacity: real, n: nat)
    requires Shaped(input, layer, Some(ones), n)
    requires forall i :: 0 <= i < n ==> ones[i] == 1.0
    ensures Composite(cv, input, layer, None, opacity, n) == Composite(cv, input, layer, Some(ones), opacity, n)
    decreases n
  {
    if n > 0 {
      NoMaskIsOpaqueMask(cv, input, layer, ones, opacity, n - 1);
      var base, lay := PixelAt(input, n - 1), PixelAt(layer, n - 1);
      assert CompositeAlpha(base.a, lay.a, opacity, None) == CompositeAlpha(base.a, lay.a, opacity, Some(1.0));
      assert BlendAt(cv, input, layer, None, opacity, n - 1) == BlendAt(cv, input, layer, Some(ones), opacity, n - 1);
    }
  }

  /**
   * With alphas, opacity and mask value in [0, 1], a non-zero composite
   * alpha always reaches the general branch (the new alpha cannot be zero)
   * and the mixing ratio lies in (0, 1].
   */
  lemma RatioInUnitInterval(base: Pixel, layer: Pixel, mask: Option<real>, opacity: real)
    requires 0.0 <= base.a <= 1.0 && 0.0 <= layer.a <= 1.0 && 0.0 <= opacity <= 1.0
    requires mask.Some? ==> 0.0 <= mask.value <= 1.0
    requires CompositeAlpha(base.a, layer.a, opacity, mask) != 0.0
    ensures Covered(base, layer, mask, opacity)
    ensures 0.0 < Ratio(base, layer, mask, opacity) <= 1.0
  {
    var m := Min(base.a, layer.a);
    var c := m * opacity;
    ProductInUnitInterval(m, opacity);
    var comp := CompositeAlpha(base.a, layer.a, opacity, mask);
    if mask.Some? {
      ProductInUnitInterval(c, mask.value);
    }
    assert 0.0 < comp <= 1.0;
    var newAlpha := NewAlpha(base.a, comp);
    ProductInUnitInterval(base.a, 1.0 - comp);
    assert newAlpha - comp == base.a * (1.0 - comp);
    QuotientInUnitInterval(comp, newAlpha);
  }

  /** `x` lies between `a` and `b`, whichever of the two is larger. */
  predicate Between(x: real, a: real, b: real)
  {
    (a <= x <= b) || (b <= x <= a)
  }

  /**
   * With alphas, opacity and mask value in [0, 1], each colour channel of a
   * covered pixel lies between the hue-law channel and the base channel:
   * the mix never overshoots either colour.
   */
  lemma CoveredPixelLiesBetween(cv: Conversions, base: Pixel, layer: Pixel, mask: Option<real>, opacity: real)
    requires 0.0 <= base.a <= 1.0 && 0.0 <= layer.a <= 1.0 && 0.0 <= opacity <= 1.0
    requires mask.Some? ==> 0.0 <= mask.value <= 1.0
    requires Covered(base, layer, mask, opacity)
    ensures var p, c := BlendPixel(cv, base, layer, mask, opacity), HueLaw(cv, base.Colour(), layer.Colour());
      Between(p.r, c.r, base.r) && Between(p.g, c.g, base.g) && Between(p.b, c.b, base.b)
  {
    RatioInUnitInterval(base, layer, mask, opacity);
    var ratio, c := Ratio(base, layer, mask, opacity), HueLaw(cv, base.Colour(), layer.Colour());
    MixBetween(c.r, base.r, ratio);
    MixBetween(c.g, base.g, ratio);
    MixBetween(c.b, base.b, ratio);
  }

  /** A mix by a weight in [0, 1] lies between the two channels it mixes. */
  lemma MixBetween(x: real, y: real, ratio: real)
    requires 0.0 <= ratio <= 1.0
    ensures Between(Mix(x, y, ratio), x, y)
  {
    var t := (x - y) * ratio;
    assert Mix(x, y, ratio) == y + t;
    ScaledWithin(x - y, ratio, t);
  }

  lemma ScaledWithin(d: real, ratio: real, t: real)
    requires 0.0 <= ratio <= 1.0 && t == d * ratio
    ensures 0.0 <= d ==> 0.0 <= t <= d
    ensures d <= 0.0 ==> d <= t <= 0.0
  {
  }

  lemma ProductInUnitInterval(x: real, y: real)
    requires 0.0 <= x <= 1.0 && 0.0 <= y <= 1.0
    ensures 0.0 <= x * y <= x
  {
  }

  lemma QuotientInUnitInterval(x: real, y: real)
    requires 0.0 < x <= y
    ensures 0.0 < x / y <= 1.0
  {
  }

  /** Base and layer fully opaque, full opacity, no mask or mask 1.0: the output colour is the hue-law colour. */
  lemma OpaqueGivesHueLaw(cv: Conversions, base: Pixel, layer: Pixel, mask: Option<real>, opacity: real)
    requires base.a == 1.0 && layer.a == 1.0 && opacity == 1.0
    requires mask == None || mask == Some(1.0)
    ensures Covered(base, layer, mask, opacity) && Ratio(base, layer, mask, opacity) == 1.0
    ensures BlendPixel(cv, base, layer, mask, opacity).Colour() == HueLaw(cv, base.Colour(), layer.Colour())
  {
  }

  /** The same over buffers: with every alpha 1.0, opacity 1.0 and no mask, each output colour is the hue-law colour. */
  lemma OpaqueBufferGivesHueLaw(cv: Conversions, input: seq<real>, layer: seq<real>, n: nat)
    requires Shaped(input, layer, None, n)
    requires forall i :: 0 <= i < n ==> PixelAt(input, i).a == 1.0 && PixelAt(layer, i).a == 1.0
    ensures forall i :: 0 <= i < n ==>
      PixelAt(Composite(cv, input, layer, None, 1.0, n), i)
        == var c := HueLaw(cv, PixelAt(input, i).Colour(), PixelAt(layer, i).Colour()); Pixel(c.r, c.g, c.b, 1.0)
  {
    forall i | 0 <= i < n
      ensures PixelAt(Composite(cv, input, layer, None, 1.0, n), i)
        == var c := HueLaw(cv, PixelAt(input, i).Colour(), PixelAt(layer, i).Colour()); Pixel(c.r, c.g, c.b, 1.0)
    {
      CompositeAt(cv, input, layer, None, 1.0, n, i);
      OpaqueGivesHueLaw(cv, PixelAt(input, i), PixelAt(layer, i), None, 1.0);
    }
  }

  /**
   * A layer pixel without saturation contributes no hue: the hue-law colour
   * is the base colour sent through the HSV round trip, and two such layer
   * pixels with the same alpha give the same output whatever their hues.
   */
  lemma DesaturatedLayerHasNoHue(cv: Conversions, base: Pixel, layer1: Pixel, layer2: Pixel, mask: Option<real>, opacity: real)
    requires cv.rgbToHsv(layer1.Colour()).s == 0.0 && cv.rgbToHsv(layer2.Colour()).s == 0.0
    requires layer1.a == layer2.a
    ensures HueLaw(cv, base.Colour(), layer1.Colour()) == cv.hsvToRgb(cv.rgbToHsv(base.Colour()))
    ensures BlendPixel(cv, base, layer1, mask, opacity) == BlendPixel(cv, base, layer2, mask, opacity)
  {
  }

  /**
   * The layer colour acts only through its hue and whether it is
   * saturated: two layer pixels with the same alpha, the same hue and both
   * saturated give the same output, whatever their saturations and values.
   */
  lemma LayerActsThroughHueOnly(cv: Conversions, base: Pixel, layer1: Pixel, layer2: Pixel, mask: Option<real>, opacity: real)
    requires cv.rgbToHsv(layer1.Colour()).s != 0.0 && cv.rgbToHsv(layer2.Colour()).s != 0.0
    requires cv.rgbToHsv(layer1.Colour()).h == cv.rgbToHsv(layer2.Colour()).h
    requires layer1.a == layer2.a
    ensures BlendPixel(cv, base, layer1, mask, opacity) == BlendPixel(cv, base, layer2, mask, opacity)
  {
  }

  /**
   * The grey-under-red regression case: a 20% grey opaque base under an
   * opaque pure red layer stays the same grey, for any conversion that
   * gives grey zero saturation and maps every zero-saturation colour of
   * value 0.2 back to that grey (as any HSV conversion does).
   */
  lemma GreyUnderRedStaysGrey(cv: Conversions)
    requires cv.rgbToHsv(Rgb(1.0, 0.0, 0.0)).s == 1.0
    requires cv.rgbToHsv(Rgb(0.2, 0.2, 0.2)).s == 0.0 && cv.rgbToHsv(Rgb(0.2, 0.2, 0.2)).v == 0.2
    requires forall h :: cv.hsvToRgb(Hsv(h, 0.0, 0.2)) == Rgb(0.2, 0.2, 0.2)
    ensures BlendPixel(cv, Pixel(0.2, 0.2, 0.2, 1.0), Pixel(1.0, 0.0, 0.0, 1.0), None, 1.0) == Pixel(0.2, 0.2, 0.2, 1.0)
  {
    var base, layer := Pixel(0.2, 0.2, 0.2, 1.0), Pixel(1.0, 0.0, 0.0, 1.0);
    OpaqueGivesHueLaw(cv, base, layer, None, 1.0);
    assert HueLaw(cv, base.Colour(), layer.Colour())
        == cv.hsvToRgb(Hsv(cv.rgbToHsv(layer.Colour()).h, 0.0, 0.2));
  }

  /** `Mix` returns its first argument exactly when the weight is 1 or both arguments agree. */
  lemma MixKeepsBlended(x: real, y: real, ratio: real)
    ensures Mix(x, y, ratio) == x <==> ratio == 1.0 || x == y
  {
    assert Mix(x, y, ratio) - x == (y - x) * (1.0 - ratio);
    ProductIsZero(y - x, 1.0 - ratio);
  }

  lemma ProductIsZero(x: real, y: real)
    ensures x * y == 0.0 <==> x == 0.0 || y == 0.0
  {
  }

  /**
   * With the output buffer equal to the input buffer, a covered pixel
   * comes out as the bare hue-law colour: the ratio no longer matters and
   * the base colour does not bleed through.
   */
  lemma InPlaceDropsBaseColour(cv: Conversions, base: Pixel, layer: Pixel, mask: Option<real>, opacity: real)
    requires Covered(base, layer, mask, opacity)
    ensures InPlacePixel(cv, base, layer, mask, opacity).Colour() == HueLaw(cv, base.Colour(), layer.Colour())
  {
  }

  /**
   * In-place processing agrees with separate buffers exactly when the pixel
   * is not covered, the ratio is 1, or the hue-law colour equals the base
   * colour channel by channel.
   */
  lemma InPlaceAgreesExactly(cv: Conversions, base: Pixel, layer: Pixel, mask: Option<real>, opacity: real)
    ensures InPlacePixel(cv, base, layer, mask, opacity) == BlendPixel(cv, base, layer, mask, opacity)
        <==> (|| !Covered(base, layer, mask, opacity)
              || Ratio(base, layer, mask, opacity) == 1.0
              || HueLaw(cv, base.Colour(), layer.Colour()) == base.Colour())
  {
    if Covered(base, layer, mask, opacity) {
      var ratio, blended := Ratio(base, layer, mask, opacity), HueLaw(cv, base.Colour(), layer.Colour());
      MixKeepsBlended(blended.r, base.r, ratio);
      MixKeepsBlended(blended.g, base.g, ratio);
      MixKeepsBlended(blended.b, base.b, ratio);
    }
  }

  /**
   * A concrete input on which in-place processing differs: an opaque red
   * base under a half-transparent blue layer at full opacity. Separate
   * buffers give the half-way mix (0.5, 0, 0.5); the in-place run gives
   * pure blue. Any conversion that agrees with HSV (hue in [0, 1)) on red,
   * on blue and on blue's way back shows it.
   */
  lemma InPlaceCounterexample(cv: Conversions)
    requires cv.rgbToHsv(Rgb(1.0, 0.0, 0.0)) == Hsv(0.0, 1.0, 1.0)
    requires cv.rgbToHsv(Rgb(0.0, 0.0, 1.0)) == Hsv(2.0 / 3.0, 1.0, 1.0)
    requires cv.hsvToRgb(Hsv(2.0 / 3.0, 1.0, 1.0)) == Rgb(0.0, 0.0, 1.0)
    ensures BlendPixel(cv, Pixel(1.0, 0.0, 0.0, 1.0), Pixel(0.0, 0.0, 1.0, 0.5), None, 1.0) == Pixel(0.5, 0.0, 0.5, 1.0)
    ensures InPlacePixel(cv, Pixel(1.0, 0.0, 0.0, 1.0), Pixel(0.0, 0.0, 1.0, 0.5), None, 1.0) == Pixel(0.0, 0.0, 1.0, 1.0)
  {
    var base, layer := Pixel(1.0, 0.0, 0.0, 1.0), Pixel(0.0, 0.0, 1.0, 0.5);
    assert CompositeAlpha(base.a, layer.a, 1.0, None) == 0.5;
    assert Covered(base, layer, None, 1.0) && Ratio(base, layer, None, 1.0) == 0.5;
    assert HueLaw(cv, base.Colour(), layer.Colour()) == Rgb(0.0, 0.0, 1.0);
  }
}
