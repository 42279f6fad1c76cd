/**
 * The compositing law of GIMP's hue layer mode, one pixel at a time and over
 * whole buffers, as pure functions. The imperative kernel in
 * hue_mode_kernel.dfy is proved to compute exactly `Composite`.
 *
 * Channels are modelled as `real`: no single-precision rounding, no NaN and
 * no infinity. The C truth tests on floats (`if (comp_alpha && new_alpha)`,
 * `if (layer_hsv.s)`) are read as comparisons with 0.0.
 */
module HueMode {
  import opened Colour

  datatype Option<T> = None | Some(value: T)

  /** One RGBA pixel of a float buffer; alpha is channel 3. */
  datatype Pixel = Pixel(r: real, g: real, b: real, a: real)
  {
    function Colour(): Rgb { Rgb(r, g, b) }
  }

  /** The four channels of `p` as they lie in a buffer. */
  function Channels(p: Pixel): (s: seq<real>)
    ensures |s| == 4
    ensures s[0] == p.r && s[1] == p.g && s[2] == p.b && s[3] == p.a
  {
    [p.r, p.g, p.b, p.a]
  }

  /** The pixel whose four channels start at offset `off` of `buf`. */
  function PixelFrom(buf: seq<real>, off: nat): (p: Pixel)
    requires off + 4 <= |buf|
    ensures Channels(p) == buf[off..off + 4]
  {
    Pixel(buf[off], buf[off + 1], buf[off + 2], buf[off + 3])
  }

  /** Pixel `i` of `buf`. */
  function PixelAt(buf: seq<real>, i: nat): (p: Pixel)
    requires 4 * i + 4 <= |buf|
    ensures Channels(p) == buf[4 * i..4 * i + 4]
  {
    PixelFrom(buf, 4 * i)
  }

  /** The mask value of sample `i`, or None when no mask is given. */
  function MaskAt(mask: Option<seq<real>>, i: nat): (m: Option<real>)
    requires mask.Some? ==> i < |mask.value|
    ensures m.Some? <==> mask.Some?
    ensures mask.Some? ==> m.value == mask.value[i]
  {
    match mask
    case None => None
    case Some(values) => Some(values[i])
  }

  /** The C macro MIN. */
  function Min(x: real, y: real): real
  {
    if x < y then x else y
  }

  /**
   * The coverage of the layer at one pixel: the smaller of the two alphas,
   * scaled by the opacity and, when a mask is given, by the mask value.
   */
  function CompositeAlpha(inAlpha: real, layerAlpha: real, opacity: real, mask: Option<real>): real
  {
    var c := Min(inAlpha, layerAlpha) * opacity;
    match mask
    case None => c
    case Some(m) => c * m
  }

  /** The accumulated alpha of the "over" operator: base alpha plus the uncovered part times the coverage. */
  function NewAlpha(inAlpha: real, comp: real): real
  {
    inAlpha + (1.0 - inAlpha) * comp
  }

  /** The fractional mix of a blended channel `x` with a base channel `y` by weight `ratio`. */
  function Mix(x: real, y: real, ratio: real): real
  {
    x * ratio + y * (1.0 - ratio)
  }

  /**
   * The hue law: the base colour with its hue replaced by the layer's hue,
   * unless the layer has no saturation, in which case the base is only
   * sent through the HSV round trip.
   */
  function HueLaw(cv: Conversions, base: Rgb, layer: Rgb): Rgb
  {
    var layerHsv := cv.rgbToHsv(layer);
    var baseHsv := cv.rgbToHsv(base);
    cv.hsvToRgb(if layerHsv.s != 0.0 then baseHsv.(h := layerHsv.h) else baseHsv)
  }

  /** True when the pixel pair is actually composited (the general branch). */
  predicate Covered(base: Pixel, layer: Pixel, mask: Option<real>, opacity: real)
  {
    var comp := CompositeAlpha(base.a, layer.a, opacity, mask);
    comp != 0.0 && NewAlpha(base.a, comp) != 0.0
  }

  /** The weight of the blended colour in the result of a covered pixel. */
  function Ratio(base: Pixel, layer: Pixel, mask: Option<real>, opacity: real): real
    requires Covered(base, layer, mask, opacity)
  {
    var comp := CompositeAlpha(base.a, layer.a, opacity, mask);
    comp / NewAlpha(base.a, comp)
  }

  /**
   * The output pixel for base pixel `base` and layer pixel `layer`, with
   * separate input and output buffers: the alpha is always the base alpha;
   * an uncovered pixel keeps the base colour; a covered one is the hue-law
   * colour mixed with the base colour by the ratio.
   */
  function BlendPixel(cv: Conversions, base: Pixel, layer: Pixel, mask: Option<real>, opacity: real): Pixel
  {
    if Covered(base, layer, mask, opacity) then
      var ratio := Ratio(base, layer, mask, opacity);
      var blended := HueLaw(cv, base.Colour(), layer.Colour());
      Pixel(Mix(blended.r, base.r, ratio), Mix(blended.g, base.g, ratio), Mix(blended.b, base.b, ratio), base.a)
    else
      base
  }

  /** `BlendPixel` of pixel `i` of each input buffer and mask entry `i`. */
  function BlendAt(cv: Conversions, input: seq<real>, layer: seq<real>, mask: Option<seq<real>>, opacity: real, i: nat): Pixel
    requires 4 * i + 4 <= |input| && 4 * i + 4 <= |layer|
    requires mask.Some? ==> i < |mask.value|
  {
    BlendPixel(cv, PixelAt(input, i), PixelAt(layer, i), MaskAt(mask, i), opacity)
  }

  /**
   * The output buffer for the first `n` pixels: pixel `k` of the result is
   * `BlendPixel` of pixel `k` of each input, mask entry `k` and the opacity.
   */
  function Composite(cv: Conversions, input: seq<real>, layer: seq<real>, mask: Option<seq<real>>, opacity: real, n: nat): (out: seq<real>)
    requires 4 * n <= |input| && 4 * n <= |layer|
    requires mask.Some? ==> n <= |mask.value|
    ensures |out| == 4 * n
    decreases n
  {
    if n == 0 then []
    else
      Composite(cv, input, layer, mask, opacity, n - 1) + Channels(BlendAt(cv, input, layer, mask, opacity, n - 1))
  }

  /**
   * What the C code computes for one pixel when the output buffer is the
   * input buffer: the hue-law colour is stored first, and the mix then
   * reads it back in place of the base colour.
   */
  function InPlacePixel(cv: Conversions, base: Pixel, layer: Pixel, mask: Option<real>, opacity: real): Pixel
  {
    if Covered(base, layer, mask, opacity) then
      var ratio := Ratio(base, layer, mask, opacity);
      var stored := HueLaw(cv, base.Colour(), layer.Colour());
      Pixel(Mix(stored.r, stored.r, ratio), Mix(stored.g, stored.g, ratio), Mix(stored.b, stored.b, ratio), base.a)
    else
      base
  }
}
