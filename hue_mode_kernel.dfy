/**
 * The hue-mode compositing kernel as the C code runs it: a loop over
 * `samples` RGBA pixels of flat float buffers that writes the output buffer
 * in place, and the thin operation wrapper that reads the opacity from the
 * operation object. Each method is proved against `Composite` of
 * hue_mode.dfy.
 *
 * The three pixel pointers `in`, `layer` and `out` of the C code move in
 * lockstep by four floats per sample, so one offset `px` stands for all
 * three; the mask pointer moves by one float per sample only when a mask
 * is given, and is kept as its own cursor `mk`. A NULL mask is `null`.
 */
module HueModeKernel {
  import opened Colour
  import opened HueMode
  import HueModeProperties

  /** The mask buffer as the pure model sees it. */
  ghost function MaskView(mask: array?<real>): (m: Option<seq<real>>)
    reads mask
    ensures m.Some? <==> mask != null
  {
    if mask == null then None else Some(mask[..])
  }

  /**
   * One iteration of the sample loop (the loop body of
   * gimp_operation_hue_mode_process_pixels) on the pixel at offset `px`
   * and the mask entry at `mk`: the four floats at `px` become
   * `BlendPixel` of the base pixel, the layer pixel and the mask value
   * found there, and nothing else in `out` changes.
   */
  method CompositePixel(cv: Conversions, input: array<real>, layer: array<real>, mask: array?<real>, out: array<real>,
                        opacity: real, px: nat, mk: nat)
    requires px + 4 <= input.Length && px + 4 <= layer.Length && px + 4 <= out.Length
    requires mask != null ==> mk < mask.Length
    requires out != input && out != layer && out != mask
    modifies out
    ensures var p := BlendPixel(cv, Pixel(input[px], input[px + 1], input[px + 2], input[px + 3]),
                                Pixel(layer[px], layer[px + 1], layer[px + 2], layer[px + 3]),
                                if mask == null then None else Some(mask[mk]), opacity);
      out[px] == p.r && out[px + 1] == p.g && out[px + 2] == p.b && out[px + 3] == p.a
    ensures forall j :: 0 <= j < out.Length && !(px <= j < px + 4) ==> out[j] == old(out[j])
  {
    ghost var base := Pixel(input[px], input[px + 1], input[px + 2], input[px + 3]);
    ghost var lay := Pixel(layer[px], layer[px + 1], layer[px + 2], layer[px + 3]);
    ghost var m := if mask == null then None else Some(mask[mk]);
    ghost var expected := BlendPixel(cv, base, lay, m, opacity);

    var layerRgb := Rgb(layer[px], layer[px + 1], layer[px + 2]);
    var outRgb := Rgb(input[px], input[px + 1], input[px + 2]);
    var compAlpha := Min(input[px + 3], layer[px + 3]) * opacity;
    if mask != null {
      compAlpha := compAlpha * mask[mk];
    }
    assert compAlpha == CompositeAlpha(base.a, lay.a, opacity, m);
    var newAlpha := NewAlpha(input[px + 3], compAlpha);

    if compAlpha != 0.0 && newAlpha != 0.0 {
      var ratio := compAlpha / newAlpha;
      HueBlend(cv, input, out, px, layerRgb, outRgb, ratio);
      assert Covered(base, lay, m, opacity) && ratio == Ratio(base, lay, m, opacity);
      assert out[px] == expected.r && out[px + 1] == expected.g && out[px + 2] == expected.b;
    } else {
      CopyColour(input, out, px);
      assert out[px] == expected.r && out[px + 1] == expected.g && out[px + 2] == expected.b;
    }

    out[px + 3] := input[px + 3];
  }

  /**
   * The general branch once the ratio is known: the hue of the layer
   * replaces the hue of the base colour unless the layer has no
   * saturation, the result goes back to RGB and is stored in `out`, and
   * the channel loop mixes it with the base colour of `input`.
   */
  method HueBlend(cv: Conversions, input: array<real>, out: array<real>, px: nat, layerRgb: Rgb, outRgb: Rgb, ratio: real)
    requires px + 3 <= input.Length && px + 3 <= out.Length && out != input
    requires outRgb == Rgb(input[px], input[px + 1], input[px + 2])
    modifies out
    ensures var blended := HueLaw(cv, outRgb, layerRgb);
      out[px] == Mix(blended.r, outRgb.r, ratio) && out[px + 1] == Mix(blended.g, outRgb.g, ratio)
      && out[px + 2] == Mix(blended.b, outRgb.b, ratio)
    ensures forall j :: 0 <= j < out.Length && !(px <= j < px + 3) ==> out[j] == old(out[j])
  {
    var layerHsv := cv.rgbToHsv(layerRgb);
    var outHsv := cv.rgbToHsv(outRgb);
    // no hue is taken from a layer without saturation (otherwise black would be painted red)
    if layerHsv.s != 0.0 {
      outHsv := outHsv.(h := layerHsv.h);
    }
    var blended := cv.hsvToRgb(outHsv);
    assert blended == HueLaw(cv, outRgb, layerRgb);

    out[px] := blended.r;
    out[px + 1] := blended.g;
    out[px + 2] := blended.b;
    MixColour(input, out, px, ratio, blended, outRgb);
  }

  /**
   * The channel loop of the general branch: each colour channel of `out`,
   * which holds the hue-law colour `stored`, becomes its mix by `ratio`
   * with the same channel `base` of `input`.
   */
  method MixColour(input: array<real>, out: array<real>, px: nat, ratio: real, ghost stored: Rgb, ghost base: Rgb)
    requires px + 3 <= input.Length && px + 3 <= out.Length && out != input
    requires forall j :: px <= j < px + 3 ==> out[j] == stored.At(j - px) && input[j] == base.At(j - px)
    modifies out
    ensures forall j :: px <= j < px + 3 ==> out[j] == Mix(stored.At(j - px), base.At(j - px), ratio)
    ensures forall j :: 0 <= j < out.Length && !(px <= j < px + 3) ==> out[j] == old(out[j])
  {
    for b := 0 to 3
      invariant forall j :: px <= j < px + b ==> out[j] == Mix(stored.At(j - px), base.At(j - px), ratio)
      invariant forall j :: px + b <= j < px + 3 ==> out[j] == stored.At(j - px)
      invariant forall j :: 0 <= j < out.Length && !(px <= j < px + 3) ==> out[j] == old(out[j])
    {
      out[px + b] := out[px + b] * ratio + input[px + b] * (1.0 - ratio);
    }
  }

  /** The channel loop of the degenerate branch: the base colour is copied to `out`. */
  method CopyColour(input: array<real>, out: array<real>, px: nat)
    requires px + 3 <= input.Length && px + 3 <= out.Length && out != input
    modifies out
    ensures out[px] == input[px] && out[px + 1] == input[px + 1] && out[px + 2] == input[px + 2]
    ensures forall j :: 0 <= j < out.Length && !(px <= j < px + 3) ==> out[j] == old(out[j])
  {
    for b := 0 to 3
      invariant forall j :: px <= j < px + b ==> out[j] == input[j]
      invariant forall j :: 0 <= j < out.Length && !(px <= j < px + b) ==> out[j] == old(out[j])
    {
      out[px + b] := input[px + b];
    }
  }

  /**
   * gimp_operation_hue_mode_process_pixels with separate input and output
   * buffers: the first `4 * samples` floats of `out` become `Composite` of
   * the inputs, everything after them is left alone, and the result is
   * always true. With `samples == 0` nothing is written.
   */
  method ProcessPixels(cv: Conversions, input: array<real>, layer: array<real>, mask: array?<real>, out: array<real>,
                       opacity: real, samples: nat) returns (ok: bool)
    requires 4 * samples <= input.Length && 4 * samples <= layer.Length && 4 * samples <= out.Length
    requires mask != null ==> samples <= mask.Length
    requires out != input && out != layer && out != mask
    modifies out
    ensures ok
    ensures out[..4 * samples] == Composite(cv, input[..], layer[..], MaskView(mask), opacity, samples)
    ensures out[4 * samples..] == old(out[4 * samples..])
  {
    var hasMask := mask != null;
    ghost var target := Composite(cv, input[..], layer[..], MaskView(mask), opacity, samples);
    var remaining := samples;
    var px, mk := 0, 0;
    while remaining > 0
      invariant remaining <= samples
      invariant px == 4 * (samples - remaining) && px <= 4 * samples
      invariant hasMask ==> mk == samples - remaining
      invariant forall j :: 0 <= j < px ==> out[j] == target[j]
      invariant forall j :: px <= j < out.Length ==> out[j] == old(out[j])
    {
      ghost var k := samples - remaining;
      remaining := remaining - 1;
      CompositeSample(cv, input, layer, mask, out, opacity, samples, k, px, mk, target);
      px := px + 4;
      if hasMask {
        mk := mk + 1;
      }
    }
    assert out[..4 * samples] == target;
    return true;
  }

  /**
   * The loop body of ProcessPixels at sample `k`: the four floats at
   * offset `px == 4 * k` of `out` become those of `target`, the whole
   * `Composite`, and nothing else in `out` changes.
   */
  method CompositeSample(cv: Conversions, input: array<real>, layer: array<real>, mask: array?<real>, out: array<real>,
                         opacity: real, ghost samples: nat, ghost k: nat, px: nat, mk: nat, ghost target: seq<real>)
    requires 4 * samples <= input.Length && 4 * samples <= layer.Length && 4 * samples <= out.Length
    requires mask != null ==> samples <= mask.Length && mk == k
    requires k < samples && px == 4 * k
    requires out != input && out != layer && out != mask
    requires target == Composite(cv, input[..], layer[..], MaskView(mask), opacity, samples)
    modifies out
    ensures forall j :: 4 * k <= j < 4 * k + 4 ==> out[j] == target[j]
    ensures forall j :: 0 <= j < out.Length && !(4 * k <= j < 4 * k + 4) ==> out[j] == old(out[j])
  {
    TargetPixel(cv, input, layer, mask, opacity, samples, k);
    CompositePixel(cv, input, layer, mask, out, opacity, px, mk);
    assert out[4 * k] == target[4 * k] && out[4 * k + 1] == target[4 * k + 1];
    assert out[4 * k + 2] == target[4 * k + 2] && out[4 * k + 3] == target[4 * k + 3];
  }

  /**
   * Sample `k` of the buffers, read straight from the arrays, determines
   * channels `4 * k` to `4 * k + 3` of their `Composite`.
   */
  lemma TargetPixel(cv: Conversions, input: array<real>, layer: array<real>, mask: array?<real>,
                    opacity: real, samples: nat, k: nat)
    requires 4 * samples <= input.Length && 4 * samples <= layer.Length
    requires mask != null ==> samples <= mask.Length
    requires k < samples
    ensures var p := BlendPixel(cv, Pixel(input[4 * k], input[4 * k + 1], input[4 * k + 2], input[4 * k + 3]),
                                Pixel(layer[4 * k], layer[4 * k + 1], layer[4 * k + 2], layer[4 * k + 3]),
                                if mask == null then None else Some(mask[k]), opacity);
      var t := Composite(cv, input[..], layer[..], MaskView(mask), opacity, samples);
      t[4 * k] == p.r && t[4 * k + 1] == p.g && t[4 * k + 2] == p.b && t[4 * k + 3] == p.a
  {
    var inputs, layers, masks := input[..], layer[..], MaskView(mask);
    HueModeProperties.CompositeAt(cv, inputs, layers, masks, opacity, samples, k);
    assert PixelAt(inputs, k) == Pixel(input[4 * k], input[4 * k + 1], input[4 * k + 2], input[4 * k + 3]);
    assert PixelAt(layers, k) == Pixel(layer[4 * k], layer[4 * k + 1], layer[4 * k + 2], layer[4 * k + 3]);
    assert MaskAt(masks, k) == if mask == null then None else Some(mask[k]);
  }

  /**
   * The hue-mode operation object. Of its state only the opacity of the
   * point-layer-mode parent class is used by the kernel.
   */
  class HueModeOperation {
    var opacity: real

    constructor (opacity: real)
      ensures this.opacity == opacity
    {
      this.opacity := opacity;
    }

    /** gimp_operation_hue_mode_process: forward to the kernel with this operation's opacity. */
    method Process(cv: Conversions, input: array<real>, layer: array<real>, mask: array?<real>, out: array<real>,
                   samples: nat) returns (ok: bool)
      requires 4 * samples <= input.Length && 4 * samples <= layer.Length && 4 * samples <= out.Length
      requires mask != null ==> samples <= mask.Length
      requires out != input && out != layer && out != mask
      modifies out
      ensures ok
      ensures out[..4 * samples] == Composite(cv, input[..], layer[..], MaskView(mask), opacity, samples)
      ensures out[4 * samples..] == old(out[4 * samples..])
    {
      ok := ProcessPixels(cv, input, layer, mask, out, opacity, samples);
    }
  }
}
