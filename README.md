# GIMP hue layer mode, modelled in Dafny

This project models GIMP's hue blend mode kernel,
`gimp_operation_hue_mode_process_pixels`. It walks `samples` RGBA pixels
stored as flat float buffers, four floats per pixel. The `in` buffer holds
the base pixels and the `layer` buffer the overlay pixels. An optional mask
supplies one float per pixel. For each pixel the kernel does the following:

- It computes a composite alpha: the smaller of the two alphas, times the
  opacity, times the mask value when a mask is given.
- It computes the accumulated "new" alpha of the over operator.
- If either of those alphas is zero, it copies the base colour.
- Otherwise it puts the layer's hue on the base colour, in HSV, but only when
  the layer is saturated. It converts the result back to RGB and mixes it
  with the base colour by `ratio = comp_alpha / new_alpha`.
- It always writes the base alpha.

The files:

- `colour.dfy` (module `Colour`) holds the RGB and HSV triples and the pair of
  colour-space conversions. The conversions belong to libgimpcolor, so they
  are uninterpreted here: a `Conversions` value carries them, and every result
  holds for any pair of functions.
- `hue_mode.dfy` (module `HueMode`) is the pure law.
  - `BlendPixel` computes one output pixel.
  - `Composite` computes the output buffer for the first `n` pixels.
  - `InPlacePixel` computes what the code writes for a pixel when `out` is the
    same memory as `in`.
- `hue_mode_properties.dfy` (module `HueModeProperties`) holds the lemmas
  about that law.
- `hue_mode_kernel.dfy` (module `HueModeKernel`) is the imperative kernel.
  - `ProcessPixels` has the sample loop over arrays, with pixel and mask
    cursors.
  - `CompositePixel`, `HueBlend`, `MixColour` and `CopyColour` are the pieces
    of the loop body, which include the per-channel loops.
  - The class `HueModeOperation` models the operation object and its
    `process` entry point.
  - Every method is proved to write exactly what `Composite` says.

Channels are `real`. The C truth tests `if (comp_alpha && new_alpha)` and
`if (layer_hsv.s)` are read as comparisons with `0.0`. A NULL mask is a
`null` array. The sample count is a `nat`.

A caller may want to pass `out` equal to `in`, to composite in place. The
code does not support that. Lines 129-131 store the hue-law colour
in `out[0..2]` before line 135 reads `in[b]` for the mix. With aliased
buffers, the mix therefore reads the hue-law colour back in place of the base
colour. This model follows the code:

- The kernel methods require separate buffers.
- `InPlacePixel` models what the code does when the buffers are aliased.
- `InPlaceAgreesExactly` and `InPlaceCounterexample` show when the two
  results differ.

## Model

| member | source | states |
|---|---|---|
| HueModeKernel.ProcessPixels | app/operations/gimpoperationhuemode.c:87-159 | for separate buffers, the first `4 * samples` floats of `out` become `Composite` of the inputs, mask and opacity; every float after them keeps its old value; the result is always true (so with `samples == 0` nothing is written and true is returned) |
| HueModeKernel.CompositeSample | app/operations/gimpoperationhuemode.c:99-156 | one iteration of the sample loop at sample `k`: floats `4k..4k+3` of `out` become those of `Composite`, and nothing else in `out` changes |
| HueModeKernel.TargetPixel | app/operations/gimpoperationhuemode.c:102-108 | the pixel read from the arrays at offset `4k` (and mask entry `k` when there is a mask) determines floats `4k..4k+3` of `Composite` through `BlendPixel` |
| HueModeKernel.CompositePixel | app/operations/gimpoperationhuemode.c:101-148 | the four floats at offset `px` of `out` become `BlendPixel` of the base pixel, the layer pixel and the mask value read there; no other float of `out` changes |
| HueModeKernel.HueBlend | app/operations/gimpoperationhuemode.c:115-136 | in the general branch, each colour channel of `out` becomes the hue-law colour mixed with the base channel by the ratio; the alpha and all other floats are untouched |
| HueModeKernel.MixColour | app/operations/gimpoperationhuemode.c:133-136 | the channel loop turns each stored hue-law channel into `stored * ratio + base * (1 - ratio)` and changes nothing else |
| HueModeKernel.CopyColour | app/operations/gimpoperationhuemode.c:138-146 | the degenerate branch copies the three base colour channels to `out` and changes nothing else |
| HueModeKernel.HueModeOperation.Process | app/operations/gimpoperationhuemode.c:72-85 | the operation's `process` forwards to the kernel with the operation's own opacity and has the kernel's whole contract |
| HueModeKernel.HueModeOperation.constructor | app/operations/gimpoperationhuemode.c:82 | the operation object holds the opacity that `process` reads |
| HueMode.Composite | app/operations/gimpoperationhuemode.c:99-156 | the composited buffer for `n` samples has exactly `4 * n` floats, one RGBA quadruple per sample |
| HueModeProperties.CoverageVanishes | app/operations/gimpoperationhuemode.c:106-108 | the composite alpha is zero when the opacity is zero, when the mask value is zero, or when either alpha is zero and the other is not negative |
| HueModeProperties.CoverageNonNegative | app/operations/gimpoperationhuemode.c:106-108 | the composite alpha is not negative when both alphas, the opacity and the mask value are not negative |
| HueModeProperties.CompositeAt | app/operations/gimpoperationhuemode.c:99-156 | pixel `i` of `Composite` for any `n > i` is `BlendPixel` of pixel `i` of each input and mask entry `i` |
| HueModeProperties.PixelLocality | app/operations/gimpoperationhuemode.c:99-156 | pixel `i` of the output depends only on pixel `i` of `in` and `layer`, mask entry `i` and the opacity; the sample count and the other pixels play no part |
| HueModeProperties.AlphaPassThrough | app/operations/gimpoperationhuemode.c:148 | for every sample `i < n`, the output alpha equals the input alpha, whichever branch was taken |
| HueModeProperties.UncoveredPixelKeepsColour | app/operations/gimpoperationhuemode.c:112-148 | an uncovered sample's output pixel is its base pixel, whatever the other samples are |
| HueModeProperties.UncoveredIsIdentity | app/operations/gimpoperationhuemode.c:112-148 | when no sample is covered, the output buffer equals the first `4 * n` floats of `in` |
| HueModeProperties.ZeroOpacityIsIdentity | app/operations/gimpoperationhuemode.c:106-146 | with opacity 0 the output buffer equals the base buffer, for any alphas and any mask |
| HueModeProperties.ZeroMaskIsIdentity | app/operations/gimpoperationhuemode.c:106-146 | with a mask that is zero everywhere, the output buffer equals the base buffer |
| HueModeProperties.TransparentIsIdentity | app/operations/gimpoperationhuemode.c:106-146 | when every sample has a zero base alpha or a zero layer alpha, and the other alpha is not negative, the output buffer equals the base buffer |
| HueModeProperties.NoMaskIsOpaqueMask | app/operations/gimpoperationhuemode.c:106-108 | a NULL mask gives exactly the output of a mask whose every entry is 1.0 |
| HueModeProperties.CoveredPixelLiesBetween | app/operations/gimpoperationhuemode.c:112-136 | with alphas, opacity and mask value in [0, 1], each colour channel of a covered pixel lies between the hue-law channel and the base channel, so the mix never overshoots either colour |
| HueModeProperties.MixBetween | app/operations/gimpoperationhuemode.c:135 | a mix by a weight in [0, 1] lies between the blended channel and the base channel |
| HueModeProperties.RatioInUnitInterval | app/operations/gimpoperationhuemode.c:106-115 | with alphas, opacity and mask value in [0, 1], a non-zero composite alpha always takes the general branch, and the ratio lies in (0, 1] |
| HueModeProperties.OpaqueGivesHueLaw | app/operations/gimpoperationhuemode.c:106-136 | with both alphas, the opacity and the mask equal to 1 (or no mask), the pixel is covered, the ratio is 1, and the output colour is the hue-law colour |
| HueModeProperties.OpaqueBufferGivesHueLaw | app/operations/gimpoperationhuemode.c:99-156 | the same over a whole buffer with opacity 1 and no mask: each output pixel is the hue-law colour with alpha 1 |
| HueModeProperties.DesaturatedLayerHasNoHue | app/operations/gimpoperationhuemode.c:117-127 | a layer pixel without saturation gives the base colour's HSV round trip as the hue-law colour, and two such layer pixels with equal alpha give the same output whatever their hues |
| HueModeProperties.LayerActsThroughHueOnly | app/operations/gimpoperationhuemode.c:117-127 | two saturated layer pixels with the same hue and alpha give the same output, whatever their saturations and values |
| HueModeProperties.GreyUnderRedStaysGrey | app/operations/gimpoperationhuemode.c:120-126 | an opaque 20% grey base under an opaque pure red layer stays the same grey (black and grey are not painted red), for any conversion that treats grey as unsaturated |
| HueModeProperties.MixKeepsBlended | app/operations/gimpoperationhuemode.c:135 | the mix returns the blended channel exactly when the ratio is 1 or the blended and base channels agree |
| HueModeProperties.InPlaceDropsBaseColour | app/operations/gimpoperationhuemode.c:129-135 | with `out` equal to `in`, a covered pixel comes out as the bare hue-law colour: the base colour no longer takes part in the mix |
| HueModeProperties.InPlaceAgreesExactly | app/operations/gimpoperationhuemode.c:129-135 | in-place and separate-buffer results for a pixel agree if and only if the pixel is uncovered, the ratio is 1, or the hue-law colour equals the base colour |
| HueModeProperties.InPlaceCounterexample | app/operations/gimpoperationhuemode.c:129-135 | for an opaque red base under a blue layer with alpha 0.5 at full opacity, separate buffers give (0.5, 0, 0.5) and the in-place run gives pure blue |

## Left out

- `roi` and `level` (app/operations/gimpoperationhuemode.c:94-95): the kernel only passes them on and never reads them, so they are not parameters of the model.
- Type definition, class initialisation and registration of the operation name (app/operations/gimpoperationhuemode.c:46-70): GObject and GEGL metadata with no computation.
- Floating point: channels, `comp_alpha`, `new_alpha` and `ratio` are `gfloat`, and `opacity` is a `gdouble`. The model computes in exact reals, so single-precision rounding, NaN and infinity are not modelled.
- `gimp_rgb_to_hsv` and `gimp_hsv_to_rgb` belong to libgimpcolor, which is not part of this model. They are the uninterpreted functions of a `Conversions` value.
- A negative `samples`: the C `glong` counter would make `while (samples--)` run on past the buffers. The model takes a `nat`.
- Aliasing of `out` with `in`, `layer` or `mask`: the kernel methods require `out` to be a different array from each of them. As explained above, the code as written does not give the separate-buffer result when `out` is `in`; `InPlacePixel` captures that per-pixel effect, but no aliased kernel method is modelled. With `out` equal to `layer` the code would still give the separate-buffer result, because lines 102 and 106 read layer pixel `k` before anything is written to pixel `k`; that case is excluded by the model too, not by the code.
- app/tools/gimpoperationtool.c: tool and dialog glue (type registration, settings, the colour-picker handler and its rescaling heuristic) with no part in the compositing law.
- app/operations/gimpoperationhardlightmode.h: it holds only type macros and a prototype, and the hard-light law is not part of this model.
