/**
 * The colour types the hue-mode kernel borrows from libgimpcolor: an RGB
 * triple (GimpRGB without its alpha), an HSV triple (GimpHSV) and the pair
 * of conversions gimp_rgb_to_hsv / gimp_hsv_to_rgb. The conversions live in
 * a library that is not part of this model, so they are not defined here:
 * every member that needs them takes a `Conversions` value and its results
 * hold for whatever pair of functions that value carries.
 */
module Colour {

  /** Red, green and blue channels of a colour. */
  datatype Rgb = Rgb(r: real, g: real, b: real)
  {
    /** Channel `c` in the order red, green, blue (RED..BLUE in the C code). */
    function At(c: nat): real
      requires c < 3
    {
      if c == 0 then r else if c == 1 then g else b
    }
  }

  /** Hue, saturation and value of a colour. */
  datatype Hsv = Hsv(h: real, s: real, v: real)

  /** The two colour-space conversions, left uninterpreted. */
  datatype Conversions = Conversions(rgbToHsv: Rgb -> Hsv, hsvToRgb: Hsv -> Rgb)
}
