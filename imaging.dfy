/**
 * Decoded images as the comparator sees them: a mode, a size and the flat
 * sequence of pixels that the imaging library hands out row by row.
 */
module Imaging {

  /** One 8-bit channel value. */
  type Sample = x: int | 0 <= x <= 255

  /** One pixel: one sample per band of the image's mode. */
  type Pixel = seq<Sample>

  /**
   * The 8-bit-per-band image modes of the imaging library: "1", "L", "P",
   * "LA", "La", "PA", "RGB", "YCbCr", "LAB", "HSV", "RGBA", "RGBa", "RGBX",
   * "CMYK".
   */
  datatype Mode =
    | Bilevel | Gray | Palette
    | GrayAlpha | GrayPremultiplied | PaletteAlpha
    | RGB | YCbCr | LAB | HSV
    | RGBA | RGBPremultiplied | RGBPadded | CMYK

  /** Number of bands (channels) of a mode. */
  function Bands(m: Mode): (n: nat)
    ensures 1 <= n <= 4
  {
    match m
    case Bilevel => 1
    case Gray => 1
    case Palette => 1
    case GrayAlpha => 2
    case GrayPremultiplied => 2
    case PaletteAlpha => 2
    case RGB => 3
    case YCbCr => 3
    case LAB => 3
    case HSV => 3
    case RGBA => 4
    case RGBPremultiplied => 4
    case RGBPadded => 4
    case CMYK => 4
  }

  datatype Image = Image(mode: Mode, width: nat, height: nat, pixels: seq<Pixel>)

  /** The (width, height) pair the source compares. */
  function Size(img: Image): (nat, nat)
  {
    (img.width, img.height)
  }

  /** Every pixel of `xs` has exactly `n` samples. */
  ghost predicate AllOfLength(xs: seq<Pixel>, n: nat)
  {
    forall i :: 0 <= i < |xs| ==> |xs[i]| == n
  }

  /** A decoded image: width * height pixels, each with one sample per band. */
  ghost predicate WellFormed(img: Image)
  {
    |img.pixels| == img.width * img.height && AllOfLength(img.pixels, Bands(img.mode))
  }
}
