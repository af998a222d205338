/** Decoded RGBA images, as PIL hands them over after `convert("RGBA")`. */
module Raster {

  /** One colour or alpha channel: an 8-bit value. */
  type Channel = c: int | 0 <= c < 256

  datatype Pixel = Pixel(r: Channel, g: Channel, b: Channel, a: Channel)

  /** A pixel counts as part of a shape when its alpha strictly exceeds this value. */
  const OpacityThreshold: Channel := 128

  predicate IsOpaque(p: Pixel) {
    p.a > OpacityThreshold
  }

  /** An image of `width` x `height` pixels, stored row by row: `rows[y][x]`. */
  datatype Image = Image(width: nat, height: nat, rows: seq<seq<Pixel>>) {

    /** Every row has exactly `width` pixels and there are `height` rows. */
    predicate Valid() {
      && |rows| == height
      && forall y :: 0 <= y < |rows| ==> |rows[y]| == width
    }

    /** The pixel at column `x`, row `y` (PIL's `getpixel((x, y))`). */
    function At(x: nat, y: nat): Pixel
      requires Valid() && x < width && y < height
    {
      rows[y][x]
    }
  }
}
