/** Pixels of the fragment images: four 8-bit channels, blue, green, red and
    alpha, and the visibility test on alpha shared by the scorer and the
    reconstruction. */
module Pixels {
  newtype byte = x: int | 0 <= x < 256

  datatype Pixel = Pixel(blue: byte, green: byte, red: byte, alpha: byte)

  /** A pixel counts as part of the fragment when its alpha is above 128. */
  const VisibleAbove: byte := 128

  predicate Visible(alpha: byte)
  {
    alpha > VisibleAbove
  }
}
