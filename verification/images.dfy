/** Pixels, images and the errors of the image pipeline. */
module Images {
  import opened Bytes

  /** An 8-bit, alpha-premultiplied RGBA pixel: Go's `color.RGBA`, the pixel
      type of the `image.RGBA` images the pipeline creates. */
  datatype Rgba = Rgba(r: uint8, g: uint8, b: uint8, a: uint8)

  /** The four 16-bit channels a decoded source pixel reports through its
      `RGBA()` method. */
  datatype Rgba64 = Rgba64(r: uint16, g: uint16, b: uint16, a: uint16)

  /** A raster whose bounds start at the origin (as every decoded PNG or JPEG
      and every image the pipeline creates does): `height` rows of `width`
      pixels, row y holding the pixels (0, y) .. (width - 1, y). */
  datatype Image<P> = Image(width: nat, height: nat, rows: seq<seq<P>>)
  {
    predicate Valid() {
      |rows| == height && forall y :: 0 <= y < height ==> |rows[y]| == width
    }

    predicate Contains(x: int, y: int) {
      0 <= x < width && 0 <= y < height
    }

    /** img.At(x, y) */
    function At(x: int, y: int): P
      requires Valid() && Contains(x, y)
    {
      rows[y][x]
    }
  }

  /** The ways the modelled operations fail. */
  datatype ImgError =
    | InvalidColor        // parseHexColor: wrong length or a non-hex digit
    | InvalidDimension    // parseDimension: not exactly one 'x'
    | InvalidWidth        // parseDimension: width not an int or not positive
    | InvalidHeight       // parseDimension: height not an int or not positive
    | ForegroundTooLarge  // CompositeCenter: a negative centring offset
}
