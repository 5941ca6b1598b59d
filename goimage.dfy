/**
 * The values of Go's `image` and `image/color` packages that the image code
 * reads and builds: colours, the standard packed images (RGBA, NRGBA, RGBA64,
 * NRGBA64) and the planar 4:2:2 YCbCr image. Only their fields and the
 * constructors the code calls are written out.
 */
module GoImage {
  import opened Ints
  import opened Geom

  datatype YCbCrColor = YCbCrColor(y: byte, cb: byte, cr: byte)

  datatype RGBAColor = RGBAColor(r: byte, g: byte, b: byte, a: byte)

  /** `image.RGBA`: four bytes per pixel, alpha premultiplied. */
  datatype RGBAImage = RGBAImage(pix: seq<byte>, stride: int, rect: Rectangle)

  /** `image.NRGBA`: four bytes per pixel, alpha not premultiplied. */
  datatype NRGBAImage = NRGBAImage(pix: seq<byte>, stride: int, rect: Rectangle)

  /** `image.RGBA64`: four big-endian 16-bit channels per pixel. */
  datatype RGBA64Image = RGBA64Image(pix: seq<byte>, stride: int, rect: Rectangle)

  /** `image.NRGBA64`: four big-endian 16-bit channels per pixel, not premultiplied. */
  datatype NRGBA64Image = NRGBA64Image(pix: seq<byte>, stride: int, rect: Rectangle)

  /**
   * `image.YCbCr` with subsample ratio 4:2:2: one Y per pixel, one Cb and
   * one Cr per horizontal pair.
   */
  datatype YCbCrImage = YCbCrImage(y: seq<byte>, cb: seq<byte>, cr: seq<byte>,
                                   yStride: int, cStride: int, rect: Rectangle)

  /** `image.NewRGBA(r)`: a zeroed buffer of 4·w·h bytes with stride 4·w. */
  function NewRGBA(r: Rectangle): (img: RGBAImage)
    requires r.Canonical()
    ensures |img.pix| == 4 * r.Dx() * r.Dy() && img.stride == 4 * r.Dx() && img.rect == r
  {
    assert r.Dx() * r.Dy() >= 0;
    RGBAImage(Zeros(4 * r.Dx() * r.Dy()), 4 * r.Dx(), r)
  }

  /** `(*image.RGBA).PixOffset`. */
  function RGBAPixOffset(img: RGBAImage, x: int, y: int): int
  {
    (y - img.rect.min.y) * img.stride + (x - img.rect.min.x) * 4
  }

  /** Width of a 4:2:2 chroma row: `(Max.X+1)/2 - Min.X/2` (Go division). */
  function ChromaWidth(r: Rectangle): int
  {
    Quo(r.max.x + 1, 2) - Quo(r.min.x, 2)
  }

  /** `image.NewYCbCr(r, YCbCrSubsampleRatio422)`, for a rectangle at the origin. */
  function NewYCbCr422(r: Rectangle): (img: YCbCrImage)
    requires r.min == Point(0, 0) && r.Canonical()
    ensures |img.y| == r.Dx() * r.Dy() && img.yStride == r.Dx() && img.rect == r
    ensures img.cStride == (r.Dx() + 1) / 2 && |img.cb| == |img.cr| == img.cStride * r.Dy()
  {
    var w, h := r.Dx(), r.Dy();
    var cw := ChromaWidth(r);
    assert cw == (w + 1) / 2;
    assert w * h >= 0 && cw * h >= 0;
    YCbCrImage(Zeros(w * h), Zeros(cw * h), Zeros(cw * h), w, cw, r)
  }
}
