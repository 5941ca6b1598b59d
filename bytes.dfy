/**
 * imglib/bytes.go: raw frame bytes tagged with how to read them as pixels
 * (RgbBytes, RgbaBytes, YuyvBytes), the images they stand for at a given
 * width, and PixelSequence / PixelRow, a fixed-size view of such bytes
 * with its own offset arithmetic.
 */
module ImgBytes {
  import opened Ints
  import opened Geom
  import opened Wrappers
  import opened GoImage
  import Layout
  import Rgb
  import Yuyv
  import Convert

  /** The `ImageBytes` implementations: a byte slice and the pixel format it holds. */
  datatype ImageBytes =
    | RgbBytes(bytes: seq<byte>)
    | RgbaBytes(bytes: seq<byte>)
    | YuyvBytes(bytes: seq<byte>)
  {
    /** `GetBytes()`. */
    function GetBytes(): seq<byte>
    {
      bytes
    }

    /** `GetBytesPerPixel()`: 3 for RGB, 4 for RGBA, 2 for YUYV. */
    function GetBytesPerPixel(): (bpp: int)
      ensures bpp > 0
    {
      match this
      case RgbBytes(_) => 3
      case RgbaBytes(_) => 4
      case YuyvBytes(_) => 2
    }

    /** `getRect(ib, width)`: width × (len / bpp / width), at the origin (Go's truncating division); width 0 divides by zero and panics (None). */
    function GetRect(width: int): (r: Option<Rectangle>)
      ensures r.None? <==> width == 0
    {
      if width == 0 then None
      else Some(Rect(0, 0, width, Quo(Quo(|bytes|, GetBytesPerPixel()), width)))
    }

    /** `AsImage(width)`: the bytes as an image of that width, stride width·bpp, rows as many as fit; panics (None) where getRect does. */
    function AsImage(width: int): (img: Option<Convert.StdImage>)
      ensures img.None? <==> width == 0
    {
      match GetRect(width)
      case None => None
      case Some(r) =>
        var stride := width * GetBytesPerPixel();
        match this
        case RgbBytes(b) => Some(Convert.RGB(Rgb.RGB(b, stride, r)))
        case RgbaBytes(b) => Some(Convert.RGBA(RGBAImage(b, stride, r)))
        case YuyvBytes(b) => Some(Convert.YUYV(Yuyv.YUYV(b, stride, r)))
    }
  }

  /** `GetImageBytes(img)`: the buffer of a YUYV, RGB or RGBA image with its format; any other kind panics (None). */
  function GetImageBytes(img: Convert.StdImage): Option<ImageBytes>
  {
    match img
    case YUYV(i) => Some(YuyvBytes(i.pix))
    case RGB(i) => Some(RgbBytes(i.pix))
    case RGBA(i) => Some(RgbaBytes(i.pix))
    case _ => None
  }

  /** `PixelSequence`: bytes with a width and height, read without sub-images. */
  datatype PixelSequence = PixelSequence(ib: ImageBytes, dx: int, dy: int)
  {
    /** `GetStride()`: one row of Dx pixels (Dx times the bytes per pixel, written per format). */
    function GetStride(): int
    {
      match ib
      case RgbBytes(_) => 3 * dx
      case RgbaBytes(_) => 4 * dx
      case YuyvBytes(_) => 2 * dx
    }

    /** `PixOffset(x, y)`, measured from the origin. */
    function PixOffset(x: int, y: int): int
    {
      y * GetStride() + x * ib.GetBytesPerPixel()
    }

    /** `GetImage()`: the bytes as an image of width Dx; a width of 0 panics (None). */
    function GetImage(): (img: Option<Convert.StdImage>)
      ensures img.None? <==> dx == 0
    {
      ib.AsImage(dx)
    }
  }

  /** `GetPixelSequence(img)`: the image's size and bytes; panics (None) where GetImageBytes does. */
  function GetPixelSequence(img: Convert.StdImage): Option<PixelSequence>
  {
    match GetImageBytes(img)
    case Some(ib) => Some(PixelSequence(ib, img.Bounds().Dx(), img.Bounds().Dy()))
    case None => None
  }

  /** `PixelRow`: one row of a PixelSequence, from a byte offset. */
  datatype PixelRow = PixelRow(ps: PixelSequence, offset: int)
  {
    /** `GetBytes()`: the stride bytes from the offset; a slice out of range panics (None). */
    function GetBytes(): Option<seq<byte>>
    {
      var start, end := offset, offset + ps.GetStride();
      if 0 <= start <= end <= |ps.ib.bytes| then Some(ps.ib.bytes[start..end]) else None
    }
  }

  // ------------------------------------------------------------ properties

  /** The bytes per pixel are those of the image type AsImage builds. */
  lemma BytesPerPixelOfImages(b: seq<byte>)
    ensures RgbBytes(b).GetBytesPerPixel() == Rgb.BytesPerPixel == Convert.RgbBpp
    ensures RgbaBytes(b).GetBytesPerPixel() == Convert.RgbaBpp
    ensures YuyvBytes(b).GetBytesPerPixel() == Yuyv.BytesPerPixel == Convert.YuvBpp
  {
  }

  /** Go's `/` and Dafny's agree on a non-negative dividend and a positive divisor, and a·b/b == a. */
  lemma DivOfProduct(a: nat, b: int)
    requires b > 0
    ensures (b * a) / b == a
  {
    var q, r := (b * a) / b, (b * a) % b;
    assert b * a == q * b + r && 0 <= r < b;
    if q < a {
      Layout.MulMono(q + 1, a, b);
    } else if q > a {
      Layout.MulMono(a + 1, q, b);
    }
  }

  /** Rounding down by a positive divisor never overshoots. */
  lemma DivBelow(p: nat, w: int)
    requires w > 0
    ensures 0 <= p / w && (p / w) * w <= p
  {
  }

  /** The rows getRect counts fit in the bytes: height·width·bpp <= len. */
  lemma RowsWithin(n: nat, bpp: int, width: int)
    requires bpp > 0 && width > 0
    ensures var h := (n / bpp) / width; 0 <= h && (h * width) * bpp <= n
  {
    var p := n / bpp;
    DivBelow(n, bpp);
    DivBelow(p, width);
    Layout.MulMono((p / width) * width, p, bpp);
  }

  /** For a positive width, the image AsImage builds lies within its bytes: every row it claims is there. */
  lemma AsImageHolds(ib: ImageBytes, width: int)
    requires width > 0
    ensures ib.GetRect(width).Some?
    ensures var r := ib.GetRect(width).value;
      r.min == Point(0, 0) && r.Dx() == width &&
      Layout.Holds(|ib.bytes|, r, width * ib.GetBytesPerPixel(), ib.GetBytesPerPixel())
  {
    var bpp := ib.GetBytesPerPixel();
    var h := (|ib.bytes| / bpp) / width;
    RectOfBytes(ib, width, h);
    HoldsTight(|ib.bytes|, bpp, width, h);
  }

  /** getRect for a positive width: the origin to (width, the whole rows of pixels). */
  lemma RectOfBytes(ib: ImageBytes, width: int, h: int)
    requires width > 0 && h == (|ib.bytes| / ib.GetBytesPerPixel()) / width
    ensures ib.GetRect(width) == Some(Rectangle(Point(0, 0), Point(width, h)))
  {
    DivBelow(|ib.bytes|, ib.GetBytesPerPixel());
  }

  /** h whole rows of width pixels of bpp bytes fit in n bytes, laid out with stride width·bpp. */
  lemma HoldsTight(n: nat, bpp: int, width: int, h: int)
    requires bpp > 0 && width > 0 && h == (n / bpp) / width
    ensures Layout.Holds(n, Rectangle(Point(0, 0), Point(width, h)), width * bpp, bpp)
  {
    RowsWithin(n, bpp, width);
    assert bpp * width == width * bpp;
    if h > 0 {
      assert (h - 1) * (width * bpp) + bpp * width == (h * width) * bpp;
    }
  }

  /** Reading back the bytes of an image AsImage built gives the same tagged bytes. */
  lemma GetImageBytesOfAsImage(ib: ImageBytes, width: int)
    requires width != 0
    ensures ib.AsImage(width).Some? && GetImageBytes(ib.AsImage(width).value) == Some(ib)
  {
  }

  /** A buffer laid out tightly at the origin: stride bpp·Dx and bpp·Dx·Dy bytes. */
  predicate Tight(pix: seq<byte>, stride: int, rect: Rectangle, bpp: int)
  {
    rect.min == Point(0, 0) && rect.Canonical() && stride == bpp * rect.Dx() && |pix| == bpp * (rect.Dx() * rect.Dy())
  }

  /** The images GetImageBytes accepts, laid out tightly at the origin (as NewRGB, NewYUYV and image.NewRGBA make them). */
  predicate TightImage(img: Convert.StdImage)
  {
    match img
    case YUYV(i) => Tight(i.pix, i.stride, i.rect, 2)
    case RGB(i) => Tight(i.pix, i.stride, i.rect, 3)
    case RGBA(i) => Tight(i.pix, i.stride, i.rect, 4)
    case _ => false
  }

  /** A tight buffer of positive width gives back its rectangle through getRect. */
  lemma GetRectOfTight(ib: ImageBytes, stride: int, rect: Rectangle)
    requires Tight(ib.bytes, stride, rect, ib.GetBytesPerPixel()) && rect.Dx() > 0
    ensures ib.GetRect(rect.Dx()) == Some(rect)
  {
    var w, h := rect.Dx(), rect.Dy();
    Layout.MulMono(0, w, h);
    DivOfProduct(w * h, ib.GetBytesPerPixel());
    assert w * h == h * w;
    DivOfProduct(h, w);
  }

  /** A tightly laid out image of positive width survives GetImageBytes followed by AsImage at its width. */
  lemma AsImageOfImageBytes(img: Convert.StdImage)
    requires TightImage(img) && img.Bounds().Dx() > 0
    ensures GetImageBytes(img).Some? && GetImageBytes(img).value.AsImage(img.Bounds().Dx()) == Some(img)
  {
    var ib := GetImageBytes(img).value;
    match img
    case YUYV(i) => GetRectOfTight(ib, i.stride, i.rect);
    case RGB(i) => GetRectOfTight(ib, i.stride, i.rect);
    case RGBA(i) => GetRectOfTight(ib, i.stride, i.rect);
  }

  /** The PixelSequence of a tightly laid out image gives the image back, and measures offsets as the image does. */
  lemma PixelSequenceOfImage(img: Convert.StdImage, x: int, y: int)
    requires TightImage(img) && img.Bounds().Dx() > 0
    ensures var ps := GetPixelSequence(img);
      ps.Some? && ps.value.GetImage() == Some(img) &&
      ps.value.PixOffset(x, y) == Layout.Offset(img.Bounds(), ps.value.GetStride(), ps.value.ib.GetBytesPerPixel(), x, y)
  {
    AsImageOfImageBytes(img);
  }

  /** Row y of a tightly laid out RGB image starts at y·3w and its 3w bytes lie in Pix. */
  lemma RgbRowSpan(img: Rgb.RGB, y: int)
    requires Rgb.WholeAtOrigin(img) && 0 <= y < img.rect.Dy()
    ensures img.RowStart(y) == y * (3 * img.rect.Dx()) && img.RowReadable(y)
  {
    var w, h := img.rect.Dx(), img.rect.Dy();
    Layout.MulMono(0, y, 3 * w);
    Layout.MulMono(y + 1, h, 3 * w);
    assert (y + 1) * (3 * w) == y * (3 * w) + 3 * w;
    assert 3 * (w * h) == h * (3 * w);
  }

  /** The PixelSequence of an RGB image measures a row as 3·Dx bytes and puts row y where the image does. */
  lemma RgbSequenceOffsets(img: Rgb.RGB, y: int)
    requires Rgb.WholeAtOrigin(img) && 0 <= y < img.rect.Dy()
    ensures var ps := PixelSequence(RgbBytes(img.pix), img.rect.Dx(), img.rect.Dy());
      GetPixelSequence(Convert.RGB(img)) == Some(ps) &&
      ps.GetStride() == 3 * img.rect.Dx() && ps.PixOffset(0, y) == img.RowStart(y)
  {
    RgbRowSpan(img, y);
  }

  /** Row y of a tightly laid out RGB image, as a PixelRow at PixOffset(0, y), holds the colours of row y. */
  lemma PixelRowOfRgb(img: Rgb.RGB, y: int)
    requires Rgb.WholeAtOrigin(img) && 0 <= y < img.rect.Dy()
    ensures var ps := PixelSequence(RgbBytes(img.pix), img.rect.Dx(), img.rect.Dy());
      GetPixelSequence(Convert.RGB(img)) == Some(ps) &&
      img.RowReadable(y) && PixelRow(ps, ps.PixOffset(0, y)).GetBytes() == Some(Rgb.Pack(img.RowColors(y)))
  {
    var w := img.rect.Dx();
    RgbRowSpan(img, y);
    RgbSequenceOffsets(img, y);
    var start := img.RowStart(y);
    var row := img.pix[start..start + 3 * w];
    assert img.RowColors(y) == Rgb.Unpack(row);
    Rgb.PackUnpack(row, w);
  }
}
