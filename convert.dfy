/**
 * imglib/convert.go: the converters that StdImage.GetRGBA uses to turn a
 * packed image of one of the known kinds into a fresh *image.RGBA at the
 * origin. Each is the shared row walk of module Packed with its own
 * per-group conversion.
 */
module Convert {
  import opened Ints
  import opened Geom
  import opened GoImage
  import Layout
  import Packed
  import Yuyv
  import Rgb

  /** yuvBpp, rgbBpp, rgbaBpp, rgba64Bpp, nrgbaBpp, nrgba64Bpp. */
  const YuvBpp := 2
  const RgbBpp := 3
  const RgbaBpp := 4
  const Rgba64Bpp := 8
  const NrgbaBpp := 4
  const Nrgba64Bpp := 8

  // ------------------------------------------------------------ the walk

  /**
   * What a converter writes for a source of `bpp` bytes per pixel: starting
   * at PixOffset(Min), each row's bpp·Dx bytes converted group by group,
   * the rows packed back to back.
   */
  function ConvertedImage(f: Packed.PixelFn, k: nat, pix: seq<byte>, rect: Rectangle, stride: int, bpp: int): seq<byte>
    requires rect.Canonical()
  {
    Packed.Converted(f, k, pix, Layout.Offset(rect, stride, bpp, rect.min.x, rect.min.y), stride, bpp * rect.Dx(), rect.Dy())
  }

  /**
   * A source buffer that holds its rectangle, whose rows are g groups of k
   * bytes, converts to Dy rows of outLen = g·o bytes: n bytes in all.
   */
  lemma ImageReady(f: Packed.PixelFn, k: nat, o: nat, pix: seq<byte>, rect: Rectangle, stride: int, bpp: int,
                   g: nat, outLen: int, n: int)
    requires Packed.Sized(f, k, o) && Layout.Holds(|pix|, rect, stride, bpp)
    requires bpp * rect.Dx() == g * k && outLen == g * o && n == outLen * rect.Dy()
    ensures Packed.SameGroups(bpp * rect.Dx(), outLen, k, o)
    ensures Packed.RowsFit(|pix|, Layout.Offset(rect, stride, bpp, rect.min.x, rect.min.y), stride, bpp * rect.Dx(), rect.Dy())
    ensures |ConvertedImage(f, k, pix, rect, stride, bpp)| == n
  {
    Packed.GroupsOf(g, k, o);
    Rgb.RowsOf(|pix|, rect, stride, bpp);
    Packed.ConvertedLength(f, k, o, pix, 0, stride, bpp * rect.Dx(), outLen, rect.Dy());
  }

  /** The loop shared by the convert functions: fills dest, exactly its size, with the converted rows. */
  method ConvertImage(f: Packed.PixelFn, k: nat, ghost o: nat, pix: seq<byte>, rect: Rectangle, stride: int, bpp: int,
                      ghost outLen: int, dest: array<byte>)
    requires rect.Canonical() && Packed.Sized(f, k, o) && Packed.SameGroups(bpp * rect.Dx(), outLen, k, o)
    requires Packed.RowsFit(|pix|, Layout.Offset(rect, stride, bpp, rect.min.x, rect.min.y), stride, bpp * rect.Dx(), rect.Dy())
    requires dest.Length == |ConvertedImage(f, k, pix, rect, stride, bpp)|
    modifies dest
    ensures dest[..] == ConvertedImage(f, k, pix, rect, stride, bpp)
  {
    ghost var d0 := dest[..];
    Packed.ConvertRows(f, k, o, pix, Layout.Offset(rect, stride, bpp, rect.min.x, rect.min.y), stride,
                       bpp * rect.Dx(), outLen, rect.Dy(), dest);
    Packed.WrittenWhole(dest[..], d0, ConvertedImage(f, k, pix, rect, stride, bpp));
  }

  // ------------------------------------------------------------ converters

  /** The RGBA bytes convertYUYV writes: every Y1 Cb Y2 Cr group becomes two RGBA pixels. */
  function YuyvRgba(src: Yuyv.YUYV): seq<byte>
    requires src.rect.Canonical()
  {
    ConvertedImage(Packed.YuyvPairToRgba, 4, src.pix, src.rect, src.stride, YuvBpp)
  }

  /** The RGBA bytes convertRGBA64 writes: the high byte of each 16-bit channel. */
  function Rgba64Rgba(src: RGBA64Image): seq<byte>
    requires src.rect.Canonical()
  {
    ConvertedImage(Packed.HighBytes, 8, src.pix, src.rect, src.stride, Rgba64Bpp)
  }

  /** The RGBA bytes convertNRGBA writes: colour channels premultiplied by alpha. */
  function NrgbaRgba(src: NRGBAImage): seq<byte>
    requires src.rect.Canonical()
  {
    ConvertedImage(Packed.PremulNrgba, 4, src.pix, src.rect, src.stride, NrgbaBpp)
  }

  /** The RGBA bytes convertNRGBA64 writes: the high bytes premultiplied by the high byte of alpha. */
  function Nrgba64Rgba(src: NRGBA64Image): seq<byte>
    requires src.rect.Canonical()
  {
    ConvertedImage(Packed.PremulNrgba64, 8, src.pix, src.rect, src.stride, Nrgba64Bpp)
  }

  /**
   * convertYUYV: dest is image.NewRGBA of the source's size. A row is read
   * four bytes at a time, so the width must be even; an odd width runs the
   * last group past the row and the writes past the end of dest.
   */
  method ConvertYUYV(dest: array<byte>, src: Yuyv.YUYV)
    requires Layout.Holds(|src.pix|, src.rect, src.stride, YuvBpp) && src.rect.Dx() % 2 == 0
    requires dest.Length == 4 * src.rect.Dx() * src.rect.Dy()
    modifies dest
    ensures dest[..] == YuyvRgba(src)
  {
    Packed.PixelFnsSized();
    ImageReady(Packed.YuyvPairToRgba, 4, 8, src.pix, src.rect, src.stride, YuvBpp, src.rect.Dx() / 2,
               4 * src.rect.Dx(), dest.Length);
    ConvertImage(Packed.YuyvPairToRgba, 4, 8, src.pix, src.rect, src.stride, YuvBpp, 4 * src.rect.Dx(), dest);
  }

  /** convertRGBA64: dest is image.NewRGBA of the source's size. */
  method ConvertRGBA64(dest: array<byte>, src: RGBA64Image)
    requires Layout.Holds(|src.pix|, src.rect, src.stride, Rgba64Bpp)
    requires dest.Length == 4 * src.rect.Dx() * src.rect.Dy()
    modifies dest
    ensures dest[..] == Rgba64Rgba(src)
  {
    Packed.PixelFnsSized();
    ImageReady(Packed.HighBytes, 8, 4, src.pix, src.rect, src.stride, Rgba64Bpp, src.rect.Dx(),
               4 * src.rect.Dx(), dest.Length);
    ConvertImage(Packed.HighBytes, 8, 4, src.pix, src.rect, src.stride, Rgba64Bpp, 4 * src.rect.Dx(), dest);
  }

  /** convertNRGBA: dest is image.NewRGBA of the source's size. */
  method ConvertNRGBA(dest: array<byte>, src: NRGBAImage)
    requires Layout.Holds(|src.pix|, src.rect, src.stride, NrgbaBpp)
    requires dest.Length == 4 * src.rect.Dx() * src.rect.Dy()
    modifies dest
    ensures dest[..] == NrgbaRgba(src)
  {
    Packed.PixelFnsSized();
    ImageReady(Packed.PremulNrgba, 4, 4, src.pix, src.rect, src.stride, NrgbaBpp, src.rect.Dx(),
               4 * src.rect.Dx(), dest.Length);
    ConvertImage(Packed.PremulNrgba, 4, 4, src.pix, src.rect, src.stride, NrgbaBpp, 4 * src.rect.Dx(), dest);
  }

  /** convertNRGBA64: dest is image.NewRGBA of the source's size. */
  method ConvertNRGBA64(dest: array<byte>, src: NRGBA64Image)
    requires Layout.Holds(|src.pix|, src.rect, src.stride, Nrgba64Bpp)
    requires dest.Length == 4 * src.rect.Dx() * src.rect.Dy()
    modifies dest
    ensures dest[..] == Nrgba64Rgba(src)
  {
    Packed.PixelFnsSized();
    ImageReady(Packed.PremulNrgba64, 8, 4, src.pix, src.rect, src.stride, Nrgba64Bpp, src.rect.Dx(),
               4 * src.rect.Dx(), dest.Length);
    ConvertImage(Packed.PremulNrgba64, 8, 4, src.pix, src.rect, src.stride, Nrgba64Bpp, 4 * src.rect.Dx(), dest);
  }

  /** convertRGB: dest is image.NewRGBA of the source's size; the bytes are those RGB.ToRGBA builds. */
  method ConvertRGB(dest: array<byte>, src: Rgb.RGB)
    requires Layout.Holds(|src.pix|, src.rect, src.stride, RgbBpp)
    requires dest.Length == 4 * src.rect.Dx() * src.rect.Dy()
    modifies dest
    ensures dest[..] == Rgb.RgbaPix(src)
  {
    Packed.PixelFnsSized();
    ImageReady(Packed.AddAlpha, 3, 4, src.pix, src.rect, src.stride, RgbBpp, src.rect.Dx(),
               4 * src.rect.Dx(), dest.Length);
    ConvertImage(Packed.AddAlpha, 3, 4, src.pix, src.rect, src.stride, RgbBpp, 4 * src.rect.Dx(), dest);
  }

  // ------------------------------------------------------------ GetRGBA

  /** The concrete images StdImage.GetRGBA knows how to convert. */
  datatype StdImage =
    | RGBA(rgba: RGBAImage)
    | NRGBA(nrgba: NRGBAImage)
    | NRGBA64(nrgba64: NRGBA64Image)
    | RGBA64(rgba64: RGBA64Image)
    | YUYV(yuyv: Yuyv.YUYV)
    | RGB(rgb: Rgb.RGB)
  {
    /** `Bounds()`. */
    function Bounds(): Rectangle
    {
      match this
      case RGBA(i) => i.rect
      case NRGBA(i) => i.rect
      case NRGBA64(i) => i.rect
      case RGBA64(i) => i.rect
      case YUYV(i) => i.rect
      case RGB(i) => i.rect
    }

    /** The buffer holds the image's rows (and a YUYV row is whole pairs), as the converters need. */
    predicate Valid()
    {
      match this
      case RGBA(i) => true
      case NRGBA(i) => Layout.Holds(|i.pix|, i.rect, i.stride, NrgbaBpp)
      case NRGBA64(i) => Layout.Holds(|i.pix|, i.rect, i.stride, Nrgba64Bpp)
      case RGBA64(i) => Layout.Holds(|i.pix|, i.rect, i.stride, Rgba64Bpp)
      case YUYV(i) => Layout.Holds(|i.pix|, i.rect, i.stride, YuvBpp) && i.rect.Dx() % 2 == 0
      case RGB(i) => Layout.Holds(|i.pix|, i.rect, i.stride, RgbBpp)
    }
  }

  /** The image GetRGBA returns: an RGBA image itself, otherwise the converted bytes at the origin. */
  function RgbaOf(si: StdImage): RGBAImage
    requires si.Valid()
  {
    var r := si.Bounds();
    var at := Rect(0, 0, r.Dx(), r.Dy());
    match si
    case RGBA(i) => i
    case NRGBA(i) => RGBAImage(NrgbaRgba(i), 4 * r.Dx(), at)
    case NRGBA64(i) => RGBAImage(Nrgba64Rgba(i), 4 * r.Dx(), at)
    case RGBA64(i) => RGBAImage(Rgba64Rgba(i), 4 * r.Dx(), at)
    case YUYV(i) => RGBAImage(YuyvRgba(i), 4 * r.Dx(), at)
    case RGB(i) => RGBAImage(Rgb.RgbaPix(i), 4 * r.Dx(), at)
  }

  /**
   * `StdImage.GetRGBA()`: an *image.RGBA comes back as it is; every other
   * known kind is converted into a new RGBA image at the origin.
   */
  method GetRGBA(si: StdImage) returns (rgba: RGBAImage)
    requires si.Valid()
    ensures rgba == RgbaOf(si)
  {
    var r := si.Bounds();
    var blank := NewRGBA(Rect(0, 0, r.Dx(), r.Dy()));
    var dest := new byte[|blank.pix|](_ => 0);
    match si {
      case RGBA(i) =>
        return i;
      case NRGBA(i) =>
        ConvertNRGBA(dest, i);
      case NRGBA64(i) =>
        ConvertNRGBA64(dest, i);
      case RGBA64(i) =>
        ConvertRGBA64(dest, i);
      case YUYV(i) =>
        ConvertYUYV(dest, i);
      case RGB(i) =>
        ConvertRGB(dest, i);
    }
    rgba := RGBAImage(dest[..], blank.stride, blank.rect);
  }

  // ------------------------------------------------------------ properties

  /** A one-group row converts to that group's conversion. */
  lemma MapRowOne(f: Packed.PixelFn, k: nat, p: seq<byte>)
    requires k > 0 && |p| == k
    ensures Packed.MapRow(f, k, p) == f(p)
  {
    assert p[..0] == [];
    assert p[0..] == p;
  }

  /**
   * Converting a row by f and the result by f2 is converting it by h, when
   * f2 undoes (or continues) f group by group as h says.
   */
  lemma {:induction false} MapRowThen(f: Packed.PixelFn, k: nat, o: nat, f2: Packed.PixelFn, h: Packed.PixelFn, row: seq<byte>)
    requires Packed.Sized(f, k, o) && o > 0
    requires forall p: seq<byte> {:trigger f(p)} :: |p| == k ==> Packed.MapRow(f2, o, f(p)) == h(p)
    ensures Packed.MapRow(f2, o, Packed.MapRow(f, k, row)) == Packed.MapRow(h, k, row)
    decreases |row|
  {
    if |row| >= k {
      var n := |row| - k;
      MapRowThen(f, k, o, f2, h, row[..n]);
      Packed.MapRowAppend(f2, o, Packed.MapRow(f, k, row[..n]), f(row[n..]), 1);
    }
  }

  /** Converting a row of whole groups by Same gives the row. */
  lemma {:induction false} MapRowId(k: nat, row: seq<byte>, g: nat)
    requires k > 0 && |row| == g * k
    ensures Packed.MapRow(Same, k, row) == row
    decreases g
  {
    if g > 0 {
      var n := |row| - k;
      assert n == (g - 1) * k;
      MapRowId(k, row[..n], g - 1);
      assert row[..n] + row[n..] == row;
    }
  }

  /** Every pixel convertYUYV writes has alpha 0xFF. */
  lemma YuyvRgbaOpaque(src: Yuyv.YUYV)
    requires src.rect.Canonical()
    ensures Packed.Opaque(YuyvRgba(src))
  {
    forall p: seq<byte> | |p| == 4
      ensures Packed.Opaque(Packed.YuyvPairToRgba(p)) && |Packed.YuyvPairToRgba(p)| % 4 == 0
    {
      Packed.YuyvPairOpaque(p);
    }
    Packed.ConvertedOpaque(Packed.YuyvPairToRgba, 4, src.pix, Layout.Offset(src.rect, src.stride, YuvBpp, src.rect.min.x, src.rect.min.y),
                           src.stride, YuvBpp * src.rect.Dx(), src.rect.Dy());
  }

  /** A YUYV pair with neutral chroma (Cb = Cr = 128) converts to two grey pixels, r = g = b = Y. */
  lemma YuyvPairGrey(y1: byte, y2: byte)
    ensures Packed.YuyvPairToRgba([y1, 128, y2, 128]) == [y1, y1, y1, 0xFF, y2, y2, y2, 0xFF]
  {
    Packed.NeutralChromaIsGrey(y1);
    Packed.NeutralChromaIsGrey(y2);
  }

  /** The 16-bit channels Go's RGBA64 model gives an 8-bit pixel: each byte repeated, c | c<<8. */
  function Widen(p: seq<byte>): seq<byte>
  {
    if |p| < 4 then [] else [p[0], p[0], p[1], p[1], p[2], p[2], p[3], p[3]]
  }

  /** An RGBA image at the origin widened to RGBA64, stride 8·Dx. */
  function WidenImage(rgba: RGBAImage): RGBA64Image
  {
    RGBA64Image(Packed.MapRow(Widen, 4, rgba.pix), 8 * rgba.rect.Dx(), rgba.rect)
  }

  /** The widened image of a tightly laid out RGBA image is tightly laid out. */
  lemma WidenWhole(rgba: RGBAImage)
    requires Rgb.RgbaWholeAtOrigin(rgba)
    ensures |WidenImage(rgba).pix| == rgba.rect.Dy() * (8 * rgba.rect.Dx())
  {
    var w, h := rgba.rect.Dx(), rgba.rect.Dy();
    Layout.MulMono(0, w, h);
    Packed.GroupsOf(w * h, 4, 8);
    assert Packed.Sized(Widen, 4, 8);
    Packed.MapRowLength(Widen, 4, 8, rgba.pix, 8 * (w * h));
    Rgb.Area(8, w, h);
  }

  /** A tightly laid out RGBA64 image's rows start at 0, 8·w bytes apart. */
  lemma Rgba64FromZero(src: RGBA64Image, w: nat, h: nat)
    requires src.rect == Rect(0, 0, w, h) && src.stride == 8 * w
    ensures Rgba64Rgba(src) == Packed.Converted(Packed.HighBytes, 8, src.pix, 0, 8 * w, 8 * w, h)
  {
    assert src.rect.Dx() == w && src.rect.Dy() == h;
    assert Layout.Offset(src.rect, src.stride, Rgba64Bpp, src.rect.min.x, src.rect.min.y) == 0;
  }

  /** convertRGBA64's bytes of a tightly laid out image are its high bytes taken as one long row. */
  lemma Rgba64RgbaWhole(src: RGBA64Image, w: nat, h: nat)
    requires src.rect == Rect(0, 0, w, h) && src.stride == 8 * w && |src.pix| == h * (8 * w)
    ensures Rgba64Rgba(src) == Packed.MapRow(Packed.HighBytes, 8, src.pix)
  {
    Rgba64FromZero(src, w, h);
    Packed.ConvertedContiguous(Packed.HighBytes, 8, src.pix, 0, 8 * w, w, h, |src.pix|);
    Rgb.TakeAll(src.pix);
  }

  /** A group left as it is. */
  function Same(p: seq<byte>): seq<byte>
  {
    p
  }

  /** Taking the high bytes of one widened pixel gives the pixel back. */
  lemma HighBytesWidenPixel(p: seq<byte>)
    requires |p| == 4
    ensures Packed.MapRow(Packed.HighBytes, 8, Widen(p)) == Same(p)
  {
    MapRowOne(Packed.HighBytes, 8, Widen(p));
  }

  /** Taking the high bytes of a widened row of whole pixels gives the row back. */
  lemma HighBytesAfterWiden(q: seq<byte>, g: nat)
    requires |q| == 4 * g
    ensures Packed.MapRow(Packed.HighBytes, 8, Packed.MapRow(Widen, 4, q)) == q
  {
    forall p: seq<byte> | |p| == 4
      ensures Packed.MapRow(Packed.HighBytes, 8, Widen(p)) == Same(p)
    {
      HighBytesWidenPixel(p);
    }
    MapRowThen(Widen, 4, 8, Packed.HighBytes, Same, q);
    MapRowId(4, q, g);
  }

  /** convertRGBA64 undoes the 8-to-16-bit widening: the RGBA bytes come back. */
  lemma HighBytesOfWiden(rgba: RGBAImage)
    requires Rgb.RgbaWholeAtOrigin(rgba)
    ensures Rgba64Rgba(WidenImage(rgba)) == rgba.pix
  {
    var w, h := rgba.rect.Dx(), rgba.rect.Dy();
    WidenWhole(rgba);
    Rgba64RgbaWhole(WidenImage(rgba), w, h);
    Layout.MulMono(0, w, h);
    HighBytesAfterWiden(rgba.pix, w * h);
  }

  /** An opaque NRGBA pixel is already premultiplied. */
  lemma PremulOpaquePixel(p: seq<byte>)
    requires |p| == 4 && p[3] == 0xFF
    ensures Packed.PremulNrgba(p) == p
  {
    Packed.PremulBounds(p[0], p[3]);
    Packed.PremulBounds(p[1], p[3]);
    Packed.PremulBounds(p[2], p[3]);
  }

  /** An opaque NRGBA row is unchanged by premultiplication. */
  lemma {:induction false} PremulOpaqueRow(q: seq<byte>, g: nat)
    requires |q| == 4 * g && Packed.Opaque(q)
    ensures Packed.MapRow(Packed.PremulNrgba, 4, q) == q
    decreases g
  {
    if g > 0 {
      var n := |q| - 4;
      Packed.OpaquePrefix(q, n);
      PremulOpaqueRow(q[..n], g - 1);
      Packed.OpaqueLast(q, g);
      PremulOpaquePixel(q[n..]);
      assert q[..n] + q[n..] == q;
    } else {
      assert q == [];
    }
  }

  /** An NRGBA image laid out tightly at the origin: stride 4·Dx and 4·Dx·Dy bytes. */
  predicate NrgbaWholeAtOrigin(src: NRGBAImage)
  {
    src.rect.min == Point(0, 0) && src.rect.Canonical() && src.stride == 4 * src.rect.Dx() &&
    |src.pix| == 4 * (src.rect.Dx() * src.rect.Dy())
  }

  /** A tightly laid out NRGBA image's rows start at 0, 4·Dx bytes apart. */
  lemma NrgbaFromZero(src: NRGBAImage)
    requires NrgbaWholeAtOrigin(src)
    ensures NrgbaRgba(src) == Packed.Converted(Packed.PremulNrgba, 4, src.pix, 0, 4 * src.rect.Dx(), 4 * src.rect.Dx(), src.rect.Dy())
  {
    assert Layout.Offset(src.rect, src.stride, NrgbaBpp, src.rect.min.x, src.rect.min.y) == 0;
  }

  /** convertNRGBA's bytes of a tightly laid out image are its bytes premultiplied as one long row. */
  lemma NrgbaRgbaWhole(src: NRGBAImage)
    requires NrgbaWholeAtOrigin(src)
    ensures NrgbaRgba(src) == Packed.MapRow(Packed.PremulNrgba, 4, src.pix)
  {
    var w, h := src.rect.Dx(), src.rect.Dy();
    NrgbaFromZero(src);
    Rgb.Area(4, w, h);
    Packed.ConvertedContiguous(Packed.PremulNrgba, 4, src.pix, 0, 4 * w, w, h, |src.pix|);
    Rgb.TakeAll(src.pix);
  }

  /** A fully opaque NRGBA image laid out tightly at the origin converts to its own bytes. */
  lemma NrgbaOpaqueUnchanged(src: NRGBAImage)
    requires NrgbaWholeAtOrigin(src) && Packed.Opaque(src.pix)
    ensures NrgbaRgba(src) == src.pix
  {
    NrgbaRgbaWhole(src);
    Layout.MulMono(0, src.rect.Dx(), src.rect.Dy());
    PremulOpaqueRow(src.pix, src.rect.Dx() * src.rect.Dy());
  }

  /** Every channel convertNRGBA writes is at most the pixel's alpha, which is copied. */
  lemma PremulIsPremultiplied(p: seq<byte>)
    requires |p| == 4
    ensures var q := Packed.PremulNrgba(p); q[3] == p[3] && q[0] <= q[3] && q[1] <= q[3] && q[2] <= q[3]
  {
    Packed.PremulBounds(p[0], p[3]);
    Packed.PremulBounds(p[1], p[3]);
    Packed.PremulBounds(p[2], p[3]);
  }

  /**
   * convertNRGBA64 of a row is convertRGBA64's high-byte selection followed
   * by convertNRGBA's premultiplication.
   */
  lemma Nrgba64IsHighBytesThenPremul(row: seq<byte>)
    ensures Packed.MapRow(Packed.PremulNrgba, 4, Packed.MapRow(Packed.HighBytes, 8, row)) == Packed.MapRow(Packed.PremulNrgba64, 8, row)
  {
    Packed.PixelFnsSized();
    forall p: seq<byte> | |p| == 8
      ensures Packed.MapRow(Packed.PremulNrgba, 4, Packed.HighBytes(p)) == Packed.PremulNrgba64(p)
    {
      MapRowOne(Packed.PremulNrgba, 4, Packed.HighBytes(p));
    }
    MapRowThen(Packed.HighBytes, 8, 4, Packed.PremulNrgba, Packed.PremulNrgba64, row);
  }

  /** GetRGBA of an RGB or YUYV image is fully opaque; of an RGBA image it is that image. */
  lemma GetRGBAOpaque(si: StdImage)
    requires si.Valid()
    ensures si.RGB? || si.YUYV? ==> Packed.Opaque(RgbaOf(si).pix)
    ensures si.RGBA? ==> RgbaOf(si) == si.rgba
  {
    match si
    case RGB(i) => Rgb.RgbaPixOpaque(i);
    case YUYV(i) => YuyvRgbaOpaque(i);
    case _ =>
  }
}
