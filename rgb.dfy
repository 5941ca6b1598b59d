/**
 * imglib's RGB image: a packed image of three bytes per pixel in the order
 * R, G, B (an `image.RGBA` without the alpha byte). The image is a value
 * (Pix, Stride, Rect); the methods that write a buffer in place take the
 * Pix buffer as an array.
 */
module Rgb {
  import opened Ints
  import opened Geom
  import opened Wrappers
  import opened GoImage
  import Layout
  import Packed

  /** GetBytesPerPixel and GetBytesPerChunk: three bytes, one pixel. */
  const BytesPerPixel := 3

  /** `color.RGBA{}`, what At gives outside the bounds. */
  const Transparent := RGBAColor(0, 0, 0, 0)

  datatype RGB = RGB(pix: seq<byte>, stride: int, rect: Rectangle)
  {
    /** Index in Pix of the first byte of pixel (x, y). */
    function PixOffset(x: int, y: int): int
    {
      Layout.Offset(rect, stride, BytesPerPixel, x, y)
    }

    /** The three bytes of (x, y) lie in Pix (or the point is outside, where At reads nothing). */
    predicate Readable(x: int, y: int)
    {
      !rect.Has(Point(x, y)) || (0 <= PixOffset(x, y) && PixOffset(x, y) + 3 <= |pix|)
    }

    /** The colour of (x, y): transparent black outside the bounds, else its three bytes with alpha 0xFF. */
    function At(x: int, y: int): (c: RGBAColor)
      requires Readable(x, y)
      ensures rect.Has(Point(x, y)) <==> c.a == 0xFF
      ensures !rect.Has(Point(x, y)) ==> c == Transparent
      ensures rect.Has(Point(x, y)) ==> [c.r, c.g, c.b] == pix[PixOffset(x, y)..PixOffset(x, y) + 3]
    {
      if !rect.Has(Point(x, y)) then Transparent
      else
        var i := PixOffset(x, y);
        RGBAColor(pix[i], pix[i + 1], pix[i + 2], 0xFF)
    }

    /** The image after SetRGBA(x, y, c): the pixel's three bytes replaced inside the bounds, nothing changed outside. */
    function WithPixel(x: int, y: int, c: RGBAColor): (img: RGB)
      requires Readable(x, y)
      ensures |img.pix| == |pix| && img.stride == stride && img.rect == rect
    {
      if !rect.Has(Point(x, y)) then this
      else
        var i := PixOffset(x, y);
        RGB(pix[..i] + [c.r, c.g, c.b] + pix[i + 3..], stride, rect)
    }

    /** Where row y starts. */
    function RowStart(y: int): int
    {
      PixOffset(rect.min.x, y)
    }

    /** Pixel k of row y is 3·k bytes after the row's start. */
    lemma AlongRow(x: int, y: int, k: int)
      requires x == rect.min.x + k
      ensures PixOffset(x, y) == RowStart(y) + 3 * k
    {
      Layout.RowOffset(rect, stride, BytesPerPixel, x, y);
    }

    /** The 3·Dx bytes of row y lie in Pix. */
    predicate RowReadable(y: int)
    {
      0 <= rect.Dx() && 0 <= RowStart(y) && RowStart(y) + 3 * rect.Dx() <= |pix|
    }

    /** The colours of row y, from Min.X to Max.X, all opaque. */
    function RowColors(y: int): (row: seq<RGBAColor>)
      requires RowReadable(y)
      ensures |row| == rect.Dx()
    {
      UnpackLength(pix[RowStart(y)..RowStart(y) + 3 * rect.Dx()], rect.Dx());
      Unpack(pix[RowStart(y)..RowStart(y) + 3 * rect.Dx()])
    }

    /** SetRow can slice Pix at the row start and write 3·n bytes after it. */
    predicate RowWritable(y: int, n: int)
    {
      0 <= RowStart(y) && RowStart(y) + 3 * n <= |pix|
    }

    /** The image after SetRow(y, cols). */
    function WithRow(y: int, cols: seq<RGBAColor>): (img: RGB)
      requires RowWritable(y, |cols|)
      ensures |img.pix| == |pix| && img.stride == stride && img.rect == rect
    {
      var off := RowStart(y);
      RGB(pix[..off] + Pack(cols) + pix[off + 3 * |cols|..], stride, rect)
    }
  }

  /** `NewRGB(r)`: a zeroed buffer of 3·w·h bytes with stride 3·w. */
  function NewRGB(r: Rectangle): (img: RGB)
    requires 0 <= r.Dx() * r.Dy()
    ensures |img.pix| == 3 * r.Dx() * r.Dy() && img.stride == 3 * r.Dx() && img.rect == r
    ensures forall t :: 0 <= t < |img.pix| ==> img.pix[t] == 0
  {
    RGB(Zeros(3 * r.Dx() * r.Dy()), 3 * r.Dx(), r)
  }

  /** The image is as NewRGB lays it out at the origin: stride 3·w and 3·w·h bytes. */
  predicate WholeAtOrigin(img: RGB)
  {
    img.rect.min == Point(0, 0) && img.rect.Canonical() &&
    img.stride == 3 * img.rect.Dx() && |img.pix| == 3 * (img.rect.Dx() * img.rect.Dy())
  }

  /** NewRGB of a canonical rectangle holds its rectangle, and at the origin it is laid out tightly. */
  lemma NewRGBHolds(r: Rectangle)
    requires r.Canonical()
    ensures 0 <= r.Dx() * r.Dy()
    ensures Layout.Holds(|NewRGB(r).pix|, r, NewRGB(r).stride, BytesPerPixel)
    ensures r.min == Point(0, 0) ==> WholeAtOrigin(NewRGB(r))
  {
    Layout.MulMono(0, r.Dx(), r.Dy());
    if r.Dy() > 0 {
      assert (r.Dy() - 1) * (3 * r.Dx()) + 3 * r.Dx() == 3 * r.Dx() * r.Dy();
    }
  }

  // ------------------------------------------------------------ pixels

  /** The colour of a pixel's three bytes, alpha 0xFF. */
  function UnpackPixel(q: seq<byte>): (c: RGBAColor)
    requires |q| == 3
    ensures c.a == 0xFF
  {
    RGBAColor(q[0], q[1], q[2], 0xFF)
  }

  /** The colours of a run of three-byte pixels, in order; bytes in front that do not fill a pixel give none. */
  function Unpack(s: seq<byte>): (cols: seq<RGBAColor>)
    ensures 3 * |cols| <= |s| < 3 * |cols| + 3
    decreases |s|
  {
    if |s| < 3 then [] else Unpack(s[..|s| - 3]) + [UnpackPixel(s[|s| - 3..])]
  }

  /** The three bytes SetRGBA and SetRow write for a colour: R, G, B. */
  function PackPixel(c: RGBAColor): (q: seq<byte>)
    ensures |q| == 3
  {
    [c.r, c.g, c.b]
  }

  /** A row of colours packed as SetRow packs it, three bytes each, in order; alpha is dropped. */
  function Pack(cols: seq<RGBAColor>): (s: seq<byte>)
    ensures |s| == 3 * |cols|
    decreases |cols|
  {
    if cols == [] then [] else Pack(cols[..|cols| - 1]) + PackPixel(cols[|cols| - 1])
  }

  /** Every colour has alpha 0xFF. */
  predicate AllOpaque(cols: seq<RGBAColor>)
  {
    forall k :: 0 <= k < |cols| ==> cols[k].a == 0xFF
  }

  /** g whole pixels unpack to g colours. */
  lemma {:induction false} UnpackLength(s: seq<byte>, g: nat)
    requires |s| == 3 * g
    ensures |Unpack(s)| == g
  {
    if g > 0 {
      UnpackLength(s[..|s| - 3], g - 1);
    }
  }

  lemma UnpackSnoc(s: seq<byte>, q: seq<byte>)
    requires |q| == 3
    ensures Unpack(s + q) == Unpack(s) + [UnpackPixel(q)]
  {
    assert (s + q)[..|s|] == s && (s + q)[|s|..] == q;
  }

  lemma PackSnoc(cols: seq<RGBAColor>, i: int)
    requires 0 <= i < |cols|
    ensures Pack(cols[..i + 1]) == Pack(cols[..i]) + PackPixel(cols[i])
  {
    assert cols[..i + 1][..i] == cols[..i];
  }

  /** Unpacked colours are opaque. */
  lemma {:induction false} UnpackOpaque(s: seq<byte>)
    ensures AllOpaque(Unpack(s))
    decreases |s|
  {
    if |s| >= 3 {
      UnpackOpaque(s[..|s| - 3]);
    }
  }

  /** Colour k of g unpacked pixels comes from bytes 3k, 3k+1, 3k+2. */
  lemma {:induction false} UnpackAt(s: seq<byte>, g: nat, k: nat)
    requires |s| == 3 * g && k < g
    ensures |Unpack(s)| == g
    ensures Unpack(s)[k] == RGBAColor(s[3 * k], s[3 * k + 1], s[3 * k + 2], 0xFF)
  {
    UnpackLength(s, g);
    var front := s[..|s| - 3];
    if k < g - 1 {
      UnpackAt(front, g - 1, k);
      UnpackAtFront(s, k);
    } else {
      UnpackAtLast(s, k);
    }
  }

  /** Colours before the last are the colours of the bytes before the last pixel. */
  lemma UnpackAtFront(s: seq<byte>, k: nat)
    requires |s| >= 3 && 3 * k + 3 <= |s| - 3 && k < |Unpack(s[..|s| - 3])|
    ensures k < |Unpack(s)| && Unpack(s)[k] == Unpack(s[..|s| - 3])[k]
    ensures s[..|s| - 3][3 * k] == s[3 * k] && s[..|s| - 3][3 * k + 1] == s[3 * k + 1] && s[..|s| - 3][3 * k + 2] == s[3 * k + 2]
  {
  }

  /** The last colour comes from the last three bytes. */
  lemma UnpackAtLast(s: seq<byte>, k: nat)
    requires |s| >= 3 && 3 * k == |s| - 3 && |Unpack(s[..|s| - 3])| == k
    ensures |Unpack(s)| == k + 1
    ensures Unpack(s)[k] == RGBAColor(s[3 * k], s[3 * k + 1], s[3 * k + 2], 0xFF)
  {
  }

  /** Unpacking packed colours gives them back exactly when every one of them is opaque. */
  lemma UnpackPack(cols: seq<RGBAColor>)
    ensures Unpack(Pack(cols)) == cols <==> AllOpaque(cols)
  {
    if AllOpaque(cols) {
      UnpackPackOpaque(cols);
    } else {
      UnpackOpaque(Pack(cols));
    }
  }

  lemma {:induction false} UnpackPackOpaque(cols: seq<RGBAColor>)
    requires AllOpaque(cols)
    ensures Unpack(Pack(cols)) == cols
    decreases |cols|
  {
    if cols != [] {
      var n := |cols| - 1;
      OpaquePrefix(cols, n);
      UnpackPackOpaque(cols[..n]);
      UnpackPackLastOpaque(cols);
    }
  }

  lemma OpaquePrefix(cols: seq<RGBAColor>, n: nat)
    requires AllOpaque(cols) && n <= |cols|
    ensures AllOpaque(cols[..n])
  {
  }

  /** If the colours before the last survive packing and unpacking, so do all of them, the last being opaque. */
  lemma UnpackPackLastOpaque(cols: seq<RGBAColor>)
    requires cols != [] && cols[|cols| - 1].a == 0xFF
    requires Unpack(Pack(cols[..|cols| - 1])) == cols[..|cols| - 1]
    ensures Unpack(Pack(cols)) == cols
  {
    var n := |cols| - 1;
    var c := cols[n];
    assert Pack(cols) == Pack(cols[..n]) + PackPixel(c);
    UnpackSnoc(Pack(cols[..n]), PackPixel(c));
    UnpackPackPixel(c);
    SplitLast(cols);
  }

  lemma UnpackPackPixel(c: RGBAColor)
    requires c.a == 0xFF
    ensures UnpackPixel(PackPixel(c)) == c
  {
  }

  lemma SplitLast<T>(s: seq<T>)
    requires s != []
    ensures s[..|s| - 1] + [s[|s| - 1]] == s
  {
  }

  /** Packing the colours unpacked from whole pixels gives the bytes back. */
  lemma {:induction false} PackUnpack(s: seq<byte>, g: nat)
    requires |s| == 3 * g
    ensures Pack(Unpack(s)) == s
  {
    if g > 0 {
      PackUnpack(s[..|s| - 3], g - 1);
      PackUnpackLast(s);
      Unsplit(s, |s| - 3, |s|);
    }
  }

  /** Unpacking and packing a row of pixels handles its last pixel on its own. */
  lemma PackUnpackLast(s: seq<byte>)
    requires |s| >= 3
    ensures Pack(Unpack(s)) == Pack(Unpack(s[..|s| - 3])) + s[|s| - 3..]
  {
    var q := s[|s| - 3..];
    var cols, pre := Unpack(s), Unpack(s[..|s| - 3]);
    assert cols == pre + [UnpackPixel(q)];
    PackAppend(pre, UnpackPixel(q));
    PackUnpackPixel(q);
  }

  lemma PackAppend(cols: seq<RGBAColor>, c: RGBAColor)
    ensures Pack(cols + [c]) == Pack(cols) + PackPixel(c)
  {
    assert (cols + [c])[..|cols|] == cols;
  }

  lemma PackUnpackPixel(q: seq<byte>)
    requires |q| == 3
    ensures PackPixel(UnpackPixel(q)) == q
  {
  }

  // ------------------------------------------------------------ SetRGBA

  /**
   * `SetRGBA(x, y, c)`: outside the bounds nothing happens; inside, the
   * pixel's three bytes become c's R, G and B.
   */
  method SetRGBA(img: RGB, pix: array<byte>, x: int, y: int, c: RGBAColor)
    requires pix[..] == img.pix && img.Readable(x, y)
    modifies pix
    ensures pix[..] == img.WithPixel(x, y, c).pix
  {
    if !img.rect.Has(Point(x, y)) {
      return;
    }
    var i := img.PixOffset(x, y);
    pix[i] := c.r;
    pix[i + 1] := c.g;
    pix[i + 2] := c.b;
    assert pix[..] == img.pix[..i] + [c.r, c.g, c.b] + img.pix[i + 3..];
  }

  /** After SetRGBA(x, y, c) inside the bounds, At(x, y) is c made opaque; outside, the image is unchanged. */
  lemma SetThenAt(img: RGB, x: int, y: int, c: RGBAColor)
    requires img.Readable(x, y)
    ensures img.WithPixel(x, y, c).Readable(x, y)
    ensures img.rect.Has(Point(x, y)) ==> img.WithPixel(x, y, c).At(x, y) == RGBAColor(c.r, c.g, c.b, 0xFF)
    ensures !img.rect.Has(Point(x, y)) ==> img.WithPixel(x, y, c) == img
  {
  }

  /** SetRGBA(x, y, c) leaves every other pixel's colour as it was, when the rows fit in the stride. */
  lemma SetKeepsOthers(img: RGB, x: int, y: int, c: RGBAColor, x2: int, y2: int)
    requires BytesPerPixel * img.rect.Dx() <= img.stride
    requires img.Readable(x, y) && img.Readable(x2, y2) && (x, y) != (x2, y2)
    ensures img.WithPixel(x, y, c).Readable(x2, y2)
    ensures img.WithPixel(x, y, c).At(x2, y2) == img.At(x2, y2)
  {
    if img.rect.Has(Point(x, y)) && img.rect.Has(Point(x2, y2)) {
      Layout.Apart(img.rect, img.stride, BytesPerPixel, x, y, x2, y2);
      var i, j := img.PixOffset(x, y), img.PixOffset(x2, y2);
      var after := img.WithPixel(x, y, c).pix;
      assert after[j] == img.pix[j] && after[j + 1] == img.pix[j + 1] && after[j + 2] == img.pix[j + 2];
    }
  }

  // ------------------------------------------------------------ GetRow

  /**
   * `dest[:0]` after appending the colours of `row` one by one, seen by a
   * caller whose slice has capacity |d0|: a colour lands in place while it
   * fits; the first one that does not moves the slice to a fresh array, and
   * no later one reaches the caller's.
   */
  ghost predicate Delivered(buf: seq<RGBAColor>, d0: seq<RGBAColor>, row: seq<RGBAColor>)
  {
    |buf| == |d0| && forall k :: 0 <= k < |buf| ==> buf[k] == if k < |row| then row[k] else d0[k]
  }

  /** GetRow's loop after n pixels of the row that starts at `start`. */
  ghost predicate RowRead(pix: seq<byte>, start: int, n: nat, buf: seq<RGBAColor>, d0: seq<RGBAColor>)
  {
    0 <= start && start + 3 * n <= |pix| && Delivered(buf, d0, Unpack(pix[start..start + 3 * n]))
  }

  lemma RowReadStart(pix: seq<byte>, start: int, d0: seq<RGBAColor>)
    requires 0 <= start <= |pix|
    ensures RowRead(pix, start, 0, d0, d0)
  {
    assert pix[start..start] == [];
  }

  /** Unpacking the next pixel appends its colour to the colours so far. */
  lemma UnpackNext(pix: seq<byte>, start: int, n: nat, nextN: nat)
    requires 0 <= start && start + 3 * nextN <= |pix| && nextN == n + 1
    ensures Unpack(pix[start..start + 3 * nextN]) ==
            Unpack(pix[start..start + 3 * n]) + [UnpackPixel(pix[start + 3 * n..start + 3 * nextN])]
  {
    var s, q := pix[start..start + 3 * n], pix[start + 3 * n..start + 3 * nextN];
    assert pix[start..start + 3 * nextN] == s + q;
    UnpackSnoc(s, q);
  }

  /** A colour that fits lands at n, after the n colours before it. */
  lemma DeliverNext(buf: seq<RGBAColor>, buf': seq<RGBAColor>, d0: seq<RGBAColor>, row: seq<RGBAColor>, c: RGBAColor)
    requires Delivered(buf, d0, row) && |row| < |d0| && buf' == buf[|row| := c]
    ensures Delivered(buf', d0, row + [c])
  {
  }

  /** A colour that does not fit is not written where the caller sees it. */
  lemma SkipNext(buf: seq<RGBAColor>, d0: seq<RGBAColor>, row: seq<RGBAColor>, c: RGBAColor)
    requires Delivered(buf, d0, row) && |d0| <= |row|
    ensures Delivered(buf, d0, row + [c])
  {
  }

  /** One turn of GetRow's loop: the colour of the pixel at i, appended to the row while it fits. */
  method ReadPixelInto(pix: seq<byte>, start: int, i: int, n: nat, dest: array<RGBAColor>, ghost d0: seq<RGBAColor>)
    returns (nextI: int, nextN: nat)
    requires i == start + 3 * n && i + 3 <= |pix|
    requires RowRead(pix, start, n, dest[..], d0)
    modifies dest
    ensures nextI == i + 3 && nextN == n + 1
    ensures RowRead(pix, start, nextN, dest[..], d0)
  {
    var c := RGBAColor(pix[i], pix[i + 1], pix[i + 2], 0xFF);
    nextI, nextN := i + 3, n + 1;
    ghost var row := Unpack(pix[start..start + 3 * n]);
    UnpackLength(pix[start..start + 3 * n], n);
    UnpackNext(pix, start, n, nextN);
    assert c == UnpackPixel(pix[start + 3 * n..start + 3 * nextN]);
    if n < dest.Length {
      ghost var before := dest[..];
      dest[n] := c;
      DeliverNext(before, dest[..], d0, row, c);
    } else {
      SkipNext(dest[..], d0, row, c);
    }
  }

  /**
   * GetRow's loop: walk `width` pixels of bytes from `start` three bytes at
   * a time, appending each colour to `dest[:0]`, whose capacity is
   * dest.Length here.
   */
  method ReadInto(pix: seq<byte>, start: int, width: nat, dest: array<RGBAColor>)
    requires 0 <= start && start + 3 * width <= |pix|
    modifies dest
    ensures Delivered(dest[..], old(dest[..]), Unpack(pix[start..start + 3 * width]))
  {
    ghost var d0 := dest[..];
    var end := start + 3 * width;
    var i, n := start, 0;
    RowReadStart(pix, start, d0);
    while i < end
      invariant i == start + 3 * n && n <= width
      invariant RowRead(pix, start, n, dest[..], d0)
      decreases end - i
    {
      assert n < width && i + 3 <= end;
      i, n := ReadPixelInto(pix, start, i, n, dest, d0);
    }
    assert n == width;
  }

  /** `GetRow(y, dest)`, as intended: the colours of row y from Min.X to Max.X, as many as dest's capacity takes. */
  method GetRow(img: RGB, y: int, dest: array<RGBAColor>)
    requires img.RowReadable(y)
    modifies dest
    ensures Delivered(dest[..], old(dest[..]), img.RowColors(y))
  {
    ReadInto(img.pix, img.PixOffset(img.rect.min.x, y), img.rect.Dx(), dest);
  }

  /** Colour k of row y is the colour At gives for pixel Min.X + k. */
  lemma RowColorsAgreeWithAt(img: RGB, y: int, k: int)
    requires img.RowReadable(y) && img.rect.min.y <= y < img.rect.max.y && 0 <= k < img.rect.Dx()
    ensures img.Readable(img.rect.min.x + k, y)
    ensures img.RowColors(y)[k] == img.At(img.rect.min.x + k, y)
  {
    var x := img.rect.min.x + k;
    img.AlongRow(x, y, k);
    RowAt(img, y, k, img.PixOffset(x, y));
    AtInside(img, x, y, img.PixOffset(x, y));
  }

  /** Colour k of row y comes from the three bytes at i, 3·k after the row's start. */
  lemma RowAt(img: RGB, y: int, k: int, i: int)
    requires img.RowReadable(y) && 0 <= k < img.rect.Dx() && i == img.RowStart(y) + 3 * k
    ensures 0 <= i && i + 3 <= |img.pix|
    ensures img.RowColors(y)[k] == RGBAColor(img.pix[i], img.pix[i + 1], img.pix[i + 2], 0xFF)
  {
    var start := img.RowStart(y);
    UnpackSlice(img.pix, start, img.rect.Dx(), k, i);
    assert img.RowColors(y) == Unpack(img.pix[start..start + 3 * img.rect.Dx()]);
  }

  /** Colour k of the g pixels from `start` on comes from the bytes at i = start + 3·k. */
  lemma UnpackSlice(pix: seq<byte>, start: int, g: nat, k: nat, i: int)
    requires 0 <= start && start + 3 * g <= |pix| && k < g && i == start + 3 * k
    ensures |Unpack(pix[start..start + 3 * g])| == g
    ensures Unpack(pix[start..start + 3 * g])[k] == RGBAColor(pix[i], pix[i + 1], pix[i + 2], 0xFF)
  {
    UnpackAt(pix[start..start + 3 * g], g, k);
  }

  /** Inside the bounds, At reads the three bytes at the pixel's offset. */
  lemma AtInside(img: RGB, x: int, y: int, i: int)
    requires img.rect.Has(Point(x, y)) && i == img.PixOffset(x, y) && 0 <= i && i + 3 <= |img.pix|
    ensures img.Readable(x, y) && img.At(x, y) == RGBAColor(img.pix[i], img.pix[i + 1], img.pix[i + 2], 0xFF)
  {
  }

  /**
   * GetRow as written: it starts at PixOffset(0, y) rather than at the row's
   * Min.X and reads a whole stride, three bytes at a time; None where that
   * reads outside Pix and the source panics. With a stride of 0 or less
   * the loop never runs, so nothing is read wherever the row starts.
   */
  function GetRowAsWritten(img: RGB, y: int): Option<seq<RGBAColor>>
  {
    var start := img.PixOffset(0, y);
    var n := if img.stride <= 0 then 0 else (img.stride + 2) / 3;
    if n == 0 then Some([])
    else if 0 <= start && start + 3 * n <= |img.pix| then Some(Unpack(img.pix[start..start + 3 * n]))
    else None
  }

  /** As written, GetRow of a zero-width image reads nothing, even where its row would start before Pix. */
  lemma GetRowAsWrittenZeroWidth()
    ensures NewRGB(Rect(1, 0, 1, 1)).PixOffset(0, 0) < 0
    ensures GetRowAsWritten(NewRGB(Rect(1, 0, 1, 1)), 0) == Some([])
  {
  }

  /** As written, GetRow of a sub-image whose Min.X is past 0 panics: its row starts before Pix. */
  lemma GetRowAsWrittenPanics()
    ensures GetRowAsWritten(SubImage(NewRGB(Rect(0, 0, 2, 1)), Rect(1, 0, 2, 1)), 0) == None
  {
    var img := NewRGB(Rect(0, 0, 2, 1));
    assert Rect(1, 0, 2, 1).Intersect(img.rect) == Rect(1, 0, 2, 1);
  }

  /** For an image laid out as NewRGB lays it out, GetRow as written reads exactly the row. */
  lemma GetRowAsWrittenWhole(img: RGB, y: int)
    requires WholeAtOrigin(img) && img.RowReadable(y) && img.rect.Dx() > 0
    ensures GetRowAsWritten(img, y) == Some(img.RowColors(y))
  {
    assert (img.stride + 2) / 3 == img.rect.Dx();
  }

  // ------------------------------------------------------------ SetRow

  /** SetRow's loop: three bytes per colour into the buffer from `off` on. */
  method PackInto(pix: array<byte>, off: int, cols: seq<RGBAColor>)
    requires 0 <= off && off + 3 * |cols| <= pix.Length
    modifies pix
    ensures pix[..] == old(pix[..off]) + Pack(cols) + old(pix[off + 3 * |cols|..])
  {
    ghost var d0 := pix[..];
    var o := 0;
    var i := 0;
    while i < |cols|
      invariant 0 <= i <= |cols| && o == 3 * i
      invariant pix[..] == d0[..off] + Pack(cols[..i]) + d0[off + o..]
    {
      i, o := PackPixelInto(pix, off, cols, i, o, d0);
    }
    PackDone(pix[..], d0, off, cols, i, o);
  }

  /** One turn of SetRow's loop: colour i written as the three bytes at off + o. */
  method PackPixelInto(pix: array<byte>, off: int, cols: seq<RGBAColor>, i: nat, o: nat, ghost d0: seq<byte>)
    returns (nextI: nat, nextO: nat)
    requires o == 3 * i && i < |cols| && 0 <= off && off + 3 * |cols| <= |d0| == pix.Length
    requires pix[..] == d0[..off] + Pack(cols[..i]) + d0[off + o..]
    modifies pix
    ensures nextI == i + 1 && nextO == o + 3
    ensures pix[..] == d0[..off] + Pack(cols[..nextI]) + d0[off + nextO..]
  {
    var c := cols[i];
    ghost var before := pix[..];
    Packed.WriteGroup(pix, off + o, PackPixel(c));
    nextI, nextO := i + 1, o + 3;
    PackStep(before, pix[..], d0, off, cols, i, o, nextI, nextO);
  }

  /** Packing colour i after the first i extends the packed bytes by one pixel. */
  lemma PackStep(before: seq<byte>, after: seq<byte>, d0: seq<byte>, off: int, cols: seq<RGBAColor>,
                 i: nat, o: nat, nextI: nat, nextO: nat)
    requires nextI == i + 1 && nextO == o + 3 && nextI <= |cols| && 0 <= off && off + nextO <= |d0| && o == 3 * i
    requires before == d0[..off] + Pack(cols[..i]) + d0[off + o..]
    requires after == before[..off + o] + PackPixel(cols[i]) + before[off + o + 3..]
    ensures after == d0[..off] + Pack(cols[..nextI]) + d0[off + nextO..]
  {
    Packed.Splice(d0, off, Pack(cols[..i]), off + o, PackPixel(cols[i]));
    PackSnoc(cols, i);
  }

  lemma PackDone(buf: seq<byte>, d0: seq<byte>, off: int, cols: seq<RGBAColor>, i: int, o: int)
    requires 0 <= off && i == |cols| && o == 3 * i && off + o <= |d0|
    requires buf == d0[..off] + Pack(cols[..i]) + d0[off + o..]
    ensures buf == d0[..off] + Pack(cols) + d0[off + 3 * |cols|..]
  {
    assert cols[..i] == cols;
  }

  /** `SetRow(y, cols)`: slice Pix at the row start and write R, G, B of each colour in turn. */
  method SetRow(img: RGB, pix: array<byte>, y: int, cols: seq<RGBAColor>)
    requires pix[..] == img.pix && img.RowWritable(y, |cols|)
    modifies pix
    ensures pix[..] == img.WithRow(y, cols).pix
  {
    var off := img.PixOffset(img.rect.min.x, y);
    PackInto(pix, off, cols);
  }

  lemma Middle<T>(pre: seq<T>, mid: seq<T>, post: seq<T>)
    ensures (pre + mid + post)[|pre|..|pre| + |mid|] == mid
  {
  }

  lemma Unsplit<T>(s: seq<T>, a: int, b: int)
    requires 0 <= a <= b <= |s|
    ensures s[..a] + s[a..b] + s[b..] == s
  {
  }

  /** Reading back a row just set to a row's worth of colours gives those colours exactly when they are all opaque. */
  lemma SetRowThenRowColors(img: RGB, y: int, cols: seq<RGBAColor>)
    requires |cols| == img.rect.Dx() && img.RowWritable(y, |cols|)
    ensures img.WithRow(y, cols).RowReadable(y)
    ensures img.WithRow(y, cols).RowColors(y) == cols <==> AllOpaque(cols)
  {
    var off := img.RowStart(y);
    Middle(img.pix[..off], Pack(cols), img.pix[off + 3 * |cols|..]);
    UnpackPack(cols);
  }

  /** Setting a row back to the colours read from it leaves the image as it was. */
  lemma RowColorsThenSetRow(img: RGB, y: int)
    requires img.RowReadable(y)
    ensures img.RowWritable(y, |img.RowColors(y)|)
    ensures img.WithRow(y, img.RowColors(y)) == img
  {
    var off := img.RowStart(y);
    PackUnpack(img.pix[off..off + 3 * img.rect.Dx()], img.rect.Dx());
    Unsplit(img.pix, off, off + 3 * img.rect.Dx());
  }

  // ------------------------------------------------------------ sub-images

  /**
   * `SubImage(r)`: the part of the image inside r, sharing its buffer from
   * the offset of the new Min on; an empty intersection gives the zero RGB.
   */
  function SubImage(img: RGB, r: Rectangle): (sub: RGB)
    requires var c := r.Intersect(img.rect); c.Empty() || 0 <= img.PixOffset(c.min.x, c.min.y) <= |img.pix|
  {
    var c := r.Intersect(img.rect);
    if c.Empty() then RGB([], 0, ZR)
    else RGB(img.pix[img.PixOffset(c.min.x, c.min.y)..], img.stride, c)
  }

  /** A sub-image sees the parent's colour at every point of the intersection and transparent black elsewhere. */
  lemma SubImageAt(img: RGB, r: Rectangle, x: int, y: int)
    requires var c := r.Intersect(img.rect); c.Empty() || 0 <= img.PixOffset(c.min.x, c.min.y) <= |img.pix|
    requires SubImage(img, r).Readable(x, y)
    ensures r.Intersect(img.rect).Has(Point(x, y)) ==> img.Readable(x, y) && SubImage(img, r).At(x, y) == img.At(x, y)
    ensures !r.Intersect(img.rect).Has(Point(x, y)) ==> SubImage(img, r).At(x, y) == Transparent
  {
    var c := r.Intersect(img.rect);
    if !c.Empty() && c.Has(Point(x, y)) {
      Layout.SubOffset(img.rect, c, img.stride, BytesPerPixel, x, y);
    }
  }

  /**
   * `StrictSubImage(r)` as written: the buffer is cut at PixOffset(Max.X,
   * Max.Y), one whole row past the rectangle's last row; None where that
   * slice is out of range and the source panics.
   */
  function StrictSubImageAsWritten(img: RGB, r: Rectangle): Option<RGB>
  {
    var c := r.Intersect(img.rect);
    if c.Empty() then Some(RGB([], 0, ZR))
    else
      var i, endi := img.PixOffset(c.min.x, c.min.y), img.PixOffset(c.max.x, c.max.y);
      if 0 <= i <= endi <= |img.pix| then Some(RGB(img.pix[i..endi], img.stride, c)) else None
  }

  /** As written, the strict sub-image of a NewRGB image's own (non-empty) bounds panics. */
  lemma StrictSubImageAsWrittenPanics(r: Rectangle)
    requires r.Canonical() && !r.Empty()
    ensures 0 <= r.Dx() * r.Dy()
    ensures StrictSubImageAsWritten(NewRGB(r), r) == None
  {
    NewRGBHolds(r);
    var img := NewRGB(r);
    assert r.Intersect(r) == r;
    assert img.PixOffset(r.max.x, r.max.y) == r.Dy() * (3 * r.Dx()) + 3 * r.Dx();
    assert r.Dy() * (3 * r.Dx()) == 3 * r.Dx() * r.Dy();
  }

  /**
   * `StrictSubImage(r)` as intended: the buffer runs from the offset of Min
   * to the end of the rectangle's last row, PixOffset(Max.X, Max.Y − 1).
   */
  function StrictSubImage(img: RGB, r: Rectangle): Option<RGB>
  {
    var c := r.Intersect(img.rect);
    if c.Empty() then Some(RGB([], 0, ZR))
    else
      var i, endi := img.PixOffset(c.min.x, c.min.y), img.PixOffset(c.max.x, c.max.y - 1);
      if 0 <= i <= endi <= |img.pix| then Some(RGB(img.pix[i..endi], img.stride, c)) else None
  }

  /**
   * For an image whose buffer holds its rectangle, the intended strict
   * sub-image always exists, holds exactly the bytes of its own rows, holds
   * its rectangle itself, and addresses every byte as the parent does.
   */
  lemma StrictSubImageExact(img: RGB, r: Rectangle)
    requires Layout.Holds(|img.pix|, img.rect, img.stride, BytesPerPixel)
    requires !r.Intersect(img.rect).Empty()
    ensures var c := r.Intersect(img.rect);
      && StrictSubImage(img, r).Some?
      && var sub := StrictSubImage(img, r).value;
      && sub.rect == c && sub.stride == img.stride
      && |sub.pix| == (c.Dy() - 1) * img.stride + 3 * c.Dx()
      && Layout.Holds(|sub.pix|, c, sub.stride, BytesPerPixel)
      && forall x, y :: c.Has(Point(x, y)) ==>
        sub.PixOffset(x, y) + img.PixOffset(c.min.x, c.min.y) == img.PixOffset(x, y)
  {
    var c := r.Intersect(img.rect);
    assert img.rect.Encloses(c) by {
      assert c.Has(c.min) && c.Has(Point(c.max.x - 1, c.max.y - 1));
    }
    Layout.SubSpan(|img.pix|, img.rect, img.stride, BytesPerPixel, c);
    forall x, y | c.Has(Point(x, y))
      ensures RGB([], img.stride, c).PixOffset(x, y) + img.PixOffset(c.min.x, c.min.y) == img.PixOffset(x, y)
    {
      Layout.SubOffset(img.rect, c, img.stride, BytesPerPixel, x, y);
    }
  }

  // ------------------------------------------------------------ RGBA

  /** An RGBA image laid out as NewRGBA lays it out at the origin: stride 4·w and 4·w·h bytes. */
  predicate RgbaWholeAtOrigin(rgba: RGBAImage)
  {
    rgba.rect.min == Point(0, 0) && rgba.rect.Canonical() &&
    rgba.stride == 4 * rgba.rect.Dx() && |rgba.pix| == 4 * (rgba.rect.Dx() * rgba.rect.Dy())
  }

  /**
   * The bytes ToRGBA (and convertRGB) produce: row by row from the offset of
   * Min, each 3·Dx-byte row turned into 4·Dx bytes by adding alpha 0xFF to
   * every pixel, the rows packed one after the other.
   */
  function RgbaPix(img: RGB): seq<byte>
    requires img.rect.Canonical()
  {
    Packed.Converted(Packed.AddAlpha, 3, img.pix, img.PixOffset(img.rect.min.x, img.rect.min.y),
                     img.stride, 3 * img.rect.Dx(), img.rect.Dy())
  }

  /** The image ToRGBA returns: those bytes, at the origin, stride 4·Dx. */
  function RgbaOf(img: RGB): RGBAImage
    requires img.rect.Canonical()
  {
    RGBAImage(RgbaPix(img), 4 * img.rect.Dx(), Rect(0, 0, img.rect.Dx(), img.rect.Dy()))
  }

  /**
   * The bytes NewRGBFromRGBADropAlpha produces: row by row from the offset
   * of Min, each 4·Dx-byte row with every pixel's alpha dropped.
   */
  function RgbPix(rgba: RGBAImage): seq<byte>
    requires rgba.rect.Canonical()
  {
    Packed.Converted(Packed.DropAlpha, 4, rgba.pix, RGBAPixOffset(rgba, rgba.rect.min.x, rgba.rect.min.y),
                     rgba.stride, 4 * rgba.rect.Dx(), rgba.rect.Dy())
  }

  /** The image NewRGBFromRGBADropAlpha returns: those bytes, at the origin, stride 3·Dx. */
  function RgbOf(rgba: RGBAImage): RGB
    requires rgba.rect.Canonical()
  {
    RGB(RgbPix(rgba), 3 * rgba.rect.Dx(), Rect(0, 0, rgba.rect.Dx(), rgba.rect.Dy()))
  }

  /** k·(w·h) bytes are h rows of k·w bytes. */
  lemma Area(k: int, w: int, h: int)
    ensures k * (w * h) == h * (k * w) == k * w * h
  {
  }

  /** The whole of a sequence, sliced from 0. */
  lemma TakeAll<T>(s: seq<T>)
    ensures s[0..|s|] == s
  {
  }

  /** The rows of a rectangle that a buffer holds lie inside the buffer, the first at offset 0. */
  lemma RowsOf(n: int, rect: Rectangle, stride: int, bpp: int)
    requires Layout.Holds(n, rect, stride, bpp)
    ensures Layout.Offset(rect, stride, bpp, rect.min.x, rect.min.y) == 0
    ensures Packed.RowsFit(n, 0, stride, bpp * rect.Dx(), rect.Dy())
  {
    Layout.MulMono(0, rect.Dx(), bpp);
    Packed.RowsFitLaidOut(n, 0, stride, bpp * rect.Dx(), rect.Dy());
  }

  /** What ConvertRows needs to walk an RGB image that its buffer holds. */
  lemma AddAlphaReady(img: RGB, n: int)
    requires Layout.Holds(|img.pix|, img.rect, img.stride, BytesPerPixel) && n == 4 * img.rect.Dx() * img.rect.Dy()
    ensures Packed.Sized(Packed.AddAlpha, 3, 4)
    ensures Packed.SameGroups(3 * img.rect.Dx(), 4 * img.rect.Dx(), 3, 4)
    ensures Packed.RowsFit(|img.pix|, img.PixOffset(img.rect.min.x, img.rect.min.y), img.stride, 3 * img.rect.Dx(), img.rect.Dy())
    ensures |RgbaPix(img)| == n
  {
    Packed.PixelFnsSized();
    Packed.GroupsOf(img.rect.Dx(), 3, 4);
    RowsOf(|img.pix|, img.rect, img.stride, BytesPerPixel);
    Packed.ConvertedLength(Packed.AddAlpha, 3, 4, img.pix, 0, img.stride, 3 * img.rect.Dx(), 4 * img.rect.Dx(), img.rect.Dy());
    Area(4, img.rect.Dx(), img.rect.Dy());
  }

  /** What ConvertRows needs to walk an RGBA image that its buffer holds. */
  lemma DropAlphaReady(rgba: RGBAImage, n: int)
    requires Layout.Holds(|rgba.pix|, rgba.rect, rgba.stride, 4) && n == 3 * rgba.rect.Dx() * rgba.rect.Dy()
    ensures Packed.Sized(Packed.DropAlpha, 4, 3)
    ensures Packed.SameGroups(4 * rgba.rect.Dx(), 3 * rgba.rect.Dx(), 4, 3)
    ensures Packed.RowsFit(|rgba.pix|, RGBAPixOffset(rgba, rgba.rect.min.x, rgba.rect.min.y), rgba.stride, 4 * rgba.rect.Dx(), rgba.rect.Dy())
    ensures |RgbPix(rgba)| == n
  {
    Packed.PixelFnsSized();
    Packed.GroupsOf(rgba.rect.Dx(), 4, 3);
    RowsOf(|rgba.pix|, rgba.rect, rgba.stride, 4);
    Packed.ConvertedLength(Packed.DropAlpha, 4, 3, rgba.pix, 0, rgba.stride, 4 * rgba.rect.Dx(), 3 * rgba.rect.Dx(), rgba.rect.Dy());
    Area(3, rgba.rect.Dx(), rgba.rect.Dy());
  }

  /**
   * `ToRGBA()`: a new RGBA image at the origin, of the same size, holding
   * every pixel of the image with alpha 0xFF.
   */
  method ToRGBA(img: RGB) returns (rgba: RGBAImage)
    requires Layout.Holds(|img.pix|, img.rect, img.stride, BytesPerPixel)
    ensures rgba == RgbaOf(img)
  {
    var w, h: nat := img.rect.Dx(), img.rect.Dy();
    var blank := NewRGBA(Rect(0, 0, w, h));
    var dest := new byte[|blank.pix|](_ => 0);
    ghost var d0 := dest[..];
    AddAlphaReady(img, dest.Length);
    Packed.ConvertRows(Packed.AddAlpha, 3, 4, img.pix, img.PixOffset(img.rect.min.x, img.rect.min.y),
                       img.stride, 3 * w, 4 * w, h, dest);
    Packed.WrittenWhole(dest[..], d0, RgbaPix(img));
    rgba := RGBAImage(dest[..], blank.stride, blank.rect);
  }

  /**
   * `NewRGBFromRGBADropAlpha(rgba)`: a new RGB image at the origin, of the
   * same size, holding the R, G and B of every pixel.
   */
  method NewRGBFromRGBADropAlpha(rgba: RGBAImage) returns (img: RGB)
    requires Layout.Holds(|rgba.pix|, rgba.rect, rgba.stride, 4)
    ensures img == RgbOf(rgba)
  {
    var w, h: nat := rgba.rect.Dx(), rgba.rect.Dy();
    Layout.MulMono(0, w, h);
    var blank := NewRGB(Rect(0, 0, w, h));
    var dest := new byte[|blank.pix|](_ => 0);
    ghost var d0 := dest[..];
    DropAlphaReady(rgba, dest.Length);
    Packed.ConvertRows(Packed.DropAlpha, 4, 3, rgba.pix, RGBAPixOffset(rgba, rgba.rect.min.x, rgba.rect.min.y),
                       rgba.stride, 4 * w, 3 * w, h, dest);
    Packed.WrittenWhole(dest[..], d0, RgbPix(rgba));
    img := RGB(dest[..], blank.stride, blank.rect);
  }

  /** Every alpha byte ToRGBA writes is 0xFF. */
  lemma RgbaPixOpaque(img: RGB)
    requires img.rect.Canonical()
    ensures Packed.Opaque(RgbaOf(img).pix)
  {
    forall p: seq<byte> | |p| == 3
      ensures Packed.Opaque(Packed.AddAlpha(p)) && |Packed.AddAlpha(p)| % 4 == 0
    {
      Packed.AddAlphaOpaque(p);
    }
    Packed.ConvertedOpaque(Packed.AddAlpha, 3, img.pix, img.PixOffset(img.rect.min.x, img.rect.min.y),
                           img.stride, 3 * img.rect.Dx(), img.rect.Dy());
  }

  /** A tightly laid out image's rows start at offset 0, one stride of 3·Dx apart. */
  lemma RgbaPixFromZero(img: RGB)
    requires WholeAtOrigin(img)
    ensures RgbaPix(img) == Packed.Converted(Packed.AddAlpha, 3, img.pix, 0, 3 * img.rect.Dx(), 3 * img.rect.Dx(), img.rect.Dy())
  {
    assert img.PixOffset(img.rect.min.x, img.rect.min.y) == 0;
  }

  /** A tightly laid out RGBA image's rows start at offset 0, one stride of 4·Dx apart. */
  lemma RgbPixFromZero(rgba: RGBAImage)
    requires RgbaWholeAtOrigin(rgba)
    ensures RgbPix(rgba) == Packed.Converted(Packed.DropAlpha, 4, rgba.pix, 0, 4 * rgba.rect.Dx(), 4 * rgba.rect.Dx(), rgba.rect.Dy())
  {
    assert RGBAPixOffset(rgba, rgba.rect.min.x, rgba.rect.min.y) == 0;
  }

  /** For a tightly laid out image, the rows convert as one long row. */
  lemma RgbaPixWhole(img: RGB)
    requires WholeAtOrigin(img)
    ensures RgbaPix(img) == Packed.MapRow(Packed.AddAlpha, 3, img.pix)
  {
    var w, h := img.rect.Dx(), img.rect.Dy();
    RgbaPixFromZero(img);
    Area(3, w, h);
    Packed.ConvertedContiguous(Packed.AddAlpha, 3, img.pix, 0, 3 * w, w, h, |img.pix|);
    TakeAll(img.pix);
  }

  /** For a tightly laid out RGBA image, the rows convert as one long row. */
  lemma RgbPixWhole(rgba: RGBAImage)
    requires RgbaWholeAtOrigin(rgba)
    ensures RgbPix(rgba) == Packed.MapRow(Packed.DropAlpha, 4, rgba.pix)
  {
    var w, h := rgba.rect.Dx(), rgba.rect.Dy();
    RgbPixFromZero(rgba);
    Area(4, w, h);
    Packed.ConvertedContiguous(Packed.DropAlpha, 4, rgba.pix, 0, 4 * w, w, h, |rgba.pix|);
    TakeAll(rgba.pix);
  }

  /** ToRGBA of a tightly laid out image is itself tightly laid out. */
  lemma RgbaOfWhole(img: RGB)
    requires WholeAtOrigin(img)
    ensures RgbaWholeAtOrigin(RgbaOf(img))
  {
    var w, h := img.rect.Dx(), img.rect.Dy();
    Layout.MulMono(0, w, h);
    Packed.GroupsOf(w * h, 3, 4);
    Packed.PixelFnsSized();
    RgbaPixWhole(img);
    Packed.MapRowLength(Packed.AddAlpha, 3, 4, img.pix, 4 * (w * h));
  }

  /** NewRGBFromRGBADropAlpha of a tightly laid out RGBA image is itself tightly laid out. */
  lemma RgbOfWhole(rgba: RGBAImage)
    requires RgbaWholeAtOrigin(rgba)
    ensures WholeAtOrigin(RgbOf(rgba))
  {
    var w, h := rgba.rect.Dx(), rgba.rect.Dy();
    Layout.MulMono(0, w, h);
    Packed.GroupsOf(w * h, 4, 3);
    Packed.PixelFnsSized();
    RgbPixWhole(rgba);
    Packed.MapRowLength(Packed.DropAlpha, 4, 3, rgba.pix, 3 * (w * h));
  }

  /** The bytes of a tightly laid out image survive adding and dropping alpha. */
  lemma RgbPixRoundTrip(img: RGB)
    requires WholeAtOrigin(img)
    ensures RgbaWholeAtOrigin(RgbaOf(img)) && RgbPix(RgbaOf(img)) == img.pix
  {
    RgbaOfWhole(img);
    RgbaPixWhole(img);
    RgbPixWhole(RgbaOf(img));
    Packed.DropAlphaAfterAddAlpha(img.pix, img.rect.Dx() * img.rect.Dy());
  }

  /** Dropping the alpha of ToRGBA's image gives the original image back (the RGB convertor test's round trip). */
  lemma RgbRoundTrip(img: RGB)
    requires WholeAtOrigin(img)
    ensures RgbaWholeAtOrigin(RgbaOf(img)) && RgbOf(RgbaOf(img)) == img
  {
    RgbPixRoundTrip(img);
  }

  /** The bytes of a tightly laid out RGBA image survive dropping and adding alpha exactly when it is fully opaque. */
  lemma RgbaPixRoundTrip(rgba: RGBAImage)
    requires RgbaWholeAtOrigin(rgba)
    ensures WholeAtOrigin(RgbOf(rgba)) && (RgbaPix(RgbOf(rgba)) == rgba.pix <==> Packed.Opaque(rgba.pix))
  {
    RgbOfWhole(rgba);
    RgbPixWhole(rgba);
    RgbaPixWhole(RgbOf(rgba));
    Packed.AddAlphaAfterDropAlpha(rgba.pix, rgba.rect.Dx() * rgba.rect.Dy());
  }

  /** Adding alpha back to an RGBA image with its alpha dropped restores it exactly when it was fully opaque. */
  lemma RgbaRoundTrip(rgba: RGBAImage)
    requires RgbaWholeAtOrigin(rgba)
    ensures WholeAtOrigin(RgbOf(rgba)) && (RgbaOf(RgbOf(rgba)) == rgba <==> Packed.Opaque(rgba.pix))
  {
    RgbaPixRoundTrip(rgba);
  }
}
