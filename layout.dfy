/**
 * Row-major packed pixel layout shared by the YUYV and RGB images of imglib:
 * a pixel (x, y) of a `rect` with `stride` bytes per row and `bpp` bytes per
 * pixel starts at (y − Min.Y)·stride + (x − Min.X)·bpp, and a sub-image keeps
 * the stride and starts its buffer at the offset of its own Min.
 */
module Layout {
  import opened Geom

  /** `PixOffset(x, y)` of imglib's packed images. */
  function Offset(rect: Rectangle, stride: int, bpp: int, x: int, y: int): int
  {
    (y - rect.min.y) * stride + (x - rect.min.x) * bpp
  }

  /**
   * A buffer of n bytes holds every row of `rect`: the rectangle is
   * canonical, a row fits in the stride, and the last row ends inside the
   * buffer. NewYUYV and NewRGB build such buffers.
   */
  predicate Holds(n: int, rect: Rectangle, stride: int, bpp: int)
  {
    rect.Canonical() && 0 < bpp && bpp * rect.Dx() <= stride &&
    (rect.Dy() == 0 || (rect.Dy() - 1) * stride + bpp * rect.Dx() <= n)
  }

  /** Offsets measured from a sub-rectangle's Min are the parent's offsets shifted by that Min's offset. */
  lemma SubOffset(rect: Rectangle, sub: Rectangle, stride: int, bpp: int, x: int, y: int)
    ensures Offset(sub, stride, bpp, x, y) + Offset(rect, stride, bpp, sub.min.x, sub.min.y) == Offset(rect, stride, bpp, x, y)
  {
    assert (y - sub.min.y) * stride + (sub.min.y - rect.min.y) * stride == (y - rect.min.y) * stride;
    assert (x - sub.min.x) * bpp + (sub.min.x - rect.min.x) * bpp == (x - rect.min.x) * bpp;
  }

  /** Along a row, the offset grows by bpp per pixel from the row's first pixel. */
  lemma RowOffset(rect: Rectangle, stride: int, bpp: int, x: int, y: int)
    ensures Offset(rect, stride, bpp, x, y) == Offset(rect, stride, bpp, rect.min.x, y) + (x - rect.min.x) * bpp
  {
  }

  /** Moving down one row moves the offset by one stride. */
  lemma NextRowOffset(rect: Rectangle, stride: int, bpp: int, x: int, y: int)
    ensures Offset(rect, stride, bpp, x, y + 1) == Offset(rect, stride, bpp, x, y) + stride
  {
    assert (y + 1 - rect.min.y) * stride == (y - rect.min.y) * stride + stride;
  }

  lemma MulMono(a: int, b: int, c: int)
    requires 0 <= a <= b && 0 <= c
    ensures a * c <= b * c
  {
    assert b * c - a * c == (b - a) * c;
    assert 0 <= (b - a) * c;
  }

  /**
   * Inside a buffer that holds its rectangle, the bytes from a sub-rectangle's
   * Min to the end of the sub-rectangle's last row lie in the buffer, and
   * they are exactly (Dy − 1)·stride + bpp·Dx bytes.
   */
  lemma SubSpan(n: int, rect: Rectangle, stride: int, bpp: int, sub: Rectangle)
    requires Holds(n, rect, stride, bpp) && !sub.Empty() && rect.Encloses(sub)
    ensures var i, e := Offset(rect, stride, bpp, sub.min.x, sub.min.y), Offset(rect, stride, bpp, sub.max.x, sub.max.y - 1);
      0 <= i <= e <= n && e - i == (sub.Dy() - 1) * stride + bpp * sub.Dx()
  {
    var i, e := Offset(rect, stride, bpp, sub.min.x, sub.min.y), Offset(rect, stride, bpp, sub.max.x, sub.max.y - 1);
    SubOffset(rect, sub, stride, bpp, sub.max.x, sub.max.y - 1);
    assert e - i == (sub.Dy() - 1) * stride + bpp * sub.Dx();
    MulMono(0, sub.min.y - rect.min.y, stride);
    MulMono(0, sub.min.x - rect.min.x, bpp);
    MulMono(0, sub.Dy() - 1, stride);
    MulMono(0, sub.Dx(), bpp);
    MulMono(sub.max.y - 1 - rect.min.y, rect.Dy() - 1, stride);
    MulMono(sub.max.x - rect.min.x, rect.Dx(), bpp);
  }

  /**
   * Two different pixels of a rectangle whose rows fit in the stride start
   * at least bpp bytes apart, so writing one pixel's bytes never touches
   * another's.
   */
  lemma Apart(rect: Rectangle, stride: int, bpp: int, x1: int, y1: int, x2: int, y2: int)
    requires 0 < bpp && bpp * rect.Dx() <= stride
    requires rect.Has(Point(x1, y1)) && rect.Has(Point(x2, y2)) && (x1, y1) != (x2, y2)
    ensures var o1, o2 := Offset(rect, stride, bpp, x1, y1), Offset(rect, stride, bpp, x2, y2);
      o1 + bpp <= o2 || o2 + bpp <= o1
  {
    if y1 == y2 {
      assert Offset(rect, stride, bpp, x2, y2) - Offset(rect, stride, bpp, x1, y1) == (x2 - x1) * bpp;
      if x1 < x2 { MulMono(1, x2 - x1, bpp); } else { MulMono(1, x1 - x2, bpp); }
    } else if y1 < y2 {
      RowsApart(rect, stride, bpp, x1, y1, x2, y2);
    } else {
      RowsApart(rect, stride, bpp, x2, y2, x1, y1);
    }
  }

  /** A pixel on a later row starts at least bpp bytes after any pixel of an earlier row. */
  lemma RowsApart(rect: Rectangle, stride: int, bpp: int, x1: int, y1: int, x2: int, y2: int)
    requires 0 < bpp && bpp * rect.Dx() <= stride
    requires rect.Has(Point(x1, y1)) && rect.Has(Point(x2, y2)) && y1 < y2
    ensures Offset(rect, stride, bpp, x1, y1) + bpp <= Offset(rect, stride, bpp, x2, y2)
  {
    assert (y2 - rect.min.y) * stride - (y1 - rect.min.y) * stride == (y2 - y1) * stride;
    MulMono(1, y2 - y1, stride);
    MulMono(x1 - rect.min.x + 1, rect.Dx(), bpp);
    MulMono(0, x2 - rect.min.x, bpp);
  }
}
