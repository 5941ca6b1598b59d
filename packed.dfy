/**
 * The row walk shared by every packed-image converter in imglib
 * (convertRGB, convertYUYV, convertRGBA64, convertNRGBA, convertNRGBA64 in
 * imglib/convert.go, and RGB.ToRGBA / NewRGBFromRGBADropAlpha in
 * imglib/rgb.go): for each of h rows, starting `stride` bytes apart, turn
 * every group of source bytes into a group of destination bytes and append
 * them to a tightly packed destination.
 */
module Packed {
  import opened Ints

  /** A per-group conversion: source bytes of one group to destination bytes. */
  type PixelFn = seq<byte> -> seq<byte>

  /** f turns every k-byte group into o bytes. */
  ghost predicate Sized(f: PixelFn, k: nat, o: nat)
  {
    k > 0 && forall p: seq<byte> {:trigger f(p)} :: |p| == k ==> |f(p)| == o
  }

  // ------------------------------------------------------------ per group

  /** Clamp a channel to [0, 255], as the if/else chains of convertYUYV do. */
  function Clamp(v: int): (c: byte)
  {
    if v < 0 then 0 else if v > 255 then 255 else v
  }

  /** `v >> 16` on a Go int: an arithmetic shift, i.e. floor division. */
  function Shr16(v: int): int
  {
    v / 0x10000
  }

  /**
   * One RGBA pixel from Y, Cb, Cr in convertYUYV's 16.16 fixed point:
   * yy = Y<<16 + 1<<15, then r = (yy + 91881·(Cr−128)) >> 16,
   * g = (yy − 22554·(Cb−128) − 46802·(Cr−128)) >> 16,
   * b = (yy + 116130·(Cb−128)) >> 16, each clamped, alpha 0xFF.
   */
  function YuyvPixel(y: byte, cb: byte, cr: byte): (p: seq<byte>)
    ensures |p| == 4 && p[3] == 0xFF
  {
    var yy := y * 0x10000 + 0x8000;
    var cb1, cr1 := cb - 128, cr - 128;
    [Clamp(Shr16(yy + 91881 * cr1)), Clamp(Shr16(yy - 22554 * cb1 - 46802 * cr1)),
     Clamp(Shr16(yy + 116130 * cb1)), 0xFF]
  }

  /** `uint8(uint16(c) * a / 0xff)`: the product is at most 0xFE01, so uint16 does not wrap. */
  function Premul(c: byte, a: byte): (v: byte)
  {
    assert c * a <= 255 * 255;
    c * a / 0xFF
  }

  /** convertRGB and RGB.ToRGBA: copy R, G, B and add alpha 0xFF. */
  function AddAlpha(p: seq<byte>): seq<byte>
  {
    if |p| < 3 then [] else [p[0], p[1], p[2], 0xFF]
  }

  /** NewRGBFromRGBADropAlpha: keep R, G, B of an RGBA pixel. */
  function DropAlpha(p: seq<byte>): seq<byte>
  {
    if |p| < 3 then [] else [p[0], p[1], p[2]]
  }

  /** convertYUYV: one Y1 Cb Y2 Cr group to two RGBA pixels sharing Cb and Cr. */
  function YuyvPairToRgba(p: seq<byte>): seq<byte>
  {
    if |p| < 4 then [] else YuyvPixel(p[0], p[1], p[3]) + YuyvPixel(p[2], p[1], p[3])
  }

  /** convertRGBA64: the high byte of each big-endian 16-bit channel. */
  function HighBytes(p: seq<byte>): seq<byte>
  {
    if |p| < 7 then [] else [p[0], p[2], p[4], p[6]]
  }

  /** convertNRGBA: premultiply R, G, B by alpha; keep alpha. */
  function PremulNrgba(p: seq<byte>): seq<byte>
  {
    if |p| < 4 then [] else [Premul(p[0], p[3]), Premul(p[1], p[3]), Premul(p[2], p[3]), p[3]]
  }

  /** convertNRGBA64: premultiply the high bytes by the high byte of alpha. */
  function PremulNrgba64(p: seq<byte>): seq<byte>
  {
    if |p| < 7 then [] else [Premul(p[0], p[6]), Premul(p[2], p[6]), Premul(p[4], p[6]), p[6]]
  }

  /** The group sizes of the converters. */
  lemma PixelFnsSized()
    ensures Sized(AddAlpha, 3, 4) && Sized(DropAlpha, 4, 3) && Sized(YuyvPairToRgba, 4, 8)
    ensures Sized(HighBytes, 8, 4) && Sized(PremulNrgba, 4, 4) && Sized(PremulNrgba64, 8, 4)
  {
  }

  // ------------------------------------------------------------ rows

  /** A row converted group by group (defined from its last group backwards). */
  function MapRow(f: PixelFn, k: nat, row: seq<byte>): seq<byte>
    decreases |row|
  {
    if k == 0 || |row| < k then []
    else MapRow(f, k, row[..|row| - k]) + f(row[|row| - k..])
  }

  lemma MulNonneg(a: int, b: int)
    requires 0 <= a && 0 <= b
    ensures 0 <= a * b
  {
  }

  /** count rows of rowLen bytes, the first at `from` and each `stride` after the previous, lie inside n bytes. */
  predicate RowsFit(n: int, from: int, stride: int, rowLen: int, count: nat)
    decreases count
  {
    count == 0 ||
    (0 <= from && 0 <= rowLen && from + rowLen <= n && RowsFit(n, from + stride, stride, rowLen, count - 1))
  }

  /** The usual layout: h rows, stride apart, the last one ending inside n bytes. */
  lemma {:induction false} RowsFitLaidOut(n: int, from: int, stride: int, rowLen: int, h: nat)
    requires 0 <= from && 0 <= rowLen && 0 <= stride
    requires h == 0 || from + (h - 1) * stride + rowLen <= n
    ensures RowsFit(n, from, stride, rowLen, h)
    decreases h
  {
    if h > 0 {
      MulNonneg(h - 1, stride);
      if h > 1 {
        assert (from + stride) + (h - 2) * stride == from + (h - 1) * stride;
      }
      RowsFitLaidOut(n, from + stride, stride, rowLen, h - 1);
    }
  }

  /** count rows starting at `from`, converted and packed one after the other. */
  // Rows that do not lie inside pix contribute nothing; every caller keeps RowsFit, so this never happens.
  function Converted(f: PixelFn, k: nat, pix: seq<byte>, from: int, stride: int, rowLen: int, count: nat): seq<byte>
    decreases count
  {
    if count == 0 || !(0 <= from && 0 <= rowLen && from + rowLen <= |pix|) then []
    else MapRow(f, k, pix[from..from + rowLen]) + Converted(f, k, pix, from + stride, stride, rowLen, count - 1)
  }

  // ------------------------------------------------------------ lengths

  /** a input bytes and b output bytes hold the same whole number of k-byte and o-byte groups. */
  ghost predicate SameGroups(a: int, b: int, k: nat, o: nat)
    requires k > 0
    decreases a
  {
    if a <= 0 then a == 0 && b == 0 else a >= k && b >= o && SameGroups(a - k, b - o, k, o)
  }

  /** g groups of k bytes in and g groups of o bytes out. */
  lemma {:induction false} GroupsOf(g: nat, k: nat, o: nat)
    requires k > 0
    ensures SameGroups(g * k, g * o, k, o)
  {
    if g > 0 {
      GroupsOf(g - 1, k, o);
      assert g * k - k == (g - 1) * k && g * o - o == (g - 1) * o;
      MulNonneg(g - 1, k);
      MulNonneg(g - 1, o);
    }
  }

  /** A row of whole groups converts to the matching number of output bytes. */
  lemma {:induction false} MapRowLength(f: PixelFn, k: nat, o: nat, row: seq<byte>, outLen: int)
    requires Sized(f, k, o) && SameGroups(|row|, outLen, k, o)
    ensures |MapRow(f, k, row)| == outLen
    decreases |row|
  {
    if |row| > 0 {
      MapRowLength(f, k, o, row[..|row| - k], outLen - o);
      assert |f(row[|row| - k..])| == o;
    }
  }

  /** count rows of outLen output bytes each convert to count·outLen bytes. */
  lemma {:induction false} ConvertedLength(f: PixelFn, k: nat, o: nat, pix: seq<byte>, from: int, stride: int, rowLen: int, outLen: int, count: nat)
    requires Sized(f, k, o) && SameGroups(rowLen, outLen, k, o) && RowsFit(|pix|, from, stride, rowLen, count)
    ensures |Converted(f, k, pix, from, stride, rowLen, count)| == count * outLen
    decreases count
  {
    if count > 0 {
      ConvertedLength(f, k, o, pix, from + stride, stride, rowLen, outLen, count - 1);
      MapRowLength(f, k, o, pix[from..from + rowLen], outLen);
      assert outLen + (count - 1) * outLen == count * outLen;
    }
  }

  /** The next source group of a row converts onto the end of the row so far. */
  lemma MapRowStep(f: PixelFn, k: nat, pix: seq<byte>, rowStart: int, si: int)
    requires k > 0 && 0 <= rowStart <= si && si + k <= |pix|
    ensures MapRow(f, k, pix[rowStart..si + k]) == MapRow(f, k, pix[rowStart..si]) + f(pix[si..si + k])
  {
    var r := pix[rowStart..si + k];
    assert r[..|r| - k] == pix[rowStart..si];
    assert r[|r| - k..] == pix[si..si + k];
  }

  /** Overwriting the bytes just after a written prefix extends the prefix. */
  lemma Splice(d0: seq<byte>, start: int, m: seq<byte>, di: int, q: seq<byte>)
    requires 0 <= start && di == start + |m| && di + |q| <= |d0|
    ensures var b := d0[..start] + m + d0[di..];
      b[..di] + q + b[di + |q|..] == d0[..start] + (m + q) + d0[di + |q|..]
  {
    var b := d0[..start] + m + d0[di..];
    assert b[..di] == d0[..start] + m;
    assert b[di + |q|..] == d0[di + |q|..];
  }

  /** Copy q into dest at di, leaving the rest alone. */
  method WriteGroup(dest: array<byte>, di: int, q: seq<byte>)
    requires 0 <= di && di + |q| <= dest.Length
    modifies dest
    ensures dest[..] == old(dest[..di]) + q + old(dest[di + |q|..])
  {
    forall t | 0 <= t < |q| {
      dest[di + t] := q[t];
    }
  }

  /** Partway through a row: the groups before si are converted into dest between start and di. */
  ghost predicate RowProgress(f: PixelFn, k: nat, o: nat, pix: seq<byte>, rowStart: int, si: int, endi: int,
                              start: int, outEnd: int, di: int, d0: seq<byte>, buf: seq<byte>)
  {
    k > 0 && 0 <= rowStart <= si && endi <= |pix| && 0 <= start <= di && outEnd <= |d0| &&
    SameGroups(endi - si, outEnd - di, k, o) &&
    di == start + |MapRow(f, k, pix[rowStart..si])| && |buf| == |d0| &&
    buf == d0[..start] + MapRow(f, k, pix[rowStart..si]) + d0[di..]
  }

  /** One pass of the converters' inner loop: convert the group at si and write it at di. */
  method ConvertGroup(f: PixelFn, k: nat, ghost o: nat, pix: seq<byte>, ghost rowStart: int, si: int, ghost endi: int,
                      ghost start: int, ghost outEnd: int, dest: array<byte>, di: int, ghost d0: seq<byte>)
    returns (nextSi: int, nextDi: int)
    requires Sized(f, k, o) && si < endi
    requires RowProgress(f, k, o, pix, rowStart, si, endi, start, outEnd, di, d0, dest[..])
    modifies dest
    ensures si < nextSi
    ensures RowProgress(f, k, o, pix, rowStart, nextSi, endi, start, outEnd, nextDi, d0, dest[..])
  {
    var q := f(pix[si..si + k]);
    nextSi, nextDi := si + k, di + |q|;
    ghost var before := dest[..];
    RowRoom(f, k, o, pix, rowStart, si, endi, start, outEnd, di, d0, before);
    WriteGroup(dest, di, q);
    RowStep(f, k, o, pix, rowStart, si, endi, start, outEnd, di, d0, before, dest[..], nextSi, nextDi);
  }

  /** The next group fits in the source row and in the output. */
  lemma RowRoom(f: PixelFn, k: nat, o: nat, pix: seq<byte>, rowStart: int, si: int, endi: int,
                start: int, outEnd: int, di: int, d0: seq<byte>, buf: seq<byte>)
    requires Sized(f, k, o) && si < endi
    requires RowProgress(f, k, o, pix, rowStart, si, endi, start, outEnd, di, d0, buf)
    ensures si + k <= endi && di + o <= outEnd && outEnd <= |buf|
  {
  }

  /** Writing the converted group at di moves the row on by one group. */
  lemma RowStep(f: PixelFn, k: nat, o: nat, pix: seq<byte>, rowStart: int, si: int, endi: int,
                start: int, outEnd: int, di: int, d0: seq<byte>, buf: seq<byte>, buf': seq<byte>, nextSi: int, nextDi: int)
    requires Sized(f, k, o) && si < endi
    requires RowProgress(f, k, o, pix, rowStart, si, endi, start, outEnd, di, d0, buf)
    requires si + k <= endi && di + o <= |buf|
    requires buf' == buf[..di] + f(pix[si..si + k]) + buf[di + o..]
    requires nextSi == si + k && nextDi == di + o
    ensures RowProgress(f, k, o, pix, rowStart, nextSi, endi, start, outEnd, nextDi, d0, buf')
  {
    var q := f(pix[si..si + k]);
    var m := MapRow(f, k, pix[rowStart..si]);
    Splice(d0, start, m, di, q);
    MapRowStep(f, k, pix, rowStart, si);
  }

  /** At the end of the row every group is written and the output has its full length. */
  lemma RowDone(f: PixelFn, k: nat, o: nat, pix: seq<byte>, rowStart: int, si: int, endi: int,
                start: int, outEnd: int, di: int, d0: seq<byte>, buf: seq<byte>)
    requires !(si < endi) && RowProgress(f, k, o, pix, rowStart, si, endi, start, outEnd, di, d0, buf)
    ensures si == endi && di == outEnd
  {
  }

  /**
   * The converters' inner loop: walk `si` over one row a source group at a
   * time, writing each converted group at `di`; returns where the row's
   * output ends.
   */
  method ConvertRow(f: PixelFn, k: nat, ghost o: nat, pix: seq<byte>, rowStart: int, rowLen: int, ghost outLen: int, dest: array<byte>, start: int) returns (next: int)
    requires Sized(f, k, o) && SameGroups(rowLen, outLen, k, o)
    requires 0 <= rowStart && rowStart + rowLen <= |pix|
    requires 0 <= start && start + outLen <= dest.Length
    modifies dest
    ensures next == start + outLen
    ensures dest[..] == old(dest[..start]) + MapRow(f, k, pix[rowStart..rowStart + rowLen]) + old(dest[next..])
  {
    ghost var d0 := dest[..];
    var endi := rowStart + rowLen;
    var si, di := rowStart, start;
    assert pix[rowStart..si] == [];
    while si < endi
      invariant RowProgress(f, k, o, pix, rowStart, si, endi, start, start + outLen, di, d0, dest[..])
      decreases endi - si
    {
      si, di := ConvertGroup(f, k, o, pix, rowStart, si, endi, start, start + outLen, dest, di, d0);
    }
    RowDone(f, k, o, pix, rowStart, si, endi, start, start + outLen, di, d0, dest[..]);
    next := di;
  }

  lemma AppendAssoc(a: seq<byte>, b: seq<byte>, c: seq<byte>)
    ensures (a + b) + c == a + (b + c)
  {
  }

  /** Writing a row just after the written prefix of an array extends that prefix. */
  lemma ExtendPrefix(out: seq<byte>, d0: seq<byte>, row: seq<byte>, after: seq<byte>)
    requires |out| + |row| <= |d0|
    requires var b := out + d0[|out|..]; after == b[..|out|] + row + b[|out| + |row|..]
    ensures after == (out + row) + d0[|out| + |row|..]
  {
    var b := out + d0[|out|..];
    assert b[..|out|] == out;
    assert b[|out| + |row|..] == d0[|out| + |row|..];
  }

  /** buf is d0 with its first |out| bytes replaced by out. */
  ghost predicate Written(buf: seq<byte>, d0: seq<byte>, out: seq<byte>)
  {
    |out| <= |d0| && buf == out + d0[|out|..]
  }

  /** The count rows still to convert, from `from` on, complete out to whole. */
  ghost predicate Pending(f: PixelFn, k: nat, pix: seq<byte>, from: int, stride: int, rowLen: int, count: nat, out: seq<byte>, whole: seq<byte>)
  {
    RowsFit(|pix|, from, stride, rowLen, count) && out + Converted(f, k, pix, from, stride, rowLen, count) == whole
  }

  /** Converting the next row moves it from the pending rows onto the output. */
  lemma PendingStep(f: PixelFn, k: nat, pix: seq<byte>, si: int, stride: int, rowLen: int, count: nat, out: seq<byte>, row: seq<byte>, whole: seq<byte>,
                    nextSi: int, left: nat)
    requires count > 0 && Pending(f, k, pix, si, stride, rowLen, count, out, whole)
    requires row == MapRow(f, k, pix[si..si + rowLen])
    requires nextSi == si + stride && left == count - 1
    ensures Pending(f, k, pix, nextSi, stride, rowLen, left, out + row, whole)
  {
    var rest := Converted(f, k, pix, nextSi, stride, rowLen, left);
    assert Converted(f, k, pix, si, stride, rowLen, count) == row + rest;
    AppendAssoc(out, row, rest);
  }

  /** One pass of the converters' outer loop: convert the row at si onto the end of the output so far. */
  method ConvertNextRow(f: PixelFn, k: nat, ghost o: nat, pix: seq<byte>, si: int, stride: int, rowLen: int, ghost outLen: int, count: nat,
                        dest: array<byte>, di: int, ghost d0: seq<byte>, ghost out: seq<byte>, ghost whole: seq<byte>)
    returns (next: int, nextSi: int, left: nat, ghost out': seq<byte>)
    requires Sized(f, k, o) && SameGroups(rowLen, outLen, k, o) && count > 0
    requires Pending(f, k, pix, si, stride, rowLen, count, out, whole) && |whole| <= |d0|
    requires di == |out| && Written(dest[..], d0, out)
    modifies dest
    ensures nextSi == si + stride && left == count - 1
    ensures Pending(f, k, pix, nextSi, stride, rowLen, left, out', whole)
    ensures next == |out'| && Written(dest[..], d0, out')
  {
    nextSi, left := si + stride, count - 1;
    ghost var row := MapRow(f, k, pix[si..si + rowLen]);
    MapRowLength(f, k, o, pix[si..si + rowLen], outLen);
    PendingStep(f, k, pix, si, stride, rowLen, count, out, row, whole, nextSi, left);
    next := ConvertRow(f, k, o, pix, si, rowLen, outLen, dest, di);
    ExtendPrefix(out, d0, row, dest[..]);
    out' := out + row;
  }

  /**
   * The converters' loop: for each of h rows, convert its groups onto the
   * end of the output, then move on by the stride. Writes exactly the
   * converted rows at the front of dest.
   */
  method ConvertRows(f: PixelFn, k: nat, ghost o: nat, pix: seq<byte>, base: int, stride: int, rowLen: int, ghost outLen: int, h: nat, dest: array<byte>)
    requires Sized(f, k, o) && SameGroups(rowLen, outLen, k, o) && RowsFit(|pix|, base, stride, rowLen, h)
    requires |Converted(f, k, pix, base, stride, rowLen, h)| <= dest.Length
    modifies dest
    ensures Written(dest[..], old(dest[..]), Converted(f, k, pix, base, stride, rowLen, h))
  {
    ghost var d0 := dest[..];
    ghost var whole := Converted(f, k, pix, base, stride, rowLen, h);
    var di, si := 0, base;
    var left := h;
    ghost var out: seq<byte> := [];
    assert Written(dest[..], d0, out);
    while left > 0
      invariant di == |out| && Written(dest[..], d0, out)
      invariant Pending(f, k, pix, si, stride, rowLen, left, out, whole)
    {
      di, si, left, out := ConvertNextRow(f, k, o, pix, si, stride, rowLen, outLen, left, dest, di, d0, out, whole);
    }
    PendingDone(f, k, pix, si, stride, rowLen, out, whole);
  }

  lemma PendingDone(f: PixelFn, k: nat, pix: seq<byte>, si: int, stride: int, rowLen: int, out: seq<byte>, whole: seq<byte>)
    requires Pending(f, k, pix, si, stride, rowLen, 0, out, whole)
    ensures out == whole
  {
    assert Converted(f, k, pix, si, stride, rowLen, 0) == [];
  }

  /** Once the output fills the whole buffer, the buffer is the output. */
  lemma WrittenWhole(buf: seq<byte>, d0: seq<byte>, out: seq<byte>)
    requires Written(buf, d0, out) && |out| == |d0|
    ensures buf == out
  {
    assert d0[|out|..] == [];
  }

  // ------------------------------------------------------------ row algebra

  /** Converting a concatenation at a group boundary converts the parts. */
  lemma {:induction false} MapRowAppend(f: PixelFn, k: nat, a: seq<byte>, b: seq<byte>, g: nat)
    requires k > 0 && |b| == g * k
    ensures MapRow(f, k, a + b) == MapRow(f, k, a) + MapRow(f, k, b)
    decreases g
  {
    if g == 0 {
      assert a + b == a;
    } else {
      assert |b| - k == (g - 1) * k;
      MapRowAppend(f, k, a, b[..|b| - k], g - 1);
      MapRowLast(f, k, a, b);
      AppendAssoc(MapRow(f, k, a), MapRow(f, k, b[..|b| - k]), f(b[|b| - k..]));
    }
  }

  /** The last group of b is the last group of a + b. */
  lemma MapRowLast(f: PixelFn, k: nat, a: seq<byte>, b: seq<byte>)
    requires k > 0 && |b| >= k
    ensures MapRow(f, k, a + b) == MapRow(f, k, a + b[..|b| - k]) + f(b[|b| - k..])
    ensures MapRow(f, k, b) == MapRow(f, k, b[..|b| - k]) + f(b[|b| - k..])
  {
    var ab := a + b;
    assert ab[..|ab| - k] == a + b[..|b| - k];
    assert ab[|ab| - k..] == b[|b| - k..];
  }

  lemma ContiguousArith(rowLen: int, g: nat, k: nat, h: nat)
    requires rowLen == g * k && h > 0
    ensures 0 <= rowLen && 0 <= (h - 1) * rowLen
    ensures rowLen + (h - 1) * rowLen == h * rowLen
    ensures (h - 1) * rowLen == ((h - 1) * g) * k
  {
    MulNonneg(g, k);
    MulNonneg(h - 1, rowLen);
  }

  /** Rows laid out back to back (stride = row length) convert as one long row. */
  lemma {:induction false} ConvertedContiguous(f: PixelFn, k: nat, pix: seq<byte>, from: int, rowLen: int, g: nat, h: nat, end: int)
    requires k > 0 && rowLen == g * k && 0 <= from && end == from + h * rowLen && end <= |pix|
    ensures RowsFit(|pix|, from, rowLen, rowLen, h)
    ensures Converted(f, k, pix, from, rowLen, rowLen, h) == MapRow(f, k, pix[from..end])
    decreases h
  {
    if h > 0 {
      ContiguousArith(rowLen, g, k, h);
      ConvertedContiguous(f, k, pix, from + rowLen, rowLen, g, h - 1, end);
      ContiguousStep(f, k, pix, from, rowLen, (h - 1) * g, end);
    } else {
      assert pix[from..end] == [];
    }
  }

  /** The first row converted, followed by the rest converted as one long row, is the whole converted. */
  lemma ContiguousStep(f: PixelFn, k: nat, pix: seq<byte>, from: int, rowLen: int, g: nat, end: int)
    requires k > 0 && 0 <= from && 0 <= rowLen && from + rowLen + g * k == end <= |pix|
    ensures MapRow(f, k, pix[from..from + rowLen]) + MapRow(f, k, pix[from + rowLen..end]) == MapRow(f, k, pix[from..end])
  {
    var first, rest := pix[from..from + rowLen], pix[from + rowLen..end];
    MapRowAppend(f, k, first, rest, g);
    assert first + rest == pix[from..end];
  }

  /** Every fourth byte (the alpha) of a packed RGBA buffer is 0xFF. */
  ghost predicate Opaque(s: seq<byte>)
  {
    forall t :: 0 <= t < |s| && t % 4 == 3 ==> s[t] == 0xFF
  }

  /** Opaque buffers joined at a pixel boundary stay opaque. */
  lemma OpaqueAppend(a: seq<byte>, q: seq<byte>)
    requires Opaque(a) && Opaque(q) && |a| % 4 == 0
    ensures Opaque(a + q)
  {
    forall t | 0 <= t < |a + q| && t % 4 == 3
      ensures (a + q)[t] == 0xFF
    {
      if t >= |a| {
        assert (t - |a|) % 4 == 3;
        assert (a + q)[t] == q[t - |a|];
      } else {
        assert (a + q)[t] == a[t];
      }
    }
  }

  /** A row converted by a map whose every group output is whole opaque pixels is whole opaque pixels. */
  lemma {:induction false} MapRowOpaque(f: PixelFn, k: nat, row: seq<byte>)
    requires k > 0
    requires forall p: seq<byte> {:trigger f(p)} :: |p| == k ==> Opaque(f(p)) && |f(p)| % 4 == 0
    ensures Opaque(MapRow(f, k, row)) && |MapRow(f, k, row)| % 4 == 0
    decreases |row|
  {
    if |row| >= k {
      var n := |row| - k;
      var front, last := row[..n], row[n..];
      MapRowOpaque(f, k, front);
      var mf := MapRow(f, k, front);
      assert MapRow(f, k, row) == mf + f(last);
      OpaqueAppend(mf, f(last));
    }
  }

  /** Rows converted by a map that makes whole opaque pixels of every group are, together, opaque. */
  lemma {:induction false} ConvertedOpaque(f: PixelFn, k: nat, pix: seq<byte>, from: int, stride: int, rowLen: int, count: nat)
    requires k > 0
    requires forall p: seq<byte> {:trigger f(p)} :: |p| == k ==> Opaque(f(p)) && |f(p)| % 4 == 0
    ensures Opaque(Converted(f, k, pix, from, stride, rowLen, count))
    decreases count
  {
    if count > 0 && 0 <= from && 0 <= rowLen && from + rowLen <= |pix| {
      ConvertedOpaque(f, k, pix, from + stride, stride, rowLen, count - 1);
      MapRowOpaque(f, k, pix[from..from + rowLen]);
      OpaqueAppend(MapRow(f, k, pix[from..from + rowLen]), Converted(f, k, pix, from + stride, stride, rowLen, count - 1));
    }
  }

  lemma AddAlphaOpaque(p: seq<byte>)
    requires |p| == 3
    ensures Opaque(AddAlpha(p))
  {
  }

  lemma YuyvPairOpaque(p: seq<byte>)
    requires |p| == 4
    ensures Opaque(YuyvPairToRgba(p))
  {
    var q := YuyvPairToRgba(p);
    assert |q| == 8 && q[3] == 0xFF && q[7] == 0xFF;
    forall t | 0 <= t < 8 && t % 4 == 3
      ensures q[t] == 0xFF
    {
      assert t == 3 || t == 7;
    }
  }

  /** RGB rows convert to fully opaque RGBA. */
  lemma RgbRowOpaque(row: seq<byte>)
    ensures Opaque(MapRow(AddAlpha, 3, row))
  {
    forall p: seq<byte> | |p| == 3
      ensures Opaque(AddAlpha(p)) && |AddAlpha(p)| % 4 == 0
    {
      AddAlphaOpaque(p);
    }
    MapRowOpaque(AddAlpha, 3, row);
  }

  /** YUYV rows convert to fully opaque RGBA. */
  lemma YuyvRowOpaque(row: seq<byte>)
    ensures Opaque(MapRow(YuyvPairToRgba, 4, row))
  {
    forall p: seq<byte> | |p| == 4
      ensures Opaque(YuyvPairToRgba(p)) && |YuyvPairToRgba(p)| % 4 == 0
    {
      YuyvPairOpaque(p);
    }
    MapRowOpaque(YuyvPairToRgba, 4, row);
  }

  /** One RGB pixel survives adding and dropping alpha. */
  lemma DropAddPixel(p: seq<byte>)
    requires |p| == 3
    ensures MapRow(DropAlpha, 4, AddAlpha(p)) == p
  {
    var ap := AddAlpha(p);
    assert ap[..0] == [];
    assert MapRow(DropAlpha, 4, ap) == MapRow(DropAlpha, 4, []) + DropAlpha(ap);
  }

  /** Dropping the alpha of an RGBA row built from RGB gives the RGB row back. */
  lemma {:induction false} DropAlphaAfterAddAlpha(row: seq<byte>, g: nat)
    requires |row| == 3 * g
    ensures MapRow(DropAlpha, 4, MapRow(AddAlpha, 3, row)) == row
  {
    if g > 0 {
      var n := |row| - 3;
      var a, p := row[..n], row[n..];
      DropAlphaAfterAddAlpha(a, g - 1);
      var ap := AddAlpha(p);
      var ma := MapRow(AddAlpha, 3, a);
      assert MapRow(AddAlpha, 3, row) == ma + ap;
      MapRowAppend(DropAlpha, 4, ma, ap, 1);
      DropAddPixel(p);
      assert a + p == row;
    }
  }

  lemma OpaquePrefix(q: seq<byte>, n: nat)
    requires Opaque(q) && n <= |q|
    ensures Opaque(q[..n])
  {
    forall t | 0 <= t < n && t % 4 == 3
      ensures q[..n][t] == 0xFF
    {
      assert q[..n][t] == q[t];
    }
  }

  /** One opaque pixel survives dropping and re-adding its alpha. */
  lemma AddDropPixel(p: seq<byte>)
    requires |p| == 4 && p[3] == 0xFF
    ensures MapRow(AddAlpha, 3, DropAlpha(p)) == p
  {
    var dp := DropAlpha(p);
    assert dp[..0] == [];
    assert MapRow(AddAlpha, 3, dp) == MapRow(AddAlpha, 3, []) + AddAlpha(dp);
  }

  /** Adding alpha back to a dropped-alpha row restores an opaque RGBA row. */
  lemma {:induction false} AddAlphaAfterDropAlphaOpaque(q: seq<byte>, g: nat)
    requires |q| == 4 * g && Opaque(q)
    ensures MapRow(AddAlpha, 3, MapRow(DropAlpha, 4, q)) == q
  {
    if g > 0 {
      OpaquePrefix(q, |q| - 4);
      AddAlphaAfterDropAlphaOpaque(q[..|q| - 4], g - 1);
      OpaqueLast(q, g);
      AddDropLast(q);
    } else {
      assert q == [];
    }
  }

  /** The last pixel of an opaque buffer of whole pixels is opaque. */
  lemma OpaqueLast(q: seq<byte>, g: nat)
    requires Opaque(q) && g > 0 && |q| == 4 * g
    ensures q[|q| - 4..][3] == 0xFF
  {
    assert q[|q| - 4..][3] == q[|q| - 1];
  }

  /** If the front of q survives dropping and re-adding alpha, and its last pixel is opaque, q survives. */
  lemma AddDropLast(q: seq<byte>)
    requires |q| >= 4 && q[|q| - 4..][3] == 0xFF
    requires MapRow(AddAlpha, 3, MapRow(DropAlpha, 4, q[..|q| - 4])) == q[..|q| - 4]
    ensures MapRow(AddAlpha, 3, MapRow(DropAlpha, 4, q)) == q
  {
    var n := |q| - 4;
    var ma := MapRow(DropAlpha, 4, q[..n]);
    assert MapRow(DropAlpha, 4, q) == ma + DropAlpha(q[n..]);
    MapRowAppend(AddAlpha, 3, ma, DropAlpha(q[n..]), 1);
    AddDropPixel(q[n..]);
    assert q[..n] + q[n..] == q;
  }

  /** Adding alpha to an RGBA row with its alpha dropped restores it exactly when the row was opaque. */
  lemma AddAlphaAfterDropAlpha(q: seq<byte>, g: nat)
    requires |q| == 4 * g
    ensures MapRow(AddAlpha, 3, MapRow(DropAlpha, 4, q)) == q <==> Opaque(q)
  {
    if Opaque(q) {
      AddAlphaAfterDropAlphaOpaque(q, g);
    } else {
      RgbRowOpaque(MapRow(DropAlpha, 4, q));
    }
  }

  // ------------------------------------------------------------ groups

  /** Neutral chroma (Cb = Cr = 128) gives the grey pixel r = g = b = Y. */
  lemma NeutralChromaIsGrey(y: byte)
    ensures YuyvPixel(y, 128, 128) == [y, y, y, 0xFF]
  {
    var yy := y * 0x10000 + 0x8000;
    assert Shr16(yy) == y;
  }

  /** Premultiplying never raises a channel above itself or above alpha; alpha 0xFF keeps it, alpha 0 clears it. */
  lemma PremulBounds(c: byte, a: byte)
    ensures Premul(c, a) <= c && Premul(c, a) <= a
    ensures a == 0xFF ==> Premul(c, a) == c
    ensures a == 0 ==> Premul(c, a) == 0
  {
    assert c * a <= c * 0xFF by { MulNonneg(c, 0xFF - a); }
    assert c * a <= 0xFF * a by { MulNonneg(0xFF - c, a); }
  }
}
