/**
 * imglib's YUYV image (also YUY2, packed YUV 4:2:2): every horizontal pair
 * of pixels is four bytes Y1 Cb Y2 Cr, the two pixels sharing Cb and Cr.
 * The image is a value (Pix, Stride, Rect); the methods that write a buffer
 * in place take the Pix buffer as an array.
 */
module Yuyv {
  import opened Ints
  import opened Geom
  import opened Wrappers
  import opened GoImage
  import Layout
  import Packed

  /** `yuyvBytesPP`: two bytes per pixel on average. */
  const BytesPerPixel := 2

  const Black := YCbCrColor(0, 0, 0)

  datatype YUYV = YUYV(pix: seq<byte>, stride: int, rect: Rectangle)
  {
    /** Index in Pix of the first byte of pixel (x, y). */
    function PixOffset(x: int, y: int): int
    {
      Layout.Offset(rect, stride, BytesPerPixel, x, y)
    }

    /** The bytes At reads for (x, y) lie in Pix (or the point is outside, where At reads nothing). */
    predicate Readable(x: int, y: int)
    {
      var i := PixOffset(x, y);
      !rect.Has(Point(x, y)) || if x % 2 == 0 then 0 <= i && i + 3 < |pix| else 1 <= i && i + 1 < |pix|
    }

    /**
     * The colour of (x, y): zero outside the bounds; else the pixel's own Y
     * with the Cb and Cr of its pair, which sit after it for an even x and
     * around it for an odd x.
     */
    function At(x: int, y: int): (c: YCbCrColor)
      requires Readable(x, y)
      ensures !rect.Has(Point(x, y)) ==> c == Black
      ensures rect.Has(Point(x, y)) ==> c.y == pix[PixOffset(x, y)]
    {
      if !rect.Has(Point(x, y)) then Black
      else
        var i := PixOffset(x, y);
        if x % 2 == 0 then YCbCrColor(pix[i], pix[i + 1], pix[i + 3])
        else YCbCrColor(pix[i], pix[i - 1], pix[i + 1])
    }

    /** Where row y starts. */
    function RowStart(y: int): int
    {
      PixOffset(rect.min.x, y)
    }

    /** Pixel k of row y is 2·k bytes after the row's start. */
    lemma AlongRow(x: int, y: int, k: int)
      requires x == rect.min.x + k
      ensures PixOffset(x, y) == RowStart(y) + 2 * k
    {
      Layout.RowOffset(rect, stride, BytesPerPixel, x, y);
    }

    /** GetRow's loop steps through 2·Dx bytes four at a time. */
    function RowGroups(): nat
    {
      Groups(rect.Dx())
    }

    /** The groups GetRow reads for row y lie in Pix. */
    predicate RowReadable(y: int)
    {
      0 <= RowStart(y) && RowStart(y) + 4 * RowGroups() <= |pix|
    }

    /** The colours of row y as GetRow produces them. */
    function RowColors(y: int): (row: seq<YCbCrColor>)
      requires RowReadable(y)
      ensures |row| == 2 * RowGroups()
    {
      UnpackLength(pix[RowStart(y)..RowStart(y) + 4 * RowGroups()], RowGroups());
      Unpack(pix[RowStart(y)..RowStart(y) + 4 * RowGroups()])
    }

    /** The row's colours are the unpacking of its bytes. */
    lemma RowColorsUnpack(y: int, s: int, g: nat)
      requires RowReadable(y) && s == RowStart(y) && g == RowGroups()
      ensures RowColors(y) == Unpack(pix[s..s + 4 * g])
    {
    }

    /** SetRow can slice Pix at the row start and write 2·n bytes after it. */
    predicate RowWritable(y: int, n: int)
    {
      0 <= RowStart(y) && RowStart(y) + 2 * n <= |pix|
    }

    /** The image after SetRow(y, cols). */
    function WithRow(y: int, cols: seq<YCbCrColor>): (img: YUYV)
      requires |cols| % 2 == 0 && RowWritable(y, |cols|)
      ensures |img.pix| == |pix| && img.stride == stride && img.rect == rect
    {
      var off := RowStart(y);
      PackLength(cols, |cols| / 2);
      YUYV(pix[..off] + Pack(cols) + pix[off + 2 * |cols|..], stride, rect)
    }
  }

  /** `NewYUYV(r)`: a zeroed buffer of 2·w·h bytes with stride 2·w. */
  function NewYUYV(r: Rectangle): (img: YUYV)
    requires 0 <= r.Dx() * r.Dy()
    ensures |img.pix| == 2 * r.Dx() * r.Dy() && img.stride == 2 * r.Dx() && img.rect == r
    ensures forall t :: 0 <= t < |img.pix| ==> img.pix[t] == 0
  {
    YUYV(Zeros(2 * r.Dx() * r.Dy()), 2 * r.Dx(), r)
  }

  lemma NewYUYVHolds(r: Rectangle)
    requires r.Canonical()
    ensures 0 <= r.Dx() * r.Dy()
    ensures Layout.Holds(|NewYUYV(r).pix|, r, NewYUYV(r).stride, BytesPerPixel)
  {
    Layout.MulMono(0, r.Dx(), r.Dy());
    if r.Dy() > 0 {
      assert (r.Dy() - 1) * (2 * r.Dx()) + 2 * r.Dx() == 2 * r.Dx() * r.Dy();
    }
  }

  /** The pixel offset the YUYV tests check: (1, 1) of a 128-pixel-wide image. */
  lemma PixOffsetExample()
    ensures NewYUYV(Rect(0, 0, 128, 128)).PixOffset(1, 1) == 258
  {
  }

  // ------------------------------------------------------------ pairs

  /** The two colours of one group Y1 Cb Y2 Cr: (Y1, Cb, Cr) and (Y2, Cb, Cr). */
  function UnpackGroup(q: seq<byte>): (pair: seq<YCbCrColor>)
    requires |q| == 4
    ensures |pair| == 2
  {
    [YCbCrColor(q[0], q[1], q[3]), YCbCrColor(q[2], q[1], q[3])]
  }

  /** The colours of a run of four-byte groups, two per group, in order; bytes in front that do not fill a group give none. */
  function Unpack(s: seq<byte>): (cols: seq<YCbCrColor>)
    ensures 2 * |cols| <= |s| < 2 * |cols| + 4
    decreases |s|
  {
    if |s| < 4 then [] else Unpack(s[..|s| - 4]) + UnpackGroup(s[|s| - 4..])
  }

  /** g whole groups unpack to 2·g colours. */
  lemma {:induction false} UnpackLength(s: seq<byte>, g: nat)
    requires |s| == 4 * g
    ensures |Unpack(s)| == 2 * g
  {
    if g > 0 {
      UnpackLength(s[..|s| - 4], g - 1);
    }
  }

  /** The four bytes SetRow writes for the colours c1, c2: (Y1, Cb1|Cb2, Y2, Cr1|Cr2). */
  function PackGroup(c1: YCbCrColor, c2: YCbCrColor): (q: seq<byte>)
    ensures |q| == 4
  {
    [c1.y, Or(c1.cb, c2.cb), c2.y, Or(c1.cr, c2.cr)]
  }

  /** A row of colours packed as SetRow packs it, two colours per group, in order; an odd colour in front gives nothing. */
  function Pack(cols: seq<YCbCrColor>): (s: seq<byte>)
    ensures |s| <= 2 * |cols| <= |s| + 2
    decreases |cols|
  {
    if |cols| < 2 then [] else Pack(cols[..|cols| - 2]) + PackGroup(cols[|cols| - 2], cols[|cols| - 1])
  }

  /** g pairs of colours pack to 4·g bytes. */
  lemma {:induction false} PackLength(cols: seq<YCbCrColor>, g: nat)
    requires |cols| == 2 * g
    ensures |Pack(cols)| == 4 * g
  {
    if g > 0 {
      PackLength(cols[..|cols| - 2], g - 1);
    }
  }

  lemma UnpackSnoc(s: seq<byte>, q: seq<byte>)
    requires |q| == 4
    ensures Unpack(s + q) == Unpack(s) + UnpackGroup(q)
  {
    assert (s + q)[..|s|] == s && (s + q)[|s|..] == q;
  }

  lemma PackSnoc(cols: seq<YCbCrColor>, i: int)
    requires 0 <= i && i + 2 <= |cols|
    ensures Pack(cols[..i + 2]) == Pack(cols[..i]) + PackGroup(cols[i], cols[i + 1])
  {
    assert cols[..i + 2][..i] == cols[..i];
  }

  /** Colours 2j and 2j+1 of g unpacked groups come from group j. */
  lemma {:induction false} UnpackAt(s: seq<byte>, g: nat, j: nat)
    requires |s| == 4 * g && j < g
    ensures |Unpack(s)| == 2 * g
    ensures Unpack(s)[2 * j] == YCbCrColor(s[4 * j], s[4 * j + 1], s[4 * j + 3])
    ensures Unpack(s)[2 * j + 1] == YCbCrColor(s[4 * j + 2], s[4 * j + 1], s[4 * j + 3])
  {
    var init, last := s[..|s| - 4], s[|s| - 4..];
    UnpackLength(init, g - 1);
    UnpackLast(s);
    if j < g - 1 {
      UnpackAt(init, g - 1, j);
      UnpackAtInit(s, Unpack(init), UnpackGroup(last), j);
    } else {
      UnpackAtLast(s, Unpack(init), j);
    }
  }

  /** Colours 2j and 2j+1 of the groups before the last stay where they are when the last group is appended. */
  lemma UnpackAtInit(s: seq<byte>, pre: seq<YCbCrColor>, pair: seq<YCbCrColor>, j: nat)
    requires 4 <= |s| && 2 * j + 2 <= |pre| && 4 * j + 4 <= |s| - 4
    requires pre[2 * j] == YCbCrColor(s[..|s| - 4][4 * j], s[..|s| - 4][4 * j + 1], s[..|s| - 4][4 * j + 3])
    requires pre[2 * j + 1] == YCbCrColor(s[..|s| - 4][4 * j + 2], s[..|s| - 4][4 * j + 1], s[..|s| - 4][4 * j + 3])
    ensures (pre + pair)[2 * j] == YCbCrColor(s[4 * j], s[4 * j + 1], s[4 * j + 3])
    ensures (pre + pair)[2 * j + 1] == YCbCrColor(s[4 * j + 2], s[4 * j + 1], s[4 * j + 3])
  {
  }

  /** The last group's colours come right after those of the groups before it. */
  lemma UnpackAtLast(s: seq<byte>, pre: seq<YCbCrColor>, j: nat)
    requires |s| == 4 * j + 4 && |pre| == 2 * j
    ensures (pre + UnpackGroup(s[|s| - 4..]))[2 * j] == YCbCrColor(s[4 * j], s[4 * j + 1], s[4 * j + 3])
    ensures (pre + UnpackGroup(s[|s| - 4..]))[2 * j + 1] == YCbCrColor(s[4 * j + 2], s[4 * j + 1], s[4 * j + 3])
  {
  }

  /** Unpacking at least one group: the groups before the last, then the last. */
  lemma UnpackLast(s: seq<byte>)
    requires |s| >= 4
    ensures Unpack(s) == Unpack(s[..|s| - 4]) + UnpackGroup(s[|s| - 4..])
  {
  }

  lemma AppendIndex<T>(a: seq<T>, b: seq<T>, k: int)
    requires 0 <= k < |a| + |b|
    ensures (a + b)[k] == if k < |a| then a[k] else b[k - |a|]
  {
  }

  /** Two colours of one pair share Cb and Cr. */
  predicate SameChroma(c1: YCbCrColor, c2: YCbCrColor)
  {
    c1.cb == c2.cb && c1.cr == c2.cr
  }

  /** Each pair of colours (0 and 1, 2 and 3, ...) shares its chroma, as a YUYV pair must. */
  predicate ChromaPaired(cols: seq<YCbCrColor>)
    decreases |cols|
  {
    |cols| == 0 ||
    (2 <= |cols| && ChromaPaired(cols[..|cols| - 2]) && SameChroma(cols[|cols| - 2], cols[|cols| - 1]))
  }

  /** A pair sharing its chroma survives packing and unpacking. */
  lemma UnpackPackGroup(c1: YCbCrColor, c2: YCbCrColor)
    requires SameChroma(c1, c2)
    ensures UnpackGroup(PackGroup(c1, c2)) == [c1, c2]
  {
    OrSelf(c1.cb);
    OrSelf(c1.cr);
  }

  /** Packing colours whose pairs share chroma, then unpacking, gives them back. */
  lemma {:induction false} UnpackPack(cols: seq<YCbCrColor>)
    requires ChromaPaired(cols)
    ensures Unpack(Pack(cols)) == cols
    decreases |cols|
  {
    if |cols| > 0 {
      var init := cols[..|cols| - 2];
      UnpackPack(init);
      UnpackPackLast(cols);
    }
  }

  /** Packing and unpacking a row of pairs handles its last pair on its own. */
  lemma UnpackPackLast(cols: seq<YCbCrColor>)
    requires 2 <= |cols| && SameChroma(cols[|cols| - 2], cols[|cols| - 1])
    ensures Unpack(Pack(cols)) == Unpack(Pack(cols[..|cols| - 2])) + cols[|cols| - 2..]
  {
    var init, c1, c2 := cols[..|cols| - 2], cols[|cols| - 2], cols[|cols| - 1];
    assert Pack(cols) == Pack(init) + PackGroup(c1, c2);
    UnpackSnoc(Pack(init), PackGroup(c1, c2));
    UnpackPackGroup(c1, c2);
    LastTwo(cols);
  }

  lemma SplitAt<T>(s: seq<T>, k: int)
    requires 0 <= k <= |s|
    ensures s == s[..k] + s[k..]
  {
  }

  lemma LastTwo<T>(s: seq<T>)
    requires |s| >= 2
    ensures s[|s| - 2..] == [s[|s| - 2], s[|s| - 1]]
  {
  }

  /** The colours of a packed row pair up: both colours of a group carry its Cb and Cr. */
  lemma {:induction false} UnpackChromaPaired(s: seq<byte>, g: nat)
    requires |s| == 4 * g
    ensures ChromaPaired(Unpack(s))
  {
    if g > 0 {
      UnpackChromaPaired(s[..|s| - 4], g - 1);
      UnpackLastPair(s);
    }
  }

  /** Dropping the last pair of an unpacked row unpacks the row without its last group; that pair shares its chroma. */
  lemma UnpackLastPair(s: seq<byte>)
    requires |s| >= 4
    ensures var cols := Unpack(s);
      |cols| >= 2 && cols[..|cols| - 2] == Unpack(s[..|s| - 4]) && SameChroma(cols[|cols| - 2], cols[|cols| - 1])
  {
    var cols := Unpack(s);
    assert cols == Unpack(s[..|s| - 4]) + UnpackGroup(s[|s| - 4..]);
  }

  /** A group of bytes survives unpacking and packing. */
  lemma PackUnpackGroup(q: seq<byte>)
    requires |q| == 4
    ensures PackGroup(UnpackGroup(q)[0], UnpackGroup(q)[1]) == q
  {
    OrSelf(q[1]);
    OrSelf(q[3]);
  }

  /** Unpacking g whole groups and packing them again gives the bytes back. */
  lemma {:induction false} PackUnpack(s: seq<byte>, g: nat)
    requires |s| == 4 * g
    ensures Pack(Unpack(s)) == s
  {
    if g > 0 {
      var init := s[..|s| - 4];
      PackUnpack(init, g - 1);
      PackUnpackLast(s);
      SplitAt(s, |s| - 4);
    }
  }

  /** Unpacking and packing a row of groups handles its last group on its own. */
  lemma PackUnpackLast(s: seq<byte>)
    requires |s| >= 4
    ensures Pack(Unpack(s)) == Pack(Unpack(s[..|s| - 4])) + s[|s| - 4..]
  {
    var q := s[|s| - 4..];
    var cols, pre := Unpack(s), Unpack(s[..|s| - 4]);
    assert cols == pre + UnpackGroup(q);
    assert cols[..|cols| - 2] == pre;
    PackUnpackGroup(q);
  }

  /** SetRow's example row: Y = 1, Cb = 2 in the second colour of the first pair, Cr = 3 in the second colour of the second. */
  lemma PackExample()
    ensures Pack([Black, YCbCrColor(1, 2, 0), Black, YCbCrColor(0, 0, 3)]) == [0, 2, 1, 0, 0, 0, 0, 3]
  {
    PackTwoPairs(Black, YCbCrColor(1, 2, 0), Black, YCbCrColor(0, 0, 3));
    OrZero(0);
    OrZero(2);
    OrZero(3);
  }

  lemma PackTwoPairs(c1: YCbCrColor, c2: YCbCrColor, c3: YCbCrColor, c4: YCbCrColor)
    ensures Pack([c1, c2, c3, c4]) == PackGroup(c1, c2) + PackGroup(c3, c4)
  {
    var cols := [c1, c2, c3, c4];
    assert cols[..2] == [c1, c2];
    assert cols[..2][..0] == [];
  }

  // ------------------------------------------------------------ rows

  /** The groups GetRow's loop reads for a row w pixels wide: it steps 2·w bytes four at a time. */
  function Groups(w: int): nat
  {
    if w <= 0 then 0 else (w + 1) / 2
  }

  lemma GroupsCover(w: int, j: int)
    requires 0 <= j
    ensures 4 * j < 2 * w <==> j < Groups(w)
  {
  }

  /** The group of pixels 2j and 2j+1 of a row w pixels wide is among the row's groups. */
  lemma GroupsBound(w: int, j: int)
    requires 0 <= 2 * j < w
    ensures j < Groups(w)
  {
  }

  /**
   * How many pairs of a g-pair row GetRow leaves in a caller's slice of
   * capacity `cap`: each append of a pair lands in place while it fits;
   * the first that does not fit moves the slice to a fresh array, and no
   * later pair reaches the caller's.
   */
  function Landed(g: nat, cap: nat): (p: nat)
    ensures p <= g && 2 * p <= cap
    ensures p < g ==> cap < 2 * p + 2
  {
    if g == 0 then 0
    else
      var p := Landed(g - 1, cap);
      if p == g - 1 && 2 * g <= cap then g else p
  }

  /** `buf` holds the colours of the g-pair `row` that landed, and `d0`'s own colours after them. */
  ghost predicate Delivered(buf: seq<YCbCrColor>, d0: seq<YCbCrColor>, row: seq<YCbCrColor>, g: nat)
  {
    var m := 2 * Landed(g, |d0|);
    |row| == 2 * g && |buf| == |d0| &&
    (forall k :: 0 <= k < m ==> buf[k] == row[k]) &&
    (forall k :: m <= k < |buf| ==> buf[k] == d0[k])
  }

  /** GetRow's loop after j groups of the row that starts at `start`. */
  ghost predicate RowRead(pix: seq<byte>, start: int, j: nat, buf: seq<YCbCrColor>, d0: seq<YCbCrColor>)
  {
    0 <= start && start + 4 * j <= |pix| && Delivered(buf, d0, Unpack(pix[start..start + 4 * j]), j)
  }

  lemma RowReadStart(pix: seq<byte>, start: int, d0: seq<YCbCrColor>)
    requires 0 <= start <= |pix|
    ensures RowRead(pix, start, 0, d0, d0)
  {
  }

  /** Unpacking the next group appends one pair to the colours so far. */
  lemma UnpackNext(pix: seq<byte>, start: int, j: nat, nextJ: nat)
    requires 0 <= start && start + 4 * nextJ <= |pix| && nextJ == j + 1
    ensures Unpack(pix[start..start + 4 * nextJ]) ==
            Unpack(pix[start..start + 4 * j]) + UnpackGroup(pix[start + 4 * j..start + 4 * nextJ])
  {
    var s, q := pix[start..start + 4 * j], pix[start + 4 * j..start + 4 * nextJ];
    assert pix[start..start + 4 * nextJ] == s + q;
    UnpackSnoc(s, q);
  }

  /** While every pair so far has landed, the next one lands exactly when it fits. */
  lemma LandedNext(j: nat, cap: nat)
    requires 2 * j + 2 <= cap
    ensures Landed(j, cap) == j && Landed(j + 1, cap) == j + 1
  {
  }

  /** Once a pair does not fit, no more land. */
  lemma LandedStays(j: nat, cap: nat)
    requires cap < 2 * j + 2
    ensures Landed(j + 1, cap) == Landed(j, cap)
  {
  }

  lemma AppendIndices<T>(a: seq<T>, b: seq<T>)
    ensures forall k :: 0 <= k < |a| ==> (a + b)[k] == a[k]
    ensures forall k :: |a| <= k < |a| + |b| ==> (a + b)[k] == b[k - |a|]
  {
  }

  /** A pair that fits is written after the others, which all landed before it. */
  lemma DeliverPair(buf: seq<YCbCrColor>, buf': seq<YCbCrColor>, d0: seq<YCbCrColor>, row: seq<YCbCrColor>,
                    pair: seq<YCbCrColor>, j: nat, nextJ: nat)
    requires Delivered(buf, d0, row, j) && |pair| == 2 && nextJ == j + 1 && 2 * nextJ <= |d0|
    requires buf' == buf[2 * j := pair[0]][2 * j + 1 := pair[1]]
    ensures Delivered(buf', d0, row + pair, nextJ)
  {
    LandedNext(j, |d0|);
    AppendIndices(row, pair);
  }

  /** A pair that does not fit is not written where the caller sees it. */
  lemma SkipPair(buf: seq<YCbCrColor>, d0: seq<YCbCrColor>, row: seq<YCbCrColor>, pair: seq<YCbCrColor>, j: nat, nextJ: nat)
    requires Delivered(buf, d0, row, j) && |pair| == 2 && nextJ == j + 1 && |d0| < 2 * nextJ
    ensures Delivered(buf, d0, row + pair, nextJ)
  {
    LandedStays(j, |d0|);
    AppendIndices(row, pair);
  }

  /** GetRow's loop turn when the group's pair fits. */
  lemma LandStep(pix: seq<byte>, start: int, j: nat, nextJ: nat, pair: seq<YCbCrColor>,
                 buf: seq<YCbCrColor>, buf': seq<YCbCrColor>, d0: seq<YCbCrColor>)
    requires RowRead(pix, start, j, buf, d0) && start + 4 * nextJ <= |pix| && nextJ == j + 1 && 2 * nextJ <= |d0|
    requires pair == UnpackGroup(pix[start + 4 * j..start + 4 * nextJ])
    requires buf' == buf[2 * j := pair[0]][2 * j + 1 := pair[1]]
    ensures RowRead(pix, start, nextJ, buf', d0)
  {
    UnpackNext(pix, start, j, nextJ);
    DeliverPair(buf, buf', d0, Unpack(pix[start..start + 4 * j]), pair, j, nextJ);
  }

  /** GetRow's loop turn when the group's pair does not fit. */
  lemma SkipStep(pix: seq<byte>, start: int, j: nat, nextJ: nat, buf: seq<YCbCrColor>, d0: seq<YCbCrColor>)
    requires RowRead(pix, start, j, buf, d0) && start + 4 * nextJ <= |pix| && nextJ == j + 1 && |d0| < 2 * nextJ
    ensures RowRead(pix, start, nextJ, buf, d0)
  {
    UnpackNext(pix, start, j, nextJ);
    SkipPair(buf, d0, Unpack(pix[start..start + 4 * j]), UnpackGroup(pix[start + 4 * j..start + 4 * nextJ]), j, nextJ);
  }

  /** One turn of GetRow's loop: the two colours of the group at i, appended to the row while they fit. */
  method UnpackGroupInto(pix: seq<byte>, start: int, i: int, n: int, ghost j: nat,
                         dest: array<YCbCrColor>, ghost d0: seq<YCbCrColor>)
    returns (nextI: int, nextN: int, ghost nextJ: nat)
    requires i == start + 4 * j && n == 2 * j && i + 4 <= |pix|
    requires RowRead(pix, start, j, dest[..], d0)
    modifies dest
    ensures nextI == i + 4 && nextN == n + 2 && nextJ == j + 1
    ensures RowRead(pix, start, nextJ, dest[..], d0)
  {
    var y1, b, y2, r := pix[i], pix[i + 1], pix[i + 2], pix[i + 3];
    nextI, nextN, nextJ := i + 4, n + 2, j + 1;
    assert pix[i..i + 4] == pix[start + 4 * j..start + 4 * nextJ];
    if n + 2 <= dest.Length {
      ghost var before := dest[..];
      ghost var pair := UnpackGroup(pix[i..i + 4]);
      assert pair[0] == YCbCrColor(y1, b, r) && pair[1] == YCbCrColor(y2, b, r);
      dest[n], dest[n + 1] := YCbCrColor(y1, b, r), YCbCrColor(y2, b, r);
      assert dest[..] == before[2 * j := pair[0]][2 * j + 1 := pair[1]];
      LandStep(pix, start, j, nextJ, pair, before, dest[..], d0);
    } else {
      SkipStep(pix, start, j, nextJ, dest[..], d0);
    }
  }

  /**
   * GetRow's loop: walk `width` pixels of bytes from `start` four bytes at a
   * time, appending the two colours of each group to `dest[:0]`, whose
   * capacity is dest.Length here.
   */
  method UnpackInto(pix: seq<byte>, start: int, width: int, dest: array<YCbCrColor>)
    requires 0 <= start && start + 4 * Groups(width) <= |pix|
    modifies dest
    ensures Delivered(dest[..], old(dest[..]), Unpack(pix[start..start + 4 * Groups(width)]), Groups(width))
  {
    ghost var d0 := dest[..];
    ghost var g := Groups(width);
    var n := 0;
    var i := start;
    var end := i + width * BytesPerPixel;
    ghost var j: nat := 0;
    RowReadStart(pix, start, d0);
    GroupsCover(width, 0);
    while i < end
      invariant j <= g && i == start + 4 * j && n == 2 * j && (i < end <==> j < g)
      invariant RowRead(pix, start, j, dest[..], d0)
      decreases g - j
    {
      i, n, j := UnpackGroupInto(pix, start, i, n, j, dest, d0);
      GroupsCover(width, j);
    }
    assert j == g;
  }

  /**
   * `GetRow(y, dest)`: the colours of row y, as many pairs as dest's
   * capacity takes (see Landed). A row of no groups reads nothing, so Pix
   * need not reach its start.
   */
  method GetRow(img: YUYV, y: int, dest: array<YCbCrColor>)
    requires img.RowGroups() == 0 || img.RowReadable(y)
    modifies dest
    ensures img.RowGroups() == 0 ==> dest[..] == old(dest[..])
    ensures img.RowReadable(y) ==> Delivered(dest[..], old(dest[..]), img.RowColors(y), img.RowGroups())
  {
    if img.RowGroups() == 0 {
      return;
    }
    UnpackInto(img.pix, img.PixOffset(img.rect.min.x, y), img.rect.Dx(), dest);
  }

  /** SetRow's loop: pack the colours two at a time into the buffer from `off` on. */
  method PackInto(pix: array<byte>, off: int, cols: seq<YCbCrColor>)
    requires |cols| % 2 == 0 && 0 <= off && off + 2 * |cols| <= pix.Length
    modifies pix
    ensures pix[..] == old(pix[..off]) + Pack(cols) + old(pix[off + 2 * |cols|..])
  {
    ghost var d0 := pix[..];
    var o := 0;
    var i := 0;
    ghost var j := 0;
    while i < |cols|
      invariant 0 <= i <= |cols| && i == 2 * j && o == 4 * j
      invariant pix[..] == d0[..off] + Pack(cols[..i]) + d0[off + o..]
    {
      i, o, j := PackPairInto(pix, off, cols, i, o, j, d0);
    }
    PackDone(pix[..], d0, off, cols, i, o);
  }

  /** One turn of SetRow's loop: colours i and i + 1 packed into the four bytes at off + o. */
  method PackPairInto(pix: array<byte>, off: int, cols: seq<YCbCrColor>, i: nat, o: nat, ghost j: nat, ghost d0: seq<byte>)
    returns (nextI: nat, nextO: nat, ghost nextJ: nat)
    requires i == 2 * j && o == 4 * j && i + 2 <= |cols| && 0 <= off && off + 2 * |cols| <= |d0| == pix.Length
    requires pix[..] == d0[..off] + Pack(cols[..i]) + d0[off + o..]
    modifies pix
    ensures nextI == i + 2 && nextO == o + 4 && nextJ == j + 1
    ensures pix[..] == d0[..off] + Pack(cols[..nextI]) + d0[off + nextO..]
  {
    var c1, c2 := cols[i], cols[i + 1];
    ghost var before := pix[..];
    Packed.WriteGroup(pix, off + o, PackGroup(c1, c2));
    nextI, nextO, nextJ := i + 2, o + 4, j + 1;
    PackStep(before, pix[..], d0, off, cols, i, o, nextI, nextO);
  }

  /** Packing colours i and i + 1 after the first i extends the packed bytes by one group. */
  lemma PackStep(before: seq<byte>, after: seq<byte>, d0: seq<byte>, off: int, cols: seq<YCbCrColor>,
                 i: nat, o: nat, nextI: nat, nextO: nat)
    requires nextI == i + 2 && nextO == o + 4 && nextI <= |cols| && 0 <= off && off + nextO <= |d0|
    requires before == d0[..off] + Pack(cols[..i]) + d0[off + o..] && |Pack(cols[..i])| == o
    requires after == before[..off + o] + PackGroup(cols[i], cols[i + 1]) + before[off + o + 4..]
    ensures after == d0[..off] + Pack(cols[..nextI]) + d0[off + nextO..]
  {
    Packed.Splice(d0, off, Pack(cols[..i]), off + o, PackGroup(cols[i], cols[i + 1]));
    PackSnoc(cols, i);
  }

  /** Once every pair is packed, the buffer holds the packed row between the bytes before and after it. */
  lemma PackDone(buf: seq<byte>, d0: seq<byte>, off: int, cols: seq<YCbCrColor>, i: int, o: int)
    requires 0 <= off && i == |cols| && o == 2 * i && off + o <= |d0|
    requires buf == d0[..off] + Pack(cols[..i]) + d0[off + o..]
    ensures buf == d0[..off] + Pack(cols) + d0[off + 2 * |cols|..]
  {
    assert cols[..i] == cols;
  }

  /**
   * `SetRow(y, cols)`: slice Pix at the row start and pack the colours two
   * at a time, Cb and Cr of a pair OR-ed together.
   */
  method SetRow(img: YUYV, pix: array<byte>, y: int, cols: seq<YCbCrColor>)
    requires pix[..] == img.pix
    requires |cols| % 2 == 0 && img.RowWritable(y, |cols|)
    modifies pix
    ensures pix[..] == img.WithRow(y, cols).pix
  {
    var off := img.PixOffset(img.rect.min.x, y);
    PackInto(pix, off, cols);
  }

  lemma Unsplit<T>(s: seq<T>, a: int, b: int)
    requires 0 <= a <= b <= |s|
    ensures s[..a] + s[a..b] + s[b..] == s
  {
  }

  lemma Middle<T>(pre: seq<T>, mid: seq<T>, post: seq<T>)
    ensures (pre + mid + post)[|pre|..|pre| + |mid|] == mid
  {
  }

  /** Packing colours into a buffer and unpacking the same bytes gives the colours back, when each pair shares its chroma. */
  lemma UnpackSpliced(pix: seq<byte>, off: int, cols: seq<YCbCrColor>, g: nat)
    requires ChromaPaired(cols) && |cols| == 2 * g && 0 <= off && off + 4 * g <= |pix|
    ensures |Pack(cols)| == 4 * g
    ensures Unpack((pix[..off] + Pack(cols) + pix[off + 4 * g..])[off..off + 4 * g]) == cols
  {
    PackLength(cols, g);
    Middle(pix[..off], Pack(cols), pix[off + 4 * g..]);
    UnpackPack(cols);
  }

  /** Packing back the colours unpacked from a buffer leaves the buffer as it was. */
  lemma SplicedUnpack(pix: seq<byte>, off: int, g: nat)
    requires 0 <= off && off + 4 * g <= |pix|
    ensures |Unpack(pix[off..off + 4 * g])| == 2 * g
    ensures pix[..off] + Pack(Unpack(pix[off..off + 4 * g])) + pix[off + 4 * g..] == pix
  {
    var s := pix[off..off + 4 * g];
    UnpackLength(s, g);
    PackUnpack(s, g);
    Unsplit(pix, off, off + 4 * g);
  }

  /** The colours of a row that has just been set are the colours given, when each pair shares its chroma. */
  lemma SetRowThenRowColors(img: YUYV, y: int, cols: seq<YCbCrColor>)
    requires ChromaPaired(cols) && |cols| == 2 * img.RowGroups() && img.RowWritable(y, |cols|)
    ensures img.WithRow(y, cols).RowReadable(y)
    ensures img.WithRow(y, cols).RowColors(y) == cols
  {
    UnpackSpliced(img.pix, img.RowStart(y), cols, img.RowGroups());
  }

  /** Setting a row back to the colours read from it leaves the image as it was. */
  lemma RowColorsThenSetRow(img: YUYV, y: int)
    requires img.RowReadable(y)
    ensures img.RowWritable(y, |img.RowColors(y)|)
    ensures img.WithRow(y, img.RowColors(y)) == img
  {
    var s, g := img.RowStart(y), img.RowGroups();
    img.RowColorsUnpack(y, s, g);
    SplicedUnpack(img.pix, s, g);
    WithRowSame(img, y, s, g, Unpack(img.pix[s..s + 4 * g]));
  }

  /** Setting a row to colours that pack to the bytes already there leaves the image as it was. */
  lemma WithRowSame(img: YUYV, y: int, s: int, g: nat, cols: seq<YCbCrColor>)
    requires s == img.RowStart(y) && |cols| == 2 * g && img.RowWritable(y, |cols|)
    requires img.pix[..s] + Pack(cols) + img.pix[s + 4 * g..] == img.pix
    ensures img.WithRow(y, cols) == img
  {
  }

  /** Colour k = 2j of the g groups unpacked from `start` on: the first Y of group j, with its Cb and Cr. */
  lemma UnpackEven(pix: seq<byte>, start: int, g: nat, j: nat, k: int, i: int)
    requires 0 <= start && start + 4 * g <= |pix| && j < g && k == 2 * j && i == start + 4 * j
    ensures |Unpack(pix[start..start + 4 * g])| == 2 * g
    ensures Unpack(pix[start..start + 4 * g])[k] == YCbCrColor(pix[i], pix[i + 1], pix[i + 3])
  {
    UnpackAt(pix[start..start + 4 * g], g, j);
  }

  /** Colour k = 2j+1 of the g groups unpacked from `start` on: the second Y of group j, with its Cb and Cr. */
  lemma UnpackOdd(pix: seq<byte>, start: int, g: nat, j: nat, k: int, i: int)
    requires 0 <= start && start + 4 * g <= |pix| && j < g && k == 2 * j + 1 && i == start + 4 * j + 2
    ensures |Unpack(pix[start..start + 4 * g])| == 2 * g
    ensures Unpack(pix[start..start + 4 * g])[k] == YCbCrColor(pix[i], pix[i - 1], pix[i + 1])
  {
    UnpackAt(pix[start..start + 4 * g], g, j);
  }

  /** At an even x, At reads the pixel's own byte and the two chroma bytes after it. */
  lemma AtEven(img: YUYV, x: int, y: int, i: int)
    requires img.rect.Has(Point(x, y)) && x % 2 == 0 && i == img.PixOffset(x, y) && 0 <= i && i + 3 < |img.pix|
    ensures img.Readable(x, y) && img.At(x, y) == YCbCrColor(img.pix[i], img.pix[i + 1], img.pix[i + 3])
  {
  }

  /** At an odd x, At reads the pixel's own byte and the chroma bytes around it. */
  lemma AtOdd(img: YUYV, x: int, y: int, i: int)
    requires img.rect.Has(Point(x, y)) && x % 2 == 1 && i == img.PixOffset(x, y) && 1 <= i && i + 1 < |img.pix|
    ensures img.Readable(x, y) && img.At(x, y) == YCbCrColor(img.pix[i], img.pix[i - 1], img.pix[i + 1])
  {
  }

  /** At pixel k = 2j of a row whose Min.X is even, At reads the group that starts at the pixel. */
  lemma AtStartOfGroup(img: YUYV, y: int, j: nat, k: int, x: int)
    requires img.rect.min.x % 2 == 0 && img.RowReadable(y) && j < img.RowGroups()
    requires k == 2 * j && x == img.rect.min.x + k && img.rect.Has(Point(x, y))
    ensures var i := img.PixOffset(x, y);
      0 <= i && i + 3 < |img.pix| && img.Readable(x, y) &&
      img.At(x, y) == YCbCrColor(img.pix[i], img.pix[i + 1], img.pix[i + 3])
  {
    img.AlongRow(x, y, k);
    EvenPlus(img.rect.min.x, j, x);
    AtEven(img, x, y, img.PixOffset(x, y));
  }

  /** GetRow's colour k = 2j of a row is read from the group that starts at pixel k. */
  lemma RowAtStartOfGroup(img: YUYV, y: int, j: nat, k: int, x: int)
    requires img.RowReadable(y) && j < img.RowGroups() && k == 2 * j && x == img.rect.min.x + k
    ensures var i := img.PixOffset(x, y);
      0 <= i && i + 3 < |img.pix| && k < |img.RowColors(y)| &&
      img.RowColors(y)[k] == YCbCrColor(img.pix[i], img.pix[i + 1], img.pix[i + 3])
  {
    img.AlongRow(x, y, k);
    var s, g := img.RowStart(y), img.RowGroups();
    UnpackEven(img.pix, s, g, j, k, img.PixOffset(x, y));
    img.RowColorsUnpack(y, s, g);
  }

  /** At pixel k = 2j+1 of a row whose Min.X is even, At reads the group that ends at the pixel. */
  lemma AtEndOfGroup(img: YUYV, y: int, j: nat, k: int, x: int)
    requires img.rect.min.x % 2 == 0 && img.RowReadable(y) && j < img.RowGroups()
    requires k == 2 * j + 1 && x == img.rect.min.x + k && img.rect.Has(Point(x, y))
    ensures var i := img.PixOffset(x, y);
      1 <= i && i + 1 < |img.pix| && img.Readable(x, y) &&
      img.At(x, y) == YCbCrColor(img.pix[i], img.pix[i - 1], img.pix[i + 1])
  {
    img.AlongRow(x, y, k);
    OddPlus(img.rect.min.x, j, x);
    AtOdd(img, x, y, img.PixOffset(x, y));
  }

  /** GetRow's colour k = 2j+1 of a row is read from the group that ends at pixel k. */
  lemma RowAtEndOfGroup(img: YUYV, y: int, j: nat, k: int, x: int)
    requires img.RowReadable(y) && j < img.RowGroups() && k == 2 * j + 1 && x == img.rect.min.x + k
    ensures var i := img.PixOffset(x, y);
      1 <= i && i + 1 < |img.pix| && k < |img.RowColors(y)| &&
      img.RowColors(y)[k] == YCbCrColor(img.pix[i], img.pix[i - 1], img.pix[i + 1])
  {
    img.AlongRow(x, y, k);
    RowColorOdd(img, y, img.RowStart(y), img.RowGroups(), j, k, img.PixOffset(x, y));
  }

  /** Colour k = 2j+1 of row y is the second Y of the row's group j, with its Cb and Cr. */
  lemma RowColorOdd(img: YUYV, y: int, s: int, g: nat, j: nat, k: int, i: int)
    requires img.RowReadable(y) && s == img.RowStart(y) && g == img.RowGroups()
    requires j < g && k == 2 * j + 1 && i == s + 4 * j + 2
    ensures 1 <= i && i + 1 < |img.pix| && k < |img.RowColors(y)|
    ensures img.RowColors(y)[k] == YCbCrColor(img.pix[i], img.pix[i - 1], img.pix[i + 1])
  {
    UnpackOdd(img.pix, s, g, j, k, i);
    img.RowColorsUnpack(y, s, g);
  }

  /** At an even x of a row whose Min.X is even, At and GetRow read the same group. */
  lemma AgreeEven(img: YUYV, y: int, j: nat, k: int, x: int)
    requires img.rect.min.x % 2 == 0 && img.RowReadable(y) && j < img.RowGroups()
    requires k == 2 * j && x == img.rect.min.x + k && img.rect.Has(Point(x, y))
    ensures img.Readable(x, y) && k < |img.RowColors(y)| && img.RowColors(y)[k] == img.At(x, y)
  {
    AtStartOfGroup(img, y, j, k, x);
    RowAtStartOfGroup(img, y, j, k, x);
  }

  /** At an odd x of a row whose Min.X is even, At and GetRow read the same group. */
  lemma AgreeOdd(img: YUYV, y: int, j: nat, k: int, x: int)
    requires img.rect.min.x % 2 == 0 && img.RowReadable(y) && j < img.RowGroups()
    requires k == 2 * j + 1 && x == img.rect.min.x + k && img.rect.Has(Point(x, y))
    ensures img.Readable(x, y) && k < |img.RowColors(y)| && img.RowColors(y)[k] == img.At(x, y)
  {
    AtEndOfGroup(img, y, j, k, x);
    RowAtEndOfGroup(img, y, j, k, x);
  }

  lemma EvenPlus(a: int, j: int, x: int)
    requires a % 2 == 0 && x == a + 2 * j
    ensures x % 2 == 0
  {
  }

  lemma OddPlus(a: int, j: int, x: int)
    requires a % 2 == 0 && x == a + 2 * j + 1
    ensures x % 2 == 1
  {
  }

  /** Row y as GetRow gives it agrees with At, pixel by pixel, when Min.X is even (pairs start on even x). */
  lemma RowColorsAgreeWithAt(img: YUYV, y: int, k: int)
    requires img.rect.min.x % 2 == 0 && img.RowReadable(y)
    requires img.rect.min.y <= y < img.rect.max.y && 0 <= k < img.rect.Dx()
    ensures img.Readable(img.rect.min.x + k, y)
    ensures img.RowColors(y)[k] == img.At(img.rect.min.x + k, y)
  {
    var x, j: nat := img.rect.min.x + k, k / 2;
    GroupsBound(img.rect.Dx(), j);
    if k == 2 * j {
      AgreeEven(img, y, j, k, x);
    } else {
      AgreeOdd(img, y, j, k, x);
    }
  }

  // ------------------------------------------------------------ planar 4:2:2

  /** The image is as NewYUYV lays it out at the origin: stride 2·w, 2·w·h bytes, w·h even. */
  predicate WholeAtOrigin(img: YUYV)
  {
    img.rect.min == Point(0, 0) && img.rect.Canonical() &&
    img.stride == 2 * img.rect.Dx() && |img.pix| == 2 * (img.rect.Dx() * img.rect.Dy()) &&
    (img.rect.Dx() * img.rect.Dy()) % 2 == 0
  }

  /**
   * The planar image ToYCbCrMinZp builds: Y[t] is byte 2t, Cb[c] and Cr[c]
   * are bytes 4c+1 and 4c+3 for the pairs that lie within the w·h pixels,
   * and the rest of the chroma planes stay zero.
   */
  function PlanarOf(img: YUYV): (ycc: YCbCrImage)
    requires img.rect.min == Point(0, 0) && img.rect.Canonical()
    requires 2 * (img.rect.Dx() * img.rect.Dy()) <= |img.pix|
    ensures ycc.rect == img.rect && |ycc.y| == img.rect.Dx() * img.rect.Dy() && |ycc.cb| == |ycc.cr|
  {
    var base := NewYCbCr422(img.rect);
    var n := |base.y|;
    YCbCrImage(seq(n, t requires 0 <= t < n => img.pix[2 * t]),
               seq(|base.cb|, c requires 0 <= c < |base.cb| => if 2 * c + 1 < n then img.pix[4 * c + 1] else 0),
               seq(|base.cr|, c requires 0 <= c < |base.cr| => if 2 * c + 1 < n then img.pix[4 * c + 3] else 0),
               base.yStride, base.cStride, img.rect)
  }

  /** The chroma planes of a 4:2:2 image have room for a Cb and a Cr per pair of its pixels. */
  lemma ChromaRoom(r: Rectangle, half: nat)
    requires r.min == Point(0, 0) && r.Canonical() && r.Dx() * r.Dy() == 2 * half
    ensures half <= |NewYCbCr422(r).cb|
  {
    var w, h, cw := r.Dx(), r.Dy(), (r.Dx() + 1) / 2;
    Layout.MulMono(w, 2 * cw, h);
    assert 2 * cw * h == 2 * (cw * h);
  }

  /** The first j pairs of pixels packed from planes: Y[2c], Cb[c], Y[2c+1], Cr[c] for each pair c. */
  function Interleave(yv: seq<byte>, cb: seq<byte>, cr: seq<byte>, j: nat): (s: seq<byte>)
    requires 2 * j <= |yv| && j <= |cb| && j <= |cr|
    ensures |s| == 4 * j
  {
    if j == 0 then [] else Interleave(yv, cb, cr, j - 1) + [yv[2 * j - 2], cb[j - 1], yv[2 * j - 1], cr[j - 1]]
  }

  /** Group c of the interleaved bytes holds pair c of the planes. */
  lemma {:induction false} InterleaveAt(yv: seq<byte>, cb: seq<byte>, cr: seq<byte>, j: nat, c: nat)
    requires 2 * j <= |yv| && j <= |cb| && j <= |cr| && c < j
    ensures var s := Interleave(yv, cb, cr, j);
      s[4 * c] == yv[2 * c] && s[4 * c + 1] == cb[c] && s[4 * c + 2] == yv[2 * c + 1] && s[4 * c + 3] == cr[c]
  {
    if c < j - 1 {
      InterleaveAt(yv, cb, cr, j - 1, c);
    }
  }

  /** Bytes whose groups hold the planes' pairs are the planes interleaved. */
  lemma {:induction false} InterleaveOfPlanes(yv: seq<byte>, cb: seq<byte>, cr: seq<byte>, pix: seq<byte>, j: nat)
    requires 2 * j <= |yv| && j <= |cb| && j <= |cr| && 4 * j <= |pix|
    requires forall t :: 0 <= t < 2 * j ==> yv[t] == pix[2 * t]
    requires forall c :: 0 <= c < j ==> cb[c] == pix[4 * c + 1] && cr[c] == pix[4 * c + 3]
    ensures Interleave(yv, cb, cr, j) == pix[..4 * j]
  {
    if j > 0 {
      InterleaveOfPlanes(yv, cb, cr, pix, j - 1);
      LastGroup(pix, j);
    }
  }

  lemma LastGroup(pix: seq<byte>, j: nat)
    requires 0 < j && 4 * j <= |pix|
    ensures pix[..4 * j] == pix[..4 * j - 4] + [pix[4 * j - 4], pix[4 * j - 3], pix[4 * j - 2], pix[4 * j - 1]]
  {
  }

  /** A 4:2:2 image laid out as NewYCbCr makes it at the origin, with an even width. */
  predicate Planar422(ycc: YCbCrImage)
  {
    var w, h := ycc.rect.Dx(), ycc.rect.Dy();
    ycc.rect.min == Point(0, 0) && ycc.rect.Canonical() && w % 2 == 0 &&
    |ycc.y| == w * h && ycc.yStride == w && ycc.cStride == w / 2 &&
    |ycc.cb| == (w / 2) * h && |ycc.cr| == (w / 2) * h
  }

  /** The YUYV NewYUYVFromYCbCrMinZP builds: the pairs of Y interleaved with Cb and Cr, the rest of the buffer zero. */
  function PackedOf(ycc: YCbCrImage): (img: YUYV)
    requires PackFits(ycc)
    ensures img.rect == ycc.rect && img.stride == 2 * ycc.rect.Dx() && |img.pix| == 2 * (ycc.rect.Dx() * ycc.rect.Dy())
  {
    var n := 2 * (ycc.rect.Dx() * ycc.rect.Dy());
    YUYV(Interleave(ycc.y, ycc.cb, ycc.cr, |ycc.y| / 2) + Zeros(n - 2 * |ycc.y|), 2 * ycc.rect.Dx(), ycc.rect)
  }

  /** ToYCbCrMinZp's three planes after j pairs: Y[t] is byte 2t and Cb[c], Cr[c] bytes 4c+1, 4c+3 of the first j pairs, zeros after. */
  ghost predicate PlanesSoFar(pix: seq<byte>, j: nat, ys: seq<byte>, cbs: seq<byte>, crs: seq<byte>)
  {
    2 * j <= |ys| && j <= |cbs| && j <= |crs| && 4 * j <= |pix| &&
    (forall t :: 0 <= t < |ys| ==> ys[t] == if t < 2 * j then pix[2 * t] else 0) &&
    (forall c :: 0 <= c < |cbs| ==> cbs[c] == if c < j then pix[4 * c + 1] else 0) &&
    (forall c :: 0 <= c < |crs| ==> crs[c] == if c < j then pix[4 * c + 3] else 0)
  }

  /** One pair of pixels split into the planes extends them by pair j − 1 of the bytes. */
  lemma PlanesStep(pix: seq<byte>, prev: nat, j: nat, ys: seq<byte>, cbs: seq<byte>, crs: seq<byte>,
                   ys': seq<byte>, cbs': seq<byte>, crs': seq<byte>)
    requires j == prev + 1 && 2 * j <= |ys| && j <= |cbs| && j <= |crs| && 4 * j <= |pix|
    requires PlanesSoFar(pix, prev, ys, cbs, crs)
    requires ys' == ys[2 * prev := pix[4 * prev]][2 * prev + 1 := pix[4 * prev + 2]]
    requires cbs' == cbs[prev := pix[4 * prev + 1]] && crs' == crs[prev := pix[4 * prev + 3]]
    ensures PlanesSoFar(pix, j, ys', cbs', crs')
  {
  }

  /** Once every pair is split, the planes are PlanarOf's. */
  lemma PlanesDone(img: YUYV, half: nat, ys: seq<byte>, cbs: seq<byte>, crs: seq<byte>)
    requires img.rect.min == Point(0, 0) && img.rect.Canonical()
    requires 2 * (img.rect.Dx() * img.rect.Dy()) <= |img.pix| && img.rect.Dx() * img.rect.Dy() == 2 * half
    requires |ys| == |PlanarOf(img).y| && |cbs| == |PlanarOf(img).cb| && |crs| == |PlanarOf(img).cr|
    requires PlanesSoFar(img.pix, half, ys, cbs, crs)
    ensures ys == PlanarOf(img).y && cbs == PlanarOf(img).cb && crs == PlanarOf(img).cr
  {
  }

  /**
   * `ToYCbCrMinZp`: None where the source panics because Rect.Min is not
   * the origin; otherwise a new 4:2:2 image filled two pixels at a time.
   */
  method ToYCbCrMinZp(img: YUYV) returns (r: Option<YCbCrImage>)
    requires img.rect.Canonical()
    requires (img.rect.Dx() * img.rect.Dy()) % 2 == 0 && 2 * (img.rect.Dx() * img.rect.Dy()) <= |img.pix|
    ensures img.rect.min != Point(0, 0) ==> r == None
    ensures img.rect.min == Point(0, 0) ==> r == Some(PlanarOf(img))
  {
    if img.rect.min != Point(0, 0) {
      return None;
    }
    var base := NewYCbCr422(img.rect);
    ghost var half: nat := |base.y| / 2;
    ChromaRoom(img.rect, half);
    var ys, cbs, crs := SplitPlanes(img.pix, |base.y|, |base.cb|);
    PlanesDone(img, half, ys, cbs, crs);
    r := Some(YCbCrImage(ys, cbs, crs, base.yStride, base.cStride, img.rect));
  }

  /**
   * ToYCbCrMinZp's loop: zeroed planes of n luma and cn chroma bytes, filled
   * from the packed bytes one pair of pixels at a time until n luma bytes are set.
   */
  method SplitPlanes(pix: seq<byte>, n: nat, cn: nat) returns (ys: seq<byte>, cbs: seq<byte>, crs: seq<byte>)
    requires n % 2 == 0 && 2 * n <= |pix| && n / 2 <= cn
    ensures |ys| == n && |cbs| == cn && |crs| == cn && PlanesSoFar(pix, n / 2, ys, cbs, crs)
  {
    ghost var half: nat := n / 2;
    assert n == 2 * half;
    var yPlane := new byte[n](_ => 0);
    var cbPlane := new byte[cn](_ => 0);
    var crPlane := new byte[cn](_ => 0);
    var i, icbcr, iy := 0, 0, 0;
    ghost var j: nat := 0;
    while iy < n
      invariant j <= half && iy == 2 * j && icbcr == j && i == 4 * j
      invariant PlanesSoFar(pix, j, yPlane[..], cbPlane[..], crPlane[..])
      decreases half - j
    {
      i, icbcr, iy, j := SplitPair(pix, yPlane, cbPlane, crPlane, i, icbcr, iy, j);
    }
    ys, cbs, crs := yPlane[..], cbPlane[..], crPlane[..];
  }

  /** One turn of ToYCbCrMinZp's loop: the four bytes at i give Cb and Cr at icbcr and the two Y at iy and iy + 1. */
  method SplitPair(pix: seq<byte>, yPlane: array<byte>, cbPlane: array<byte>, crPlane: array<byte>,
                   i: nat, icbcr: nat, iy: nat, ghost j: nat)
    returns (nextI: nat, nextC: nat, nextY: nat, ghost nextJ: nat)
    requires yPlane != cbPlane && yPlane != crPlane && cbPlane != crPlane
    requires iy == 2 * j && icbcr == j && i == 4 * j
    requires iy + 2 <= yPlane.Length && icbcr < cbPlane.Length && icbcr < crPlane.Length && i + 4 <= |pix|
    requires PlanesSoFar(pix, j, yPlane[..], cbPlane[..], crPlane[..])
    modifies yPlane, cbPlane, crPlane
    ensures nextI == i + 4 && nextC == icbcr + 1 && nextY == iy + 2 && nextJ == j + 1
    ensures PlanesSoFar(pix, nextJ, yPlane[..], cbPlane[..], crPlane[..])
  {
    ghost var ys, cbs, crs := yPlane[..], cbPlane[..], crPlane[..];
    var y1, b, y2, r := pix[i], pix[i + 1], pix[i + 2], pix[i + 3];
    cbPlane[icbcr] := b;
    crPlane[icbcr] := r;
    yPlane[iy] := y1;
    yPlane[iy + 1] := y2;
    nextI, nextC, nextY, nextJ := i + 4, icbcr + 1, iy + 2, j + 1;
    PlanesStep(pix, j, nextJ, ys, cbs, crs, yPlane[..], cbPlane[..], crPlane[..]);
  }

  /**
   * The planes NewYUYVFromYCbCrMinZP can copy without a panic: a buffer size
   * make() accepts, an even number of Y bytes (the loop reads Y[i+1]) that
   * fit two to a pixel in the new buffer, and a Cb and a Cr for every pair.
   */
  predicate PackFits(ycc: YCbCrImage)
  {
    0 <= ycc.rect.Dx() * ycc.rect.Dy() && |ycc.y| % 2 == 0 && |ycc.y| <= ycc.rect.Dx() * ycc.rect.Dy() &&
    |ycc.y| / 2 <= |ycc.cb| && |ycc.y| / 2 <= |ycc.cr|
  }

  /**
   * `NewYUYVFromYCbCrMinZP`: None where the source panics, because Rect.Min
   * is not the origin or because the planes do not fit (PackFits); otherwise
   * a new YUYV filled two pixels at a time from Y, Cb and Cr.
   */
  method NewYUYVFromYCbCrMinZP(ycc: YCbCrImage) returns (r: Option<YUYV>)
    ensures ycc.rect.min != Point(0, 0) || !PackFits(ycc) ==> r == None
    ensures ycc.rect.min == Point(0, 0) && PackFits(ycc) ==> r == Some(PackedOf(ycc))
  {
    if ycc.rect.min != Point(0, 0) {
      return None;
    }
    var area := ycc.rect.Dx() * ycc.rect.Dy();
    if area < 0 || |ycc.y| % 2 != 0 || |ycc.y| > area || |ycc.y| / 2 > |ycc.cb| || |ycc.y| / 2 > |ycc.cr| {
      return None;
    }
    var blank := NewYUYV(ycc.rect);
    var pix := new byte[|blank.pix|](_ => 0);
    InterleaveInto(pix, ycc.y, ycc.cb, ycc.cr);
    assert pix[..] == PackedOf(ycc).pix;
    r := Some(YUYV(pix[..], blank.stride, blank.rect));
  }

  /** Pair prev of the planes, read at Y index i = 2·prev, written after the first prev pairs extends the interleaved bytes. */
  lemma InterleaveStep(before: seq<byte>, after: seq<byte>, d0: seq<byte>, yv: seq<byte>, cb: seq<byte>, cr: seq<byte>,
                       prev: nat, j: nat, i: nat, q: seq<byte>)
    requires j == prev + 1 && i == 2 * prev && 2 * j <= |yv| && j <= |cb| && j <= |cr| && 4 * j <= |d0|
    requires Packed.Written(before, d0, Interleave(yv, cb, cr, prev))
    requires q == [yv[i], cb[i / 2], yv[i + 1], cr[i / 2]]
    requires after == before[..4 * prev] + q + before[4 * prev + 4..]
    ensures Packed.Written(after, d0, Interleave(yv, cb, cr, j))
  {
    assert i / 2 == prev;
    Packed.ExtendPrefix(Interleave(yv, cb, cr, prev), d0, q, after);
  }

  /** NewYUYVFromYCbCrMinZP's loop: write Y pairs with their Cb and Cr four bytes at a time from the start of the buffer. */
  method InterleaveInto(pix: array<byte>, yv: seq<byte>, cb: seq<byte>, cr: seq<byte>)
    requires |yv| % 2 == 0 && 2 * |yv| <= pix.Length && |yv| / 2 <= |cb| && |yv| / 2 <= |cr|
    modifies pix
    ensures pix[..] == Interleave(yv, cb, cr, |yv| / 2) + old(pix[2 * |yv|..])
  {
    ghost var d0 := pix[..];
    ghost var half: nat := |yv| / 2;
    assert |yv| == 2 * half;
    var p := 0;
    var i := 0;
    ghost var j: nat := 0;
    while i < |yv|
      invariant j <= half && i == 2 * j && p == 4 * j
      invariant Packed.Written(pix[..], d0, Interleave(yv, cb, cr, j))
      decreases half - j
    {
      i, p, j := InterleavePairInto(pix, yv, cb, cr, i, p, j, d0);
    }
    InterleaveDone(pix[..], d0, yv, cb, cr, j);
  }

  /** With every pair written, the buffer is the interleaved planes followed by the bytes it had past them. */
  lemma InterleaveDone(buf: seq<byte>, d0: seq<byte>, yv: seq<byte>, cb: seq<byte>, cr: seq<byte>, j: nat)
    requires |yv| == 2 * j && j <= |cb| && j <= |cr|
    requires Packed.Written(buf, d0, Interleave(yv, cb, cr, j))
    ensures buf == Interleave(yv, cb, cr, |yv| / 2) + d0[2 * |yv|..]
  {
    assert |yv| / 2 == j;
  }

  /** One turn of NewYUYVFromYCbCrMinZP's loop: pair j of the planes goes to bytes p .. p + 3. */
  method InterleavePairInto(pix: array<byte>, yv: seq<byte>, cb: seq<byte>, cr: seq<byte>,
                            i: nat, p: nat, ghost j: nat, ghost d0: seq<byte>)
    returns (nextI: nat, nextP: nat, ghost nextJ: nat)
    requires i == 2 * j && p == 4 * j && i + 2 <= |yv| && j < |cb| && j < |cr| && p + 4 <= |d0|
    requires Packed.Written(pix[..], d0, Interleave(yv, cb, cr, j))
    modifies pix
    ensures nextI == i + 2 && nextP == p + 4 && nextJ == j + 1
    ensures Packed.Written(pix[..], d0, Interleave(yv, cb, cr, nextJ))
  {
    ghost var before := pix[..];
    var q := [yv[i], cb[i / 2], yv[i + 1], cr[i / 2]];
    Packed.WriteGroup(pix, p, q);
    nextI, nextP, nextJ := i + 2, p + 4, j + 1;
    InterleaveStep(before, pix[..], d0, yv, cb, cr, j, nextJ, i, q);
  }

  /** Converting a whole YUYV image to planar 4:2:2 and back gives the image again. */
  lemma PlanarRoundTrip(img: YUYV)
    requires WholeAtOrigin(img)
    ensures |PlanarOf(img).y| / 2 <= |PlanarOf(img).cb|
    ensures PackedOf(PlanarOf(img)) == img
  {
    var n := img.rect.Dx() * img.rect.Dy();
    var half: nat := n / 2;
    ChromaRoom(img.rect, half);
    var ycc := PlanarOf(img);
    InterleaveOfPlanes(ycc.y, ycc.cb, ycc.cr, img.pix, half);
    assert img.pix[..4 * half] == img.pix;
  }

  /** The planes read back from interleaved bytes: Y[t] at byte 2t, Cb[c] and Cr[c] at bytes 4c+1 and 4c+3. */
  lemma PlanesOfInterleave(yv: seq<byte>, cb: seq<byte>, cr: seq<byte>, j: nat)
    requires |yv| == 2 * j && j <= |cb| && j <= |cr|
    ensures var s := Interleave(yv, cb, cr, j);
      (forall t :: 0 <= t < 2 * j ==> s[2 * t] == yv[t]) &&
      (forall c :: 0 <= c < j ==> s[4 * c + 1] == cb[c] && s[4 * c + 3] == cr[c])
  {
    var s := Interleave(yv, cb, cr, j);
    forall t | 0 <= t < 2 * j
      ensures s[2 * t] == yv[t]
    {
      var c := t / 2;
      InterleaveAt(yv, cb, cr, j, c);
      if t == 2 * c + 1 {
        assert 2 * t == 4 * c + 2;
      }
    }
    forall c | 0 <= c < j
      ensures s[4 * c + 1] == cb[c] && s[4 * c + 3] == cr[c]
    {
      InterleaveAt(yv, cb, cr, j, c);
    }
  }

  /** An even-width 4:2:2 image has an even number of pixels, and a Cb and a Cr per pair of them. */
  lemma Planar422Pairs(ycc: YCbCrImage)
    requires Planar422(ycc)
    ensures 0 <= ycc.rect.Dx() * ycc.rect.Dy() && |ycc.y| == 2 * |ycc.cb| && |ycc.cb| == |ycc.cr|
  {
    var w, h := ycc.rect.Dx(), ycc.rect.Dy();
    assert w == 2 * (w / 2);
    assert w * h == 2 * ((w / 2) * h);
  }

  /** Converting an even-width planar 4:2:2 image to YUYV and back gives the image again. */
  lemma PackedRoundTrip(ycc: YCbCrImage)
    requires Planar422(ycc)
    ensures 0 <= ycc.rect.Dx() * ycc.rect.Dy() && |ycc.y| % 2 == 0 && |ycc.y| / 2 <= |ycc.cb|
    ensures PlanarOf(PackedOf(ycc)) == ycc
  {
    Planar422Pairs(ycc);
    var half := |ycc.cb|;
    var img := PackedOf(ycc);
    PrefixOfConcat(Interleave(ycc.y, ycc.cb, ycc.cr, half), Zeros(|img.pix| - 4 * half));
    PlanesBack(img, ycc.y, ycc.cb, ycc.cr, half);
  }

  /** The planes read back from bytes that begin with the interleaved planes are the planes. */
  lemma PlanesBack(img: YUYV, yv: seq<byte>, cb: seq<byte>, cr: seq<byte>, half: nat)
    requires img.rect.min == Point(0, 0) && img.rect.Canonical() && 2 * (img.rect.Dx() * img.rect.Dy()) <= |img.pix|
    requires |yv| == 2 * half && |cb| == half && |cr| == half && img.rect.Dx() * img.rect.Dy() == 2 * half
    requires |PlanarOf(img).cb| == half
    requires img.pix[..4 * half] == Interleave(yv, cb, cr, half)
    ensures PlanarOf(img).y == yv && PlanarOf(img).cb == cb && PlanarOf(img).cr == cr
  {
    PlanesOfInterleave(yv, cb, cr, half);
    LumaBack(img, yv, Interleave(yv, cb, cr, half), half);
    ChromaBack(img, cb, cr, Interleave(yv, cb, cr, half), half);
  }

  /** Y[t] read back from byte 2t of the interleaved planes. */
  lemma LumaBack(img: YUYV, yv: seq<byte>, s: seq<byte>, half: nat)
    requires img.rect.min == Point(0, 0) && img.rect.Canonical() && 2 * (img.rect.Dx() * img.rect.Dy()) <= |img.pix|
    requires |yv| == 2 * half && img.rect.Dx() * img.rect.Dy() == 2 * half
    requires img.pix[..4 * half] == s && forall t :: 0 <= t < 2 * half ==> s[2 * t] == yv[t]
    ensures PlanarOf(img).y == yv
  {
    var back := PlanarOf(img).y;
    forall t | 0 <= t < 2 * half
      ensures back[t] == yv[t]
    {
      assert img.pix[2 * t] == s[2 * t];
    }
  }

  /** Cb[c] and Cr[c] read back from bytes 4c+1 and 4c+3 of the interleaved planes. */
  lemma ChromaBack(img: YUYV, cb: seq<byte>, cr: seq<byte>, s: seq<byte>, half: nat)
    requires img.rect.min == Point(0, 0) && img.rect.Canonical() && 2 * (img.rect.Dx() * img.rect.Dy()) <= |img.pix|
    requires |cb| == half && |cr| == half && img.rect.Dx() * img.rect.Dy() == 2 * half && |PlanarOf(img).cb| == half
    requires img.pix[..4 * half] == s && forall c :: 0 <= c < half ==> s[4 * c + 1] == cb[c] && s[4 * c + 3] == cr[c]
    ensures PlanarOf(img).cb == cb && PlanarOf(img).cr == cr
  {
    var back := PlanarOf(img);
    forall c | 0 <= c < half
      ensures back.cb[c] == cb[c] && back.cr[c] == cr[c]
    {
      assert img.pix[4 * c + 1] == s[4 * c + 1] && img.pix[4 * c + 3] == s[4 * c + 3];
    }
  }

  lemma PrefixOfConcat<T>(a: seq<T>, b: seq<T>)
    ensures (a + b)[..|a|] == a
  {
  }

  // ------------------------------------------------------------ sub-images

  /**
   * `SubImage(r)`: the part of the image inside r, sharing its buffer from
   * the offset of the new Min on; an empty intersection gives the zero YUYV.
   */
  function SubImage(img: YUYV, r: Rectangle): (sub: YUYV)
    requires var c := r.Intersect(img.rect); c.Empty() || 0 <= img.PixOffset(c.min.x, c.min.y) <= |img.pix|
  {
    var c := r.Intersect(img.rect);
    if c.Empty() then YUYV([], 0, ZR)
    else YUYV(img.pix[img.PixOffset(c.min.x, c.min.y)..], img.stride, c)
  }

  /** A sub-image sees the parent's colour at every point of the intersection and black elsewhere. */
  lemma SubImageAt(img: YUYV, r: Rectangle, x: int, y: int)
    requires var c := r.Intersect(img.rect); c.Empty() || 0 <= img.PixOffset(c.min.x, c.min.y) <= |img.pix|
    requires SubImage(img, r).Readable(x, y)
    ensures r.Intersect(img.rect).Has(Point(x, y)) ==> img.Readable(x, y) && SubImage(img, r).At(x, y) == img.At(x, y)
    ensures !r.Intersect(img.rect).Has(Point(x, y)) ==> SubImage(img, r).At(x, y) == Black
  {
    var c := r.Intersect(img.rect);
    if !c.Empty() && c.Has(Point(x, y)) {
      Layout.SubOffset(img.rect, c, img.stride, BytesPerPixel, x, y);
    }
  }

  /**
   * `StrictSubImage(r)` as written: the buffer is cut at PixOffset(Max.X,
   * Max.Y), one whole row past the rectangle's last row; None where that
   * slice is out of range and the source panics.
   */
  function StrictSubImageAsWritten(img: YUYV, r: Rectangle): Option<YUYV>
  {
    var c := r.Intersect(img.rect);
    if c.Empty() then Some(YUYV([], 0, ZR))
    else
      var i, endi := img.PixOffset(c.min.x, c.min.y), img.PixOffset(c.max.x, c.max.y);
      if 0 <= i <= endi <= |img.pix| then Some(YUYV(img.pix[i..endi], img.stride, c)) else None
  }

  /** As written, the strict sub-image of a NewYUYV image's own bounds panics, whatever the (non-empty) bounds. */
  lemma StrictSubImageAsWrittenPanics(r: Rectangle)
    requires r.Canonical() && !r.Empty()
    ensures 0 <= r.Dx() * r.Dy()
    ensures StrictSubImageAsWritten(NewYUYV(r), r) == None
  {
    NewYUYVHolds(r);
    var img := NewYUYV(r);
    assert r.Intersect(r) == r;
    assert img.PixOffset(r.max.x, r.max.y) == r.Dy() * (2 * r.Dx()) + 2 * r.Dx();
    assert r.Dy() * (2 * r.Dx()) == 2 * r.Dx() * r.Dy();
  }

  /** The concrete case: the 2×1 image's strict sub-image of its own bounds would slice Pix[0:8] of 4 bytes. */
  lemma StrictSubImageAsWrittenExample()
    ensures StrictSubImageAsWritten(NewYUYV(Rect(0, 0, 2, 1)), Rect(0, 0, 2, 1)) == None
  {
    StrictSubImageAsWrittenPanics(Rect(0, 0, 2, 1));
  }

  /**
   * `StrictSubImage(r)` as intended: the buffer runs from the offset of Min
   * to the end of the rectangle's last row, PixOffset(Max.X, Max.Y − 1).
   */
  function StrictSubImage(img: YUYV, r: Rectangle): Option<YUYV>
  {
    var c := r.Intersect(img.rect);
    if c.Empty() then Some(YUYV([], 0, ZR))
    else
      var i, endi := img.PixOffset(c.min.x, c.min.y), img.PixOffset(c.max.x, c.max.y - 1);
      if 0 <= i <= endi <= |img.pix| then Some(YUYV(img.pix[i..endi], img.stride, c)) else None
  }

  /**
   * For an image whose buffer holds its rectangle, the intended strict
   * sub-image always exists, holds exactly the bytes of its own rows, holds
   * its rectangle itself, and addresses every byte as the parent does.
   */
  lemma StrictSubImageExact(img: YUYV, r: Rectangle)
    requires Layout.Holds(|img.pix|, img.rect, img.stride, BytesPerPixel)
    requires !r.Intersect(img.rect).Empty()
    ensures var c := r.Intersect(img.rect);
      && StrictSubImage(img, r).Some?
      && var sub := StrictSubImage(img, r).value;
      && sub.rect == c && sub.stride == img.stride
      && |sub.pix| == (c.Dy() - 1) * img.stride + 2 * c.Dx()
      && Layout.Holds(|sub.pix|, c, sub.stride, BytesPerPixel)
      && forall x, y :: c.Has(Point(x, y)) ==>
        sub.PixOffset(x, y) + img.PixOffset(c.min.x, c.min.y) == img.PixOffset(x, y)
  {
    var c := r.Intersect(img.rect);
    assert img.rect.Encloses(c) by {
      assert c.Has(c.min) && c.Has(Point(c.max.x - 1, c.max.y - 1));
    }
    Layout.SubSpan(|img.pix|, img.rect, img.stride, BytesPerPixel, c);
    forall x, y | c.Has(Point(x, y))
      ensures YUYV([], img.stride, c).PixOffset(x, y) + img.PixOffset(c.min.x, c.min.y) == img.PixOffset(x, y)
    {
      Layout.SubOffset(img.rect, c, img.stride, BytesPerPixel, x, y);
    }
  }
}
