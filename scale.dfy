/**
 * imglib/util.go: 2× nearest-neighbour upscaling of packed images whose
 * pixels are groups of k bytes (k = 3 for RGB or BGR, k = 4 for RGBA). Each
 * source row of `stride` bytes becomes two identical destination rows of
 * 2·stride bytes, and in each of them every whole pixel appears twice in a
 * row. The result is a fresh buffer four times the size of the source.
 */
module Scale {
  import opened Ints
  import opened Wrappers
  import Layout
  import Packed

  /** One pixel written twice: the per-group step of scaleUpRowTriple and scaleUpRowQuad. */
  function Twice(p: seq<byte>): (q: seq<byte>)
    ensures |q| == 2 * |p|
  {
    p + p
  }

  /** What the scaleUpRow* loop writes for a row: each whole k-byte pixel twice, from the front; a trailing part of a pixel is skipped. */
  function Doubled(k: nat, row: seq<byte>): (d: seq<byte>)
    requires k > 0
    ensures |d| <= 2 * |row|
    decreases |row|
  {
    if |row| < k then [] else Twice(row[..k]) + Doubled(k, row[k..])
  }

  /** A destination row as the scaler leaves it: each whole pixel twice; where no whole pixel is left, the zeros make() gave. */
  function Line(k: nat, row: seq<byte>): (l: seq<byte>)
    requires k > 0
    ensures |l| == 2 * |row|
    decreases |row|
  {
    if |row| < k then Zeros(2 * |row|) else Twice(row[..k]) + Line(k, row[k..])
  }

  /** A line is what the row loop writes, then the untouched zero padding. */
  lemma {:induction false} LinePadded(k: nat, row: seq<byte>)
    requires k > 0
    ensures Line(k, row) == Doubled(k, row) + Zeros(2 * |row| - |Doubled(k, row)|)
    decreases |row|
  {
    if |row| >= k {
      LinePadded(k, row[k..]);
    }
  }

  /**
   * The result of ScaleUpPacked* from source offset `from` on: each whole
   * row of `stride` bytes gives its Line twice (4·stride bytes); the bytes
   * of a trailing partial row stay zero.
   */
  function Rows(k: nat, pix: seq<byte>, from: int, stride: int): (r: seq<byte>)
    requires k > 0 && stride > 0 && 0 <= from <= |pix|
    ensures |r| == 4 * (|pix| - from)
    decreases |pix| - from
  {
    if from + stride > |pix| then Zeros(4 * (|pix| - from))
    else
      var line := Line(k, pix[from..from + stride]);
      line + line + Rows(k, pix, from + stride, stride)
  }

  // ------------------------------------------------------------ the row loop

  /** buf is d0 with the |out| bytes at base replaced by out. */
  ghost predicate WrittenAt(buf: seq<byte>, d0: seq<byte>, base: int, out: seq<byte>)
  {
    0 <= base && base + |out| <= |d0| && buf == d0[..base] + out + d0[base + |out|..]
  }

  /** The row from j on, still to be doubled, completes out to the whole doubled row. */
  ghost predicate RowPending(k: nat, row: seq<byte>, j: int, out: seq<byte>)
  {
    k > 0 && 0 <= j <= |row| && |out| == 2 * j && out + Doubled(k, row[j..]) == Doubled(k, row)
  }

  /** One pass of the scaleUpRow* loop: the pixel at j written twice at base + 2·j. */
  method DoublePixel(k: nat, row: seq<byte>, j: int, r: array<byte>, base: int, ghost d0: seq<byte>, ghost out: seq<byte>)
    returns (nextJ: int, ghost nextOut: seq<byte>)
    requires j + k <= |row| && base + 2 * |row| <= r.Length == |d0|
    requires WrittenAt(r[..], d0, base, out) && RowPending(k, row, j, out)
    modifies r
    ensures nextJ == j + k && WrittenAt(r[..], d0, base, nextOut) && RowPending(k, row, nextJ, nextOut)
  {
    var q := Twice(row[j..j + k]);
    ghost var before := r[..];
    Packed.WriteGroup(r, base + 2 * j, q);
    nextJ, nextOut := j + k, out + q;
    DoubleStep(k, row, j, d0, base, out, before, r[..]);
  }

  lemma DoubleStep(k: nat, row: seq<byte>, j: int, d0: seq<byte>, base: int, out: seq<byte>, before: seq<byte>, after: seq<byte>)
    requires j + k <= |row| && base + 2 * |row| <= |d0|
    requires WrittenAt(before, d0, base, out) && RowPending(k, row, j, out)
    requires var q := Twice(row[j..j + k]); after == before[..base + 2 * j] + q + before[base + 2 * j + |q|..]
    ensures var q := Twice(row[j..j + k]); WrittenAt(after, d0, base, out + q) && RowPending(k, row, j + k, out + q)
  {
    var q := Twice(row[j..j + k]);
    PendingPixel(k, row, j, out, q);
    WrittenNext(before, d0, base, out, q, after);
  }

  /** Doubling the pixel at j moves the pending row one pixel on. */
  lemma PendingPixel(k: nat, row: seq<byte>, j: int, out: seq<byte>, q: seq<byte>)
    requires j + k <= |row| && RowPending(k, row, j, out) && q == Twice(row[j..j + k])
    ensures RowPending(k, row, j + k, out + q)
  {
    assert row[j..][..k] == row[j..j + k] && row[j..][k..] == row[j + k..];
    assert out + q + Doubled(k, row[j + k..]) == out + (q + Doubled(k, row[j + k..]));
  }

  /** Writing q right after out extends what is written at base by q. */
  lemma WrittenNext(before: seq<byte>, d0: seq<byte>, base: int, out: seq<byte>, q: seq<byte>, after: seq<byte>)
    requires WrittenAt(before, d0, base, out) && base + |out| + |q| <= |d0|
    requires after == before[..base + |out|] + q + before[base + |out| + |q|..]
    ensures WrittenAt(after, d0, base, out + q)
  {
    assert before[..base + |out|] == d0[..base] + out;
    assert before[base + |out| + |q|..] == d0[base + |out + q|..];
  }

  /**
   * `scaleUpRowTriple` / `scaleUpRowQuad` (the latter with its guard as
   * evidently intended): row is the source row, dest the 2·len(row) bytes of
   * r at base; for each whole pixel at i, the pixel goes to dest[2i..2i+k)
   * and again to dest[2i+k..2i+2k).
   */
  method ScaleUpRow(k: nat, row: seq<byte>, r: array<byte>, base: int)
    requires k > 0 && 0 <= base && base + 2 * |row| <= r.Length
    modifies r
    ensures r[..] == old(r[..base]) + Doubled(k, row) + old(r[base + |Doubled(k, row)|..])
  {
    ghost var d0 := r[..];
    ghost var out: seq<byte> := [];
    var j := 0;
    assert row[0..] == row;
    while j + k <= |row|
      invariant WrittenAt(r[..], d0, base, out) && RowPending(k, row, j, out)
      decreases |row| - j
    {
      j, out := DoublePixel(k, row, j, r, base, d0, out);
    }
    RowDone(k, row, j, out);
  }

  lemma RowDone(k: nat, row: seq<byte>, j: int, out: seq<byte>)
    requires RowPending(k, row, j, out) && j + k > |row|
    ensures out == Doubled(k, row)
  {
  }

  // ------------------------------------------------------------ the image loop

  /** buf is d0 with its first |out| bytes replaced by out. */
  ghost predicate Written(buf: seq<byte>, d0: seq<byte>, out: seq<byte>)
  {
    |out| <= |d0| && buf == out + d0[|out|..]
  }

  /** The rows from source offset i on still to be scaled complete out to whole. */
  ghost predicate Pending(k: nat, pix: seq<byte>, i: int, stride: int, out: seq<byte>, whole: seq<byte>)
  {
    k > 0 && stride > 0 && 0 <= i <= |pix| && |out| == 4 * i && out + Rows(k, pix, i, stride) == whole
  }

  /** Every byte of d0 is zero. */
  ghost predicate Blank(d0: seq<byte>)
  {
    forall t :: 0 <= t < |d0| ==> d0[t] == 0
  }

  /**
   * `copy(destrow2, destrow1)` for the two halves of one scaled row: the n
   * bytes at `from` copied to `to`.
   */
  method CopyWithin(r: array<byte>, from: int, to: int, n: int)
    requires 0 <= from && 0 <= n && from + n <= to && to + n <= r.Length
    modifies r
    ensures r[..] == old(r[..to]) + old(r[from..from + n]) + old(r[to + n..])
  {
    Packed.WriteGroup(r, to, r[from..from + n]);
  }

  /** buf is d0 with out, then line, written over its front. */
  ghost predicate HalfWritten(buf: seq<byte>, d0: seq<byte>, out: seq<byte>, line: seq<byte>)
  {
    |out| + |line| <= |d0| && buf == out + line + d0[|out| + |line|..]
  }

  /**
   * One pass of ScaleUpPacked*'s loop: scale the source row at i into the
   * first half of its destination row, then copy that half into the second.
   */
  method ScaleRowStep(k: nat, pix: seq<byte>, stride: int, r: array<byte>, i: int,
                      ghost d0: seq<byte>, ghost out: seq<byte>, ghost whole: seq<byte>)
    returns (nextI: int, ghost nextOut: seq<byte>)
    requires i + stride <= |pix| && r.Length == |d0| == 4 * |pix| && Blank(d0)
    requires Written(r[..], d0, out) && Pending(k, pix, i, stride, out, whole)
    modifies r
    ensures nextI == i + stride
    ensures Written(r[..], d0, nextOut) && Pending(k, pix, nextI, stride, nextOut, whole)
  {
    var row := pix[i..i + stride];
    ghost var line := Line(k, row);
    ScaleFirstHalf(k, row, r, 4 * i, d0, out, line);
    CopySecondHalf(r, 4 * i, 2 * stride, d0, out, line);
    nextI, nextOut := i + stride, out + line + line;
    assert row == pix[i..nextI];
    PendingStep(k, pix, stride, i, nextI, out, line, whole);
  }

  /** The first half of the destination row: the row's doubled pixels, then the zero padding left as it was. */
  method ScaleFirstHalf(k: nat, row: seq<byte>, r: array<byte>, base: int,
                        ghost d0: seq<byte>, ghost out: seq<byte>, ghost line: seq<byte>)
    requires k > 0 && base == |out| && base + 4 * |row| <= r.Length == |d0| && Blank(d0)
    requires Written(r[..], d0, out) && line == Line(k, row)
    modifies r
    ensures HalfWritten(r[..], d0, out, line)
  {
    ghost var before := r[..];
    ScaleUpRow(k, row, r, base);
    LinePadded(k, row);
    FirstHalf(d0, out, before, r[..], Doubled(k, row), 2 * |row|, line);
  }

  /** `copy(destrow2, destrow1)`: the line written at base copied right after it. */
  method CopySecondHalf(r: array<byte>, base: int, n: int, ghost d0: seq<byte>, ghost out: seq<byte>, ghost line: seq<byte>)
    requires base == |out| && n == |line| && base + n + n <= r.Length == |d0|
    requires HalfWritten(r[..], d0, out, line)
    modifies r
    ensures Written(r[..], d0, out + line + line)
  {
    ghost var mid := r[..];
    CopyWithin(r, base, base + n, n);
    CopyDone(d0, out, line, mid, r[..], base, n);
  }

  lemma CopyDone(d0: seq<byte>, out: seq<byte>, line: seq<byte>, mid: seq<byte>, after: seq<byte>, base: int, n: int)
    requires base == |out| && n == |line| && base + n + n <= |d0|
    requires HalfWritten(mid, d0, out, line)
    requires after == mid[..base + n] + mid[base..base + n] + mid[base + n + n..]
    ensures Written(after, d0, out + line + line)
  {
    assert mid[..base + n] == out + line;
    assert mid[base..base + n] == line;
    assert mid[base + n + n..] == d0[base + n + n..];
  }

  /** After one pass, what is left to write is the output of the rows after it. */
  lemma PendingStep(k: nat, pix: seq<byte>, stride: int, i: int, nextI: int, out: seq<byte>, line: seq<byte>, whole: seq<byte>)
    requires i + stride <= |pix| && nextI == i + stride && Pending(k, pix, i, stride, out, whole)
    requires line == Line(k, pix[i..nextI])
    ensures Pending(k, pix, nextI, stride, out + line + line, whole)
  {
    RowsUnfold(k, pix, i, stride, nextI);
    assert out + line + line + Rows(k, pix, nextI, stride) == out + (line + line + Rows(k, pix, nextI, stride));
  }

  /** The first half of the destination row is the row's line: the doubled pixels, then the still-zero padding. */
  lemma FirstHalf(d0: seq<byte>, out: seq<byte>, before: seq<byte>, mid: seq<byte>, m: seq<byte>, n: int, line: seq<byte>)
    requires Blank(d0) && Written(before, d0, out) && |out| + n <= |d0| && |m| <= n
    requires mid == before[..|out|] + m + before[|out| + |m|..]
    requires line == m + Zeros(n - |m|)
    ensures HalfWritten(mid, d0, out, line)
  {
    assert before[..|out|] == out;
    forall t | |out| + |m| <= t < |out| + n
      ensures mid[t] == line[t - |out|]
    {
      assert mid[t] == d0[t];
    }
    assert mid[|out|..|out| + n] == line;
    assert mid[|out| + n..] == d0[|out| + n..];
    assert mid == mid[..|out|] + mid[|out|..|out| + n] + mid[|out| + n..];
  }

  /** When no whole row is left, the rest of the buffer is the zeros make() gave it. */
  lemma ScaleDone(k: nat, pix: seq<byte>, stride: int, i: int, d0: seq<byte>, out: seq<byte>, whole: seq<byte>, buf: seq<byte>)
    requires i + stride > |pix| && |d0| == 4 * |pix| && Blank(d0)
    requires Written(buf, d0, out) && Pending(k, pix, i, stride, out, whole)
    ensures buf == whole
  {
    assert d0[|out|..] == Zeros(4 * (|pix| - i));
  }

  /**
   * ScaleUpPackedTriple and ScaleUpPackedQuad: a zeroed buffer of 4·len(pix)
   * bytes; for every whole source row at i, its pixels doubled into the
   * destination row at 4·i and that row copied to 4·i + 2·stride. A negative
   * stride makes the first slice `pix[0:stride]` panic (None). A stride of 0
   * never leaves the loop as written (RowTurnsAsWritten); here it gives the
   * zeroed buffer, since each of those turns copies no bytes.
   */
  method ScaleUpPacked(k: nat, pix: seq<byte>, stride: int) returns (scaled: Option<seq<byte>>)
    requires k > 0
    ensures stride < 0 ==> scaled == None
    ensures stride == 0 ==> scaled == Some(Zeros(4 * |pix|))
    ensures stride > 0 ==> scaled == Some(Rows(k, pix, 0, stride))
  {
    if stride < 0 {
      return None;
    }
    var r := new byte[4 * |pix|](_ => 0);
    if stride == 0 {
      assert r[..] == Zeros(4 * |pix|);
      return Some(r[..]);
    }
    ghost var d0 := r[..];
    ghost var whole := Rows(k, pix, 0, stride);
    ghost var out: seq<byte> := [];
    var i := 0;
    while i + stride <= |pix|
      invariant r.Length == |d0| == 4 * |pix| && Blank(d0)
      invariant Written(r[..], d0, out) && Pending(k, pix, i, stride, out, whole)
      decreases |pix| - i
    {
      i, out := ScaleRowStep(k, pix, stride, r, i, d0, out, whole);
    }
    ScaleDone(k, pix, stride, i, d0, out, whole, r[..]);
    scaled := Some(r[..]);
  }

  /** `ScaleUpPackedTriple(pix, stride)`: upscaling for 3-byte pixels. */
  method ScaleUpPackedTriple(pix: seq<byte>, stride: int) returns (scaled: Option<seq<byte>>)
    ensures stride < 0 ==> scaled == None
    ensures stride == 0 ==> scaled == Some(Zeros(4 * |pix|))
    ensures stride > 0 ==> scaled == Some(Rows(3, pix, 0, stride))
  {
    scaled := ScaleUpPacked(3, pix, stride);
  }

  /** `ScaleUpPackedQuad(pix, stride)` as evidently intended: upscaling for 4-byte pixels, whole pixels only. */
  method ScaleUpPackedQuad(pix: seq<byte>, stride: int) returns (scaled: Option<seq<byte>>)
    ensures stride < 0 ==> scaled == None
    ensures stride == 0 ==> scaled == Some(Zeros(4 * |pix|))
    ensures stride > 0 ==> scaled == Some(Rows(4, pix, 0, stride))
  {
    scaled := ScaleUpPacked(4, pix, stride);
  }

  /**
   * The row loop of ScaleUpPacked* as written, `for i := 0; i+stride <=
   * len(pix); i += stride`, run for at most `fuel` more turns from i: the
   * number of turns once the condition fails, None while it still holds.
   */
  function RowTurnsAsWritten(n: nat, i: int, stride: int, fuel: nat): (t: Option<nat>)
    ensures t.Some? && t.value == 0 <==> i + stride > n
    decreases fuel
  {
    if i + stride > n then Some(0)
    else if fuel == 0 then None
    else
      match RowTurnsAsWritten(n, i + stride, stride, fuel - 1)
      case None => None
      case Some(t) => Some(t + 1)
  }

  /** With a stride of 0 the as-written loop never ends: however many turns it is given, the condition still holds. */
  lemma {:induction false} RowTurnsAsWrittenHangs(n: nat, i: int, fuel: nat)
    requires 0 <= i <= n
    ensures RowTurnsAsWritten(n, i, 0, fuel) == None
    decreases fuel
  {
    if fuel > 0 {
      RowTurnsAsWrittenHangs(n, i, fuel - 1);
    }
  }

  /** With a positive stride the loop ends, after one turn per whole row of `stride` bytes from i on. */
  lemma {:induction false} RowTurnsEnd(n: nat, i: int, stride: int, fuel: nat)
    requires stride > 0 && 0 <= i <= n && fuel >= n - i
    ensures var t := RowTurnsAsWritten(n, i, stride, fuel);
      t.Some? && i + t.value * stride <= n < i + (t.value + 1) * stride
    decreases n - i
  {
    if i + stride <= n {
      RowTurnsEnd(n, i + stride, stride, fuel - 1);
      var t := RowTurnsAsWritten(n, i + stride, stride, fuel - 1).value;
      assert (t + 1) * stride == t * stride + stride;
      assert (t + 2) * stride == (t + 1) * stride + stride;
    }
  }

  // ------------------------------------------------------------ properties

  /** at is a whole number of k-byte steps from 0. */
  ghost predicate Aligned(k: nat, at: int)
    decreases at
  {
    at == 0 || (k > 0 && at >= k && Aligned(k, at - k))
  }

  /** t whole steps of k bytes end aligned. */
  lemma {:induction false} AlignedMul(k: nat, t: nat)
    requires k > 0
    ensures Aligned(k, t * k)
  {
    if t > 0 {
      assert t * k - k == (t - 1) * k;
      AlignedMul(k, t - 1);
    }
  }

  /** A slice of rest inside a + rest, shifted by |a|. */
  lemma ShiftBy(a: seq<byte>, rest: seq<byte>, at: int, n: int, lo: int, hi: int)
    requires 0 <= at && 0 <= n && at + n <= |rest| && lo == |a| + at && hi == lo + n
    ensures (a + rest)[lo..hi] == rest[at..at + n]
  {
  }

  /** In a line, the whole pixel at an aligned offset appears twice, side by side, at twice that offset. */
  lemma {:induction false} LineAt(k: nat, row: seq<byte>, at: int)
    requires k > 0 && Aligned(k, at) && at + k <= |row|
    ensures Line(k, row)[2 * at..2 * at + 2 * k] == Twice(row[at..at + k])
    decreases at
  {
    if at > 0 {
      var rest := row[k..];
      assert Line(k, row) == Twice(row[..k]) + Line(k, rest);
      LineAt(k, rest, at - k);
      assert rest[at - k..at - k + k] == row[at..at + k];
      ShiftBy(Twice(row[..k]), Line(k, rest), 2 * (at - k), 2 * k, 2 * at, 2 * at + 2 * k);
    } else {
      assert Line(k, row) == Twice(row[..k]) + Line(k, row[k..]);
      assert row[at..at + k] == row[..k];
      HeadOf(Twice(row[..k]), Line(k, row[k..]), 2 * at, 2 * at + 2 * k);
    }
  }

  /** The head of a + b is a. */
  lemma HeadOf(a: seq<byte>, b: seq<byte>, lo: int, hi: int)
    requires lo == 0 && hi == |a|
    ensures (a + b)[lo..hi] == a
  {
  }

  /** The two halves of p + p, read at `at` in s. */
  lemma Halves(s: seq<byte>, at: int, mid: int, stop: int, p: seq<byte>)
    requires 0 <= at && mid == at + |p| && stop == mid + |p| && stop <= |s| && s[at..stop] == p + p
    ensures s[at..mid] == p && s[mid..stop] == p
  {
    assert s[at..mid] == s[at..stop][..|p|];
    assert s[mid..stop] == s[at..stop][|p|..];
  }

  /** In a line, the t-th whole pixel of the source row appears twice, side by side, at 2·t·k. */
  lemma LinePixel(k: nat, row: seq<byte>, t: nat)
    requires k > 0 && t * k + k <= |row|
    ensures var at := t * k; var p := row[at..at + k]; var l := Line(k, row);
      l[2 * at..2 * at + k] == p && l[2 * at + k..2 * at + 2 * k] == p
  {
    AlignedMul(k, t);
    LineAt(k, row, t * k);
    Halves(Line(k, row), 2 * (t * k), 2 * (t * k) + k, 2 * (t * k) + 2 * k, row[t * k..t * k + k]);
  }

  /** Dropping the output of the whole rows from `from` up to `stop` leaves the output from `stop` on. */
  lemma {:induction false} RowsDrop(k: nat, pix: seq<byte>, from: int, stride: int, stop: int, h: int)
    requires k > 0 && stride > 0 && 0 <= from <= stop <= |pix| && Aligned(stride, stop - from) && h == 4 * (stop - from)
    ensures Rows(k, pix, from, stride)[h..] == Rows(k, pix, stop, stride)
    decreases stop - from
  {
    if stop > from {
      assert stop - from >= stride;
      var next := from + stride;
      var line := Line(k, pix[from..next]);
      RowsUnfold(k, pix, from, stride, next);
      AppendDrop(line + line, Rows(k, pix, next, stride));
      RowsDrop(k, pix, next, stride, stop, 4 * (stop - next));
      DropTwice(Rows(k, pix, from, stride), Rows(k, pix, next, stride), Rows(k, pix, stop, stride),
                4 * stride, 4 * (stop - next), h);
    } else {
      assert Rows(k, pix, from, stride)[h..] == Rows(k, pix, from, stride);
    }
  }

  /** Dropping the head of a + b leaves b. */
  lemma AppendDrop(a: seq<byte>, b: seq<byte>)
    ensures (a + b)[|a|..] == b
  {
  }

  /** Dropping h elements and then j more is dropping h + j. */
  lemma DropTwice(whole: seq<byte>, rest: seq<byte>, last: seq<byte>, h: int, j: int, t: int)
    requires 0 <= h <= |whole| && whole[h..] == rest && 0 <= j <= |rest| && rest[j..] == last && t == h + j
    ensures whole[t..] == last
  {
  }

  /** A block read at h: the head of what is left after dropping h. */
  lemma TakeOfDrop(whole: seq<byte>, h: int, block: seq<byte>, rest: seq<byte>, t: int)
    requires 0 <= h <= |whole| && whole[h..] == block + rest && t == h + |block|
    ensures t <= |whole| && whole[h..t] == block
  {
    assert whole[h..t] == whole[h..][..|block|];
  }

  /** One whole row at `from`: its line twice, then the rows after it. */
  lemma RowsUnfold(k: nat, pix: seq<byte>, from: int, stride: int, next: int)
    requires k > 0 && stride > 0 && 0 <= from && next == from + stride <= |pix|
    ensures var line := Line(k, pix[from..next]);
      Rows(k, pix, from, stride) == (line + line) + Rows(k, pix, next, stride)
  {
  }


  /** ScaleUpPacked*: source row j becomes destination rows 2j and 2j+1, each its line, at 4·j·stride and 4·j·stride + 2·stride. */
  lemma ScaledRow(k: nat, pix: seq<byte>, stride: int, j: nat)
    requires k > 0 && stride > 0 && j * stride + stride <= |pix|
    ensures var at := j * stride; var line := Line(k, pix[at..at + stride]); var r := Rows(k, pix, 0, stride);
      |r| == 4 * |pix| && r[4 * at..4 * at + 2 * stride] == line && r[4 * at + 2 * stride..4 * at + 4 * stride] == line
  {
    AlignedMul(stride, j);
    RowAt(k, pix, stride, j * stride);
  }

  /** The row at a whole number of strides `at`: its line twice, at 4·at of the result. */
  lemma RowAt(k: nat, pix: seq<byte>, stride: int, at: int)
    requires k > 0 && stride > 0 && 0 <= at && Aligned(stride, at - 0) && at + stride <= |pix|
    ensures var line := Line(k, pix[at..at + stride]); var r := Rows(k, pix, 0, stride);
      r[4 * at..4 * at + 2 * stride] == line && r[4 * at + 2 * stride..4 * at + 4 * stride] == line
  {
    var line := Line(k, pix[at..at + stride]);
    RowBlock(k, pix, stride, at, line);
    Halves(Rows(k, pix, 0, stride), 4 * at, 4 * at + 2 * stride, 4 * at + 4 * stride, line);
  }

  /** The 4·stride bytes at 4·at of the result are the line of the row at `at`, twice. */
  lemma RowBlock(k: nat, pix: seq<byte>, stride: int, at: int, line: seq<byte>)
    requires k > 0 && stride > 0 && 0 <= at && Aligned(stride, at - 0) && at + stride <= |pix|
    requires line == Line(k, pix[at..at + stride])
    ensures Rows(k, pix, 0, stride)[4 * at..4 * at + 4 * stride] == line + line
  {
    RowsDrop(k, pix, 0, stride, at, 4 * at);
    RowsUnfold(k, pix, at, stride, at + stride);
    TakeOfDrop(Rows(k, pix, 0, stride), 4 * at, line + line, Rows(k, pix, at + stride, stride), 4 * at + 4 * stride);
  }

  /** A trailing partial row (fewer than stride bytes after count whole rows) is not scaled: its part of the result stays zero. */
  lemma {:induction false} PartialRowIgnored(k: nat, pix: seq<byte>, tail: seq<byte>, from: int, stride: int, count: nat)
    requires k > 0 && stride > 0 && 0 <= from && |pix| - from == count * stride && |tail| < stride
    ensures Rows(k, pix + tail, from, stride) == Rows(k, pix, from, stride) + Zeros(4 * |tail|)
    decreases count
  {
    if count > 0 {
      var next := from + stride;
      assert |pix| - next == (count - 1) * stride;
      PartialRowIgnored(k, pix, tail, next, stride, count - 1);
      assert (pix + tail)[from..next] == pix[from..next];
      RowsUnfold(k, pix + tail, from, stride, next);
      RowsUnfold(k, pix, from, stride, next);
      var line := Line(k, pix[from..next]);
      assert (line + line) + (Rows(k, pix, next, stride) + Zeros(4 * |tail|))
        == ((line + line) + Rows(k, pix, next, stride)) + Zeros(4 * |tail|);
    }
  }

  // ------------------------------------------------------------ scaleUpRowQuad as written

  /**
   * scaleUpRowQuad as written, from source index i: the loop runs while
   * i+2 < len(src) but reads src[i+3]; with three bytes left that read is
   * out of range and the program panics (None).
   */
  function QuadLoopAsWritten(src: seq<byte>, i: nat): Option<seq<byte>>
    decreases |src| - i
  {
    if !(i + 2 < |src|) then Some([])
    else if i + 3 >= |src| then None
    else
      match QuadLoopAsWritten(src, i + 4)
      case None => None
      case Some(rest) => Some(Twice(src[i..i + 4]) + rest)
  }

  /** m padded with zeros to n bytes (m as it is when it is already that long). */
  function Pad(m: seq<byte>, n: int): seq<byte>
  {
    if |m| >= n then m else m + Zeros(n - |m|)
  }

  /**
   * ScaleUpPackedQuad as written, from source offset `from`: each whole row
   * through the as-written scaleUpRowQuad, its line copied below it; it
   * panics (None) as soon as one row's loop does.
   */
  function ScaleUpPackedQuadAsWritten(pix: seq<byte>, from: int, stride: int): Option<seq<byte>>
    requires stride > 0 && 0 <= from <= |pix|
    decreases |pix| - from
  {
    if from + stride > |pix| then Some(Zeros(4 * (|pix| - from)))
    else
      match QuadLoopAsWritten(pix[from..from + stride], 0)
      case None => None
      case Some(m) =>
        match ScaleUpPackedQuadAsWritten(pix, from + stride, stride)
        case None => None
        case Some(rest) => Some(Pad(m, 2 * stride) + Pad(m, 2 * stride) + rest)
  }

  /** Three bytes with a stride of three: the one row has three bytes left at i = 0, and the as-written loop panics. */
  lemma ScaleUpPackedQuadAsWrittenPanics()
    ensures ScaleUpPackedQuadAsWritten([0, 0, 0], 0, 3) == None
    ensures |Rows(4, [0, 0, 0], 0, 3)| == 12
  {
    assert QuadLoopAsWritten([0, 0, 0], 0) == None;
  }

  /** The as-written row loop panics exactly when a row leaves three bytes after its whole pixels. */
  lemma {:induction false} QuadLoopPanics(src: seq<byte>, i: nat)
    requires i <= |src|
    ensures QuadLoopAsWritten(src, i).None? <==> (|src| - i) % 4 == 3
    decreases |src| - i
  {
    if i + 2 < |src| && i + 3 < |src| {
      QuadLoopPanics(src, i + 4);
      assert (|src| - (i + 4)) % 4 == (|src| - i) % 4;
    }
  }

  /** Where it does not panic, the as-written row loop writes what the corrected one does. */
  lemma {:induction false} QuadLoopAgrees(src: seq<byte>, i: nat)
    requires i <= |src| && QuadLoopAsWritten(src, i).Some?
    ensures QuadLoopAsWritten(src, i) == Some(Doubled(4, src[i..]))
    decreases |src| - i
  {
    if i + 2 < |src| {
      QuadLoopAgrees(src, i + 4);
      assert src[i..][..4] == src[i..i + 4] && src[i..][4..] == src[i + 4..];
    }
  }
}
