/**
 * The row jobs of the delta finder (deltas.go, deltaFinder and
 * deltaFinderJob): for every pixel row, roll the long-term totals with the
 * new frame's bytes, score every column against the average, and collect
 * the runs of columns whose score exceeds the threshold as height-one
 * rectangles of that row.
 */
module DeltaJobs {
  import opened Ints
  import opened Geom
  import opened ImgBytes
  import opened Deltas

  // ---------------------------------------------------------------- one row

  /** A rectangle one column wider on the right (`Max.X++`). */
  function Widened(r: Rectangle): (w: Rectangle)
    ensures w.min == r.min && w.max.y == r.max.y && w.max.x == r.max.x + 1
  {
    r.(max := r.max.(x := r.max.x + 1))
  }

  /**
   * The rectangles the loop of findRects collects from the scores of row y:
   * a column x whose score exceeds t widens the last rectangle when that one
   * ends at x, and otherwise starts [x, x+1) × [y, y+1).
   */
  function Hits(scores: seq<int>, t: int, y: int): (rs: seq<Rectangle>)
    ensures |rs| <= |scores|
    decreases |scores|
  {
    if |scores| == 0 then []
    else
      var x := |scores| - 1;
      var rs := Hits(scores[..x], t, y);
      if scores[x] <= t then rs
      else if |rs| > 0 && rs[|rs| - 1].max.x == x then rs[..|rs| - 1] + [Widened(rs[|rs| - 1])]
      else rs + [Rect(x, y, x + 1, y + 1)]
  }

  /** Height-one, non-empty rectangles of row y within columns [0, w): the RowRects shape. */
  ghost predicate InRow(rs: seq<Rectangle>, y: int, w: int)
  {
    forall i :: 0 <= i < |rs| ==>
      rs[i].min.y == y && rs[i].max.y == y + 1 && 0 <= rs[i].min.x < rs[i].max.x <= w
  }

  /** Left to right, with at least one column between any two. */
  ghost predicate Separated(rs: seq<Rectangle>)
  {
    forall i, j :: 0 <= i < j < |rs| ==> rs[i].max.x < rs[j].min.x
  }

  /** Column x lies in one of the rectangles. */
  ghost predicate Covered(rs: seq<Rectangle>, x: int)
  {
    exists i :: 0 <= i < |rs| && rs[i].min.x <= x < rs[i].max.x
  }

  /** The rectangles cover exactly the columns whose score exceeds t. */
  ghost predicate CoversHits(rs: seq<Rectangle>, scores: seq<int>, t: int)
  {
    forall x :: 0 <= x < |scores| ==> (Covered(rs, x) <==> scores[x] > t)
  }

  /** The runs of row y over the threshold t, as findRects leaves them. */
  ghost predicate Runs(rs: seq<Rectangle>, scores: seq<int>, t: int, y: int)
  {
    InRow(rs, y, |scores|) && Separated(rs) && CoversHits(rs, scores, t)
  }

  /**
   * What findRects promises about one row: height-one rectangles of row y,
   * ordered and apart, covering a column exactly when its score exceeds t.
   */
  lemma {:induction false} HitsRuns(scores: seq<int>, t: int, y: int)
    ensures Runs(Hits(scores, t, y), scores, t, y)
    decreases |scores|
  {
    if |scores| > 0 {
      var x := |scores| - 1;
      HitsRuns(scores[..x], t, y);
      var rs := Hits(scores[..x], t, y);
      if scores[x] <= t {
        MissKeeps(scores, t, y);
      } else if |rs| > 0 && rs[|rs| - 1].max.x == x {
        HitWidens(scores, t, y);
      } else {
        HitStarts(scores, t, y);
      }
    }
  }

  /** A column at or below the threshold adds nothing, and nothing covers it. */
  lemma MissKeeps(scores: seq<int>, t: int, y: int)
    requires |scores| > 0 && scores[|scores| - 1] <= t
    requires Runs(Hits(scores[..|scores| - 1], t, y), scores[..|scores| - 1], t, y)
    ensures Runs(Hits(scores, t, y), scores, t, y)
  {
    var x := |scores| - 1;
    var rs := Hits(scores[..x], t, y);
    assert Hits(scores, t, y) == rs;
    forall c | 0 <= c < |scores|
      ensures Covered(rs, c) <==> scores[c] > t
    {
      if c < x {
        assert scores[..x][c] == scores[c];
      }
    }
  }

  /** A column over the threshold right after the last rectangle widens it. */
  lemma HitWidens(scores: seq<int>, t: int, y: int)
    requires |scores| > 0 && scores[|scores| - 1] > t
    requires var x := |scores| - 1; var rs := Hits(scores[..x], t, y);
      Runs(rs, scores[..x], t, y) && |rs| > 0 && rs[|rs| - 1].max.x == x
    ensures Runs(Hits(scores, t, y), scores, t, y)
  {
    var rs := Hits(scores[..|scores| - 1], t, y);
    WidenRuns(rs, scores, t, y);
    assert Hits(scores, t, y) == rs[..|rs| - 1] + [Widened(rs[|rs| - 1])];
  }

  lemma WidenRuns(rs: seq<Rectangle>, scores: seq<int>, t: int, y: int)
    requires |scores| > 0 && scores[|scores| - 1] > t
    requires var x := |scores| - 1; Runs(rs, scores[..x], t, y) && |rs| > 0 && rs[|rs| - 1].max.x == x
    ensures Runs(rs[..|rs| - 1] + [Widened(rs[|rs| - 1])], scores, t, y)
  {
    var m := |rs| - 1;
    var rs' := rs[..m] + [Widened(rs[m])];
    assert forall i :: 0 <= i < m ==> rs'[i] == rs[i];
    WidenCovers(rs, rs', scores, t, y);
  }

  /** Widening the last rectangle over column x covers the columns before x as before, and x too. */
  lemma WidenCovers(rs: seq<Rectangle>, rs': seq<Rectangle>, scores: seq<int>, t: int, y: int)
    requires |scores| > 0 && scores[|scores| - 1] > t
    requires var x := |scores| - 1; CoversHits(rs, scores[..x], t) && |rs| > 0 && rs[|rs| - 1].max.x == x
    requires InRow(rs, y, |scores| - 1)
    requires rs' == rs[..|rs| - 1] + [Widened(rs[|rs| - 1])]
    ensures CoversHits(rs', scores, t)
  {
    var x := |scores| - 1;
    var m := |rs| - 1;
    assert forall i :: 0 <= i < m ==> rs'[i] == rs[i];
    forall c | 0 <= c < |scores|
      ensures Covered(rs', c) <==> scores[c] > t
    {
      if c < x {
        assert scores[..x][c] == scores[c];
        if Covered(rs, c) {
          var i :| 0 <= i < |rs| && rs[i].min.x <= c < rs[i].max.x;
          assert rs'[i].min.x <= c < rs'[i].max.x;
        }
        if Covered(rs', c) {
          var i :| 0 <= i < |rs'| && rs'[i].min.x <= c < rs'[i].max.x;
          assert rs[i].min.x <= c < rs[i].max.x;
        }
      } else {
        assert rs'[m].min.x <= c < rs'[m].max.x;
      }
    }
  }

  /** A column over the threshold away from the last rectangle starts a new one. */
  lemma HitStarts(scores: seq<int>, t: int, y: int)
    requires |scores| > 0 && scores[|scores| - 1] > t
    requires var x := |scores| - 1; var rs := Hits(scores[..x], t, y);
      Runs(rs, scores[..x], t, y) && !(|rs| > 0 && rs[|rs| - 1].max.x == x)
    ensures Runs(Hits(scores, t, y), scores, t, y)
  {
    var x := |scores| - 1;
    var rs := Hits(scores[..x], t, y);
    StartRuns(rs, scores, t, y);
    assert Hits(scores, t, y) == rs + [Rect(x, y, x + 1, y + 1)];
  }

  lemma StartRuns(rs: seq<Rectangle>, scores: seq<int>, t: int, y: int)
    requires |scores| > 0 && scores[|scores| - 1] > t
    requires var x := |scores| - 1; Runs(rs, scores[..x], t, y) && !(|rs| > 0 && rs[|rs| - 1].max.x == x)
    ensures var x := |scores| - 1; Runs(rs + [Rect(x, y, x + 1, y + 1)], scores, t, y)
  {
    var x := |scores| - 1;
    var rs' := rs + [Rect(x, y, x + 1, y + 1)];
    assert forall i :: 0 <= i < |rs| ==> rs'[i] == rs[i];
    forall i | 0 <= i < |rs|
      ensures rs[i].max.x < x
    {
      if i < |rs| - 1 {
        assert rs[i].max.x < rs[|rs| - 1].min.x;
      }
    }
    forall c | 0 <= c < |scores|
      ensures Covered(rs', c) <==> scores[c] > t
    {
      if c < x {
        assert scores[..x][c] == scores[c];
        if Covered(rs, c) {
          var i :| 0 <= i < |rs| && rs[i].min.x <= c < rs[i].max.x;
          assert rs'[i].min.x <= c < rs'[i].max.x;
        }
      } else {
        assert rs'[|rs|].min.x <= c < rs'[|rs|].max.x;
      }
    }
  }

  /**
   * Every rectangle is a maximal run: the column just left of it and the one
   * just right of it (where they exist) are at or below the threshold.
   */
  lemma HitsMaximal(scores: seq<int>, t: int, y: int, i: int)
    requires 0 <= i < |Hits(scores, t, y)|
    ensures var r := Hits(scores, t, y)[i];
      (0 < r.min.x <= |scores| ==> scores[r.min.x - 1] <= t) && (0 <= r.max.x < |scores| ==> scores[r.max.x] <= t)
  {
    HitsRuns(scores, t, y);
    var rs := Hits(scores, t, y);
    var r := rs[i];
    forall j | 0 <= j < |rs|
      ensures !(rs[j].min.x <= r.min.x - 1 < rs[j].max.x) && !(rs[j].min.x <= r.max.x < rs[j].max.x)
    {
      if j < i {
        assert rs[j].max.x < r.min.x;
      } else if j > i {
        assert r.max.x < rs[j].min.x;
      }
    }
    assert !Covered(rs, r.min.x - 1) && !Covered(rs, r.max.x);
  }

  /** A row has no rectangles exactly when no column's score exceeds the threshold. */
  lemma {:induction false} HitsNone(scores: seq<int>, t: int, y: int)
    ensures Hits(scores, t, y) == [] <==> forall x :: 0 <= x < |scores| ==> scores[x] <= t
    decreases |scores|
  {
    if |scores| > 0 {
      var x := |scores| - 1;
      HitsNone(scores[..x], t, y);
      if scores[x] <= t {
        assert forall k :: 0 <= k < x ==> scores[..x][k] == scores[k];
      }
    }
  }

  /** The findRects loop: walk the scores, widening or starting rectangles. */
  method CollectHits(scores: seq<int>, t: int, y: int) returns (rs: seq<Rectangle>)
    ensures rs == Hits(scores, t, y)
  {
    rs := [];
    var x := 0;
    while x < |scores|
      invariant 0 <= x <= |scores| && rs == Hits(scores[..x], t, y)
    {
      assert scores[..x + 1][..x] == scores[..x];
      var numr := |rs|;
      if scores[x] > t {
        if numr > 0 && rs[numr - 1].max.x == x {
          rs := rs[numr - 1 := Widened(rs[numr - 1])];
          assert rs == Hits(scores[..x], t, y)[..numr - 1] + [Widened(Hits(scores[..x], t, y)[numr - 1])];
        } else {
          rs := rs + [Rect(x, y, x + 1, y + 1)];
        }
      }
      x := x + 1;
    }
    assert scores[..x] == scores;
  }

  // ---------------------------------------------------------------- rows

  /** A column delta finder of n scores can read deltas of a row of `stride` bytes. */
  predicate FinderFits(kind: FinderKind, n: nat, stride: int)
  {
    match kind
    case Gray => stride >= n
    case Yuv => n % 2 == 0 && stride >= 2 * n
    case Rgb => stride >= 3 * n
  }

  /** `count` rows of `stride` bytes from offset off lie within len bytes. */
  ghost predicate RowsFit(off: int, stride: int, count: nat, len: int)
    decreases count
  {
    count == 0 || (0 <= off && 0 <= stride && off + stride <= len && RowsFit(off + stride, stride, count - 1, len))
  }

  /** The totals with the row at off rolled: oldb's bytes out, newb's in. */
  function RollRow(s: seq<u32>, oldb: seq<byte>, newb: seq<byte>, off: int, stride: int): (r: seq<u32>)
    requires 0 <= off && 0 <= stride && off + stride <= |s| && off + stride <= |oldb| && off + stride <= |newb|
    ensures |r| == |s|
  {
    s[..off] + RolledSums(s[off..off + stride], oldb[off..off + stride], newb[off..off + stride]) + s[off + stride..]
  }

  /** The deltas of the row at off: its average in the totals s minus its new bytes. */
  function RowDeltas(s: seq<u32>, newb: seq<byte>, off: int, stride: int): (d: seq<int>)
    requires 0 <= off && 0 <= stride && off + stride <= |s| && off + stride <= |newb|
    ensures |d| == stride
  {
    AvgDeltas(s[off..off + stride], newb[off..off + stride])
  }

  /** The rectangles of the row at off, scored against the totals s as they are before it rolls. */
  function RowHits(kind: FinderKind, n: nat, s: seq<u32>, newb: seq<byte>, off: int, stride: int, t: int, y: int): seq<Rectangle>
    requires 0 <= off && 0 <= stride && off + stride <= |s| && off + stride <= |newb| && FinderFits(kind, n, stride)
  {
    Hits(Scores(kind, RowDeltas(s, newb, off, stride), n), t, y)
  }

  /** The totals after `count` rows from off have rolled, one after the other. */
  ghost function RolledRows(s: seq<u32>, oldb: seq<byte>, newb: seq<byte>, off: int, stride: int, count: nat): (r: seq<u32>)
    requires RowsFit(off, stride, count, |s|) && RowsFit(off, stride, count, |oldb|) && RowsFit(off, stride, count, |newb|)
    ensures |r| == |s|
    decreases count
  {
    if count == 0 then s
    else RolledRows(RollRow(s, oldb, newb, off, stride), oldb, newb, off + stride, stride, count - 1)
  }

  /** Rows that fit end inside the buffer: count rows from off take no more than len bytes. */
  lemma {:induction false} RowsFitEnd(off: int, stride: int, count: nat, len: int)
    requires RowsFit(off, stride, count, len) && count > 0
    ensures 0 <= off && 0 <= stride && 0 <= count * stride && off + count * stride <= len
    decreases count
  {
    if count > 1 {
      RowsFitEnd(off + stride, stride, count - 1, len);
      assert off + stride + (count - 1) * stride == off + count * stride;
    }
  }

  /** Total j after the row at off has rolled: rolled once inside the row, as it was outside it. */
  lemma RollRowAt(s: seq<u32>, oldb: seq<byte>, newb: seq<byte>, off: int, stride: int, j: int)
    requires 0 <= off && 0 <= stride && off + stride <= |s| && off + stride <= |oldb| && off + stride <= |newb|
    requires 0 <= j < |s|
    ensures RollRow(s, oldb, newb, off, stride)[j] == if off <= j < off + stride then Roll(s[j], oldb[j], newb[j]) else s[j]
  {
    var rs, ro, rn := s[off..off + stride], oldb[off..off + stride], newb[off..off + stride];
    RolledSumsAt(rs, ro, rn);
    if off <= j < off + stride {
      assert RollRow(s, oldb, newb, off, stride)[j] == RolledSums(rs, ro, rn)[j - off];
    }
  }

  /**
   * Total j after `count` rows from off have rolled: rolled exactly once,
   * old byte out and new byte in, when j lies in one of those rows, and
   * untouched otherwise.
   */
  lemma {:induction false} RolledRowsAt(s: seq<u32>, oldb: seq<byte>, newb: seq<byte>, off: int, stride: int, count: nat, j: int)
    requires RowsFit(off, stride, count, |s|) && RowsFit(off, stride, count, |oldb|) && RowsFit(off, stride, count, |newb|)
    requires 0 <= j < |s| && j < |oldb| && j < |newb|
    ensures RolledRows(s, oldb, newb, off, stride, count)[j]
         == if off <= j < off + count * stride then Roll(s[j], oldb[j], newb[j]) else s[j]
    decreases count
  {
    if count > 0 {
      RowsFitStep(off, stride, count, |s|);
      RowsFitStep(off, stride, count, |oldb|);
      RowsFitStep(off, stride, count, |newb|);
      var s' := RollRow(s, oldb, newb, off, stride);
      RollRowAt(s, oldb, newb, off, stride, j);
      RolledRowsAt(s', oldb, newb, off + stride, stride, count - 1, j);
      assert off + stride + (count - 1) * stride == off + count * stride;
    }
  }

  /** The rectangles of `count` rows from off (row y on), each scored against the totals as the rows before it left them. */
  ghost function FoundRows(kind: FinderKind, n: nat, s: seq<u32>, oldb: seq<byte>, newb: seq<byte>, off: int, stride: int,
                           t: int, y: int, count: nat): (r: seq<seq<Rectangle>>)
    requires RowsFit(off, stride, count, |s|) && RowsFit(off, stride, count, |oldb|) && RowsFit(off, stride, count, |newb|)
    requires FinderFits(kind, n, stride)
    ensures |r| == count
    decreases count
  {
    if count == 0 then []
    else
      [RowHits(kind, n, s, newb, off, stride, t, y)] +
      FoundRows(kind, n, RollRow(s, oldb, newb, off, stride), oldb, newb, off + stride, stride, t, y + 1, count - 1)
  }

  /** Every row FoundRows gives has the RowRects shape: height one, in its own row, within the columns. */
  lemma {:induction false} FoundRowsInRow(kind: FinderKind, n: nat, s: seq<u32>, oldb: seq<byte>, newb: seq<byte>,
                                          off: int, stride: int, t: int, y: int, count: nat, j: int)
    requires RowsFit(off, stride, count, |s|) && RowsFit(off, stride, count, |oldb|) && RowsFit(off, stride, count, |newb|)
    requires FinderFits(kind, n, stride) && 0 <= j < count
    ensures InRow(FoundRows(kind, n, s, oldb, newb, off, stride, t, y, count)[j], y + j, n)
    ensures Separated(FoundRows(kind, n, s, oldb, newb, off, stride, t, y, count)[j])
    decreases count
  {
    if j == 0 {
      var d := RowDeltas(s, newb, off, stride);
      HitsRuns(Scores(kind, d, n), t, y);
    } else {
      FoundRowsInRow(kind, n, RollRow(s, oldb, newb, off, stride), oldb, newb, off + stride, stride, t, y + 1, count - 1, j - 1);
    }
  }

  // ---------------------------------------------------------------- the job

  /** `build()` of a column delta finder builder: a fresh finder of `width` scores. */
  method Build(b: FinderBuilder) returns (f: ColumnDeltaFinder)
    requires b.Builder? && b.width >= 0
    ensures fresh(f) && fresh(f.buf) && f.Valid() && f.kind == b.kind && f.buf.Length == b.width
  {
    f := new ColumnDeltaFinder(b.kind, b.width);
  }

  /**
   * A deltaFinderJob: one deltaFinder (the rows' old and new pixels, the
   * totals, the threshold, the current row y of [y, maxy), the deltas and
   * the column finder, the row's rectangles) and the slots of the result
   * it fills, one per row.
   */
  class DeltaFinderJob {
    var oldps: PixelRow
    var newps: PixelRow
    const sums: array<u32>
    const deltaT: int
    var y: int
    const maxy: int
    const deltas: array<int>
    const coldeltas: ColumnDeltaFinder
    var rects: seq<Rectangle>
    const result: array<seq<Rectangle>>

    /** Old and new rows advance together, the deltas hold one row, and the finder fits them. */
    ghost predicate Valid()
      reads this, coldeltas, coldeltas.buf
    {
      coldeltas.Valid() && deltas != coldeltas.buf &&
      oldps.offset == newps.offset && 0 <= newps.offset &&
      oldps.ps.GetStride() == newps.ps.GetStride() == deltas.Length &&
      FinderFits(coldeltas.kind, coldeltas.buf.Length, deltas.Length)
    }

    /** The current row lies within both frames and the totals. */
    ghost predicate RowFits()
      reads this
    {
      0 <= newps.offset && newps.offset + deltas.Length <= sums.Length &&
      newps.offset + deltas.Length <= |oldps.ps.ib.bytes| && newps.offset + deltas.Length <= |newps.ps.ib.bytes|
    }

    /**
     * `newDeltaFinderJob`, with the job's result slots set as
     * buildDeltaFinderJobs does: deltas of one row, rects of Dx/2 zero
     * rectangles (emptied before use).
     */
    constructor (sums: array<u32>, oldps: PixelRow, newps: PixelRow, deltaT: int, y: int, maxy: int,
                 cdf: ColumnDeltaFinder, result: array<seq<Rectangle>>)
      requires cdf.Valid() && newps.ps.GetStride() >= 0 && newps.ps.dx / 2 >= 0
      requires oldps.offset == newps.offset >= 0 && oldps.ps.GetStride() == newps.ps.GetStride()
      requires FinderFits(cdf.kind, cdf.buf.Length, newps.ps.GetStride())
      ensures Valid() && fresh(deltas)
      ensures this.sums == sums && this.oldps == oldps && this.newps == newps && this.deltaT == deltaT
      ensures this.y == y && this.maxy == maxy && coldeltas == cdf && this.result == result
      ensures deltas.Length == newps.ps.GetStride() && |rects| == newps.ps.dx / 2
    {
      this.oldps, this.newps, this.sums, this.deltaT, this.y, this.maxy := oldps, newps, sums, deltaT, y, maxy;
      deltas := new int[newps.ps.GetStride()];
      coldeltas := cdf;
      rects := seq(newps.ps.dx / 2, _ => ZR);
      this.result := result;
    }

    /**
     * `findRects`: roll the totals of the current row (deltas against the
     * average first), score the columns, and collect the rectangles of the
     * columns over the threshold.
     */
    method FindRects()
      requires Valid() && RowFits()
      modifies sums, deltas, coldeltas.buf, this`rects
      ensures Valid()
      ensures sums[..] == RollRow(old(sums[..]), oldps.ps.ib.bytes, newps.ps.ib.bytes, newps.offset, deltas.Length)
      ensures deltas[..] == RowDeltas(old(sums[..]), newps.ps.ib.bytes, newps.offset, deltas.Length)
      ensures rects == Hits(Scores(coldeltas.kind, deltas[..], coldeltas.buf.Length), deltaT, y)
    {
      ghost var s0 := sums[..];
      RollCurrent();
      ghost var d := deltas[..];
      assert d == RowDeltas(s0, newps.ps.ib.bytes, newps.offset, deltas.Length);
      ghost var s1 := sums[..];
      HitsCurrent(d);
      assert deltas[..] == d && sums[..] == s1;
    }

    /** The score half of findRects: the column scores of the deltas d, and the runs above the threshold. */
    method HitsCurrent(ghost d: seq<int>)
      requires Valid() && d == deltas[..]
      modifies coldeltas.buf, this`rects
      ensures Valid() && rects == Hits(Scores(coldeltas.kind, d, coldeltas.buf.Length), deltaT, y)
      ensures sums[..] == old(sums[..]) && deltas[..] == d
    {
      var scores := coldeltas.Find(deltas[..]);
      rects := CollectHits(scores, deltaT, y);
    }

    /** The roll half of findRects: the current row rolled into the totals, its deltas into deltas. */
    method RollCurrent()
      requires Valid() && RowFits()
      modifies sums, deltas
      ensures sums[..] == RollRow(old(sums[..]), oldps.ps.ib.bytes, newps.ps.ib.bytes, newps.offset, deltas.Length)
      ensures deltas[..] == RowDeltas(old(sums[..]), newps.ps.ib.bytes, newps.offset, deltas.Length)
    {
      var off, n := newps.offset, deltas.Length;
      var newb := newps.GetBytes().value;
      var oldb := oldps.GetBytes().value;
      RollRowOf(sums, off, n, newb, deltas, oldb, oldps.ps.ib.bytes, newps.ps.ib.bytes);
    }

    /** `next`: move both rows down by one stride, unless this is the job's last row. */
    method Next() returns (more: bool)
      requires Valid()
      modifies this`oldps, this`newps, this`y, this`rects
      ensures Valid()
      ensures more <==> old(y) != maxy - 1
      ensures more ==> (y == old(y) + 1 && rects == [] &&
                        newps == old(newps).(offset := old(newps.offset) + deltas.Length) &&
                        oldps == old(oldps).(offset := old(oldps.offset) + deltas.Length))
      ensures !more ==> y == old(y) && rects == old(rects) && newps == old(newps) && oldps == old(oldps)
    {
      if y == maxy - 1 {
        return false;
      }
      oldps := oldps.(offset := oldps.offset + oldps.ps.GetStride());
      newps := newps.(offset := newps.offset + newps.ps.GetStride());
      y := y + 1;
      rects := [];
      return true;
    }

    /**
     * `run`: every row of [y, maxy) in turn, its rectangles copied into its
     * result slot when there are any (the slot stays nil, here [], otherwise).
     */
    method Run()
      requires Valid() && y < maxy && result.Length == maxy - y
      requires forall i :: 0 <= i < result.Length ==> result[i] == []
      requires RowsFit(newps.offset, deltas.Length, maxy - y, sums.Length)
      requires RowsFit(newps.offset, deltas.Length, maxy - y, |oldps.ps.ib.bytes|)
      requires RowsFit(newps.offset, deltas.Length, maxy - y, |newps.ps.ib.bytes|)
      modifies sums, deltas, coldeltas.buf, result, this`oldps, this`newps, this`y, this`rects
      ensures Valid() && y == maxy - 1 && oldps.ps == old(oldps.ps) && newps.ps == old(newps.ps)
      ensures sums[..] == RolledRows(old(sums[..]), old(oldps.ps.ib.bytes), old(newps.ps.ib.bytes),
                                     old(newps.offset), deltas.Length, maxy - old(y))
      ensures result[..] == FoundRows(coldeltas.kind, coldeltas.buf.Length, old(sums[..]), old(oldps.ps.ib.bytes),
                                      old(newps.ps.ib.bytes), old(newps.offset), deltas.Length, deltaT, old(y), maxy - old(y))
    {
      var numrows := maxy - y;
      ghost var off, gy := newps.offset, y;
      ghost var found := FoundRows(coldeltas.kind, coldeltas.buf.Length, sums[..], oldps.ps.ib.bytes, newps.ps.ib.bytes,
                                   off, deltas.Length, deltaT, gy, numrows);
      ghost var rolled := RolledRows(sums[..], oldps.ps.ib.bytes, newps.ps.ib.bytes, off, deltas.Length, numrows);
      assert result[..][..0] + found == found;
      RemainingFrom(coldeltas.kind, coldeltas.buf.Length, deltas.Length, deltaT, oldps.ps.ib.bytes, newps.ps.ib.bytes,
                    sums[..], result[..], 0, numrows, numrows, off, gy, found, rolled);
      off, gy := RunRows(numrows, off, gy, found, rolled);
      ProgressDone(numrows, off, gy, found, rolled);
    }

    /** The loop of run: one RunStep per row. */
    method RunRows(numrows: int, ghost off: int, ghost gy: int, ghost found: seq<seq<Rectangle>>, ghost rolled: seq<u32>)
      returns (ghost off': int, ghost gy': int)
      requires Progress(0, numrows, off, gy, found, rolled) && 0 < numrows
      modifies sums, deltas, coldeltas.buf, result, this`oldps, this`newps, this`y, this`rects
      ensures Progress(numrows, numrows, off', gy', found, rolled)
      ensures oldps.ps == old(oldps.ps) && newps.ps == old(newps.ps)
    {
      var i := 0;
      off', gy' := off, gy;
      while i < numrows
        invariant 0 <= i <= numrows && Progress(i, numrows, off', gy', found, rolled)
        invariant oldps.ps == old(oldps.ps) && newps.ps == old(newps.ps)
        decreases numrows - i
      {
        off', gy' := RunStep(i, numrows, off', gy', found, rolled);
        i := i + 1;
      }
    }

    /** After i of the job's numrows rows: where the job stands, and the rows still to do. */
    ghost predicate Progress(i: int, numrows: int, off: int, gy: int, found: seq<seq<Rectangle>>, rolled: seq<u32>)
      reads this, sums, result, coldeltas, coldeltas.buf
    {
      Valid() &&
      (i < numrows ==> newps.offset == off && y == gy && gy + numrows - i == maxy) &&
      (i == numrows ==> y == maxy - 1) &&
      Remaining(coldeltas.kind, coldeltas.buf.Length, deltas.Length, deltaT, oldps.ps.ib.bytes, newps.ps.ib.bytes,
                sums[..], result[..], i, numrows, off, gy, found, rolled)
    }

    /** One pass of run's loop: the current row's findRects and its slot, then next. */
    method RunStep(i: int, numrows: int, ghost off: int, ghost gy: int, ghost found: seq<seq<Rectangle>>, ghost rolled: seq<u32>)
      returns (ghost off': int, ghost gy': int)
      requires Progress(i, numrows, off, gy, found, rolled) && i < numrows
      modifies sums, deltas, coldeltas.buf, result, this`oldps, this`newps, this`y, this`rects
      ensures off' == off + deltas.Length && gy' == gy + 1
      ensures Progress(i + 1, numrows, off', gy', found, rolled) && oldps.ps == old(oldps.ps) && newps.ps == old(newps.ps)
    {
      off', gy' := off + deltas.Length, gy + 1;
      ghost var kind, n, stride, oldb, newb := coldeltas.kind, coldeltas.buf.Length, deltas.Length, oldps.ps.ib.bytes, newps.ps.ib.bytes;
      ghost var s0, r0 := sums[..], result[..];
      RemainingNext(kind, n, stride, deltaT, oldb, newb, s0, r0, i, numrows, off, gy, found, rolled);
      StoreRow(i);
      RemainingMoved(kind, n, stride, deltaT, oldb, newb, s0, r0, i, numrows, off, gy, found, rolled, sums[..], result[..]);
      var more := Next();
      ProgressOf(i + 1, numrows, off', gy', found, rolled);
    }

    /** Progress from its parts. */
    lemma ProgressOf(i: int, numrows: int, off: int, gy: int, found: seq<seq<Rectangle>>, rolled: seq<u32>)
      requires Valid() && (i < numrows ==> newps.offset == off && y == gy && gy + numrows - i == maxy)
      requires i == numrows ==> y == maxy - 1
      requires Remaining(coldeltas.kind, coldeltas.buf.Length, deltas.Length, deltaT, oldps.ps.ib.bytes, newps.ps.ib.bytes,
                         sums[..], result[..], i, numrows, off, gy, found, rolled)
      ensures Progress(i, numrows, off, gy, found, rolled)
    {
    }

    /** The current row's findRects, its rectangles copied into slot i when there are any. */
    method StoreRow(i: int)
      requires Valid() && RowFits() && 0 <= i < result.Length && result[i] == []
      modifies sums, deltas, coldeltas.buf, result, this`rects
      ensures Valid() && newps == old(newps) && oldps == old(oldps) && y == old(y)
      ensures sums[..] == RollRow(old(sums[..]), oldps.ps.ib.bytes, newps.ps.ib.bytes, newps.offset, deltas.Length)
      ensures result[..] == old(result[..])[i := RowHits(coldeltas.kind, coldeltas.buf.Length, old(sums[..]), newps.ps.ib.bytes,
                                                         newps.offset, deltas.Length, deltaT, y)]
    {
      ghost var s, r0 := sums[..], result[..];
      FindRects();
      ghost var s1 := sums[..];
      assert result[..] == r0;
      RowHitsOf(coldeltas.kind, coldeltas.buf.Length, s, newps.ps.ib.bytes, newps.offset, deltas[..], rects, deltaT, y);
      Store(i);
      assert sums[..] == s1;
    }

    /** The copy of run's loop: the row's rectangles into slot i, when there are any (nil stays otherwise). */
    method Store(i: int)
      requires 0 <= i < result.Length && result[i] == []
      modifies result
      ensures result[..] == old(result[..])[i := rects]
    {
      if |rects| > 0 {
        result[i] := rects;
      }
    }

    /** All rows done: the totals and the result are the whole job's. */
    lemma ProgressDone(numrows: int, off: int, gy: int, found: seq<seq<Rectangle>>, rolled: seq<u32>)
      requires Progress(numrows, numrows, off, gy, found, rolled)
      ensures sums[..] == rolled && result[..] == found
    {
    }
  }

  /**
   * `buildHeightOneRects` with its single job (`buildDeltaFinderJobs` with
   * one job, then `runJobs`): one result slot per row of the old frame, all
   * nil, filled by a job over every row from offset 0 with a fresh finder.
   * The job's totals are `sums[0:stride]` resliced within their capacity,
   * so with one job they reach the whole of sums.
   */
  method BuildHeightOneRects(opxq: PixelSequence, npxq: PixelSequence, sums: array<u32>, t: int, cdfb: FinderBuilder)
    returns (rrs: array<seq<Rectangle>>)
    requires cdfb.Builder? && cdfb.width >= 0 && opxq.dy >= 0 && npxq.dx >= 0
    requires opxq.GetStride() == npxq.GetStride() && FinderFits(cdfb.kind, cdfb.width, npxq.GetStride())
    requires RowsFit(0, npxq.GetStride(), opxq.dy, sums.Length)
    requires RowsFit(0, npxq.GetStride(), opxq.dy, |opxq.ib.bytes|) && RowsFit(0, npxq.GetStride(), opxq.dy, |npxq.ib.bytes|)
    modifies sums
    ensures fresh(rrs) && rrs.Length == opxq.dy
    ensures rrs[..] == FoundRows(cdfb.kind, cdfb.width, old(sums[..]), opxq.ib.bytes, npxq.ib.bytes, 0, npxq.GetStride(), t, 0, opxq.dy)
    ensures sums[..] == RolledRows(old(sums[..]), opxq.ib.bytes, npxq.ib.bytes, 0, npxq.GetStride(), opxq.dy)
  {
    rrs := new seq<Rectangle>[opxq.dy](_ => []);
    var cdf := Build(cdfb);
    var job := new DeltaFinderJob(sums, PixelRow(opxq, 0), PixelRow(npxq, 0), t, 0, opxq.dy, cdf, rrs);
    if opxq.dy > 0 {
      job.Run();
    }
  }

  /** An all-zero RGB row of four pixels, as bytes and as totals. */
  const ZeroRow: seq<byte> := [0, 0, 0, 0, 0, 0, 0, 0, 0, 0, 0, 0]
  const ZeroSums: seq<u32> := [0, 0, 0, 0, 0, 0, 0, 0, 0, 0, 0, 0]

  /** The same row with its second pixel (0, 128, 192). */
  const PixelRowBytes: seq<byte> := [0, 0, 0, 0, 128, 192, 0, 0, 0, 0, 0, 0]

  /** 128² + 192², the score of that pixel against a zero average. */
  const PixelScore: int := 128 * 128 + 192 * 192

  /** The example row's deltas against zero totals: its bytes negated. */
  ghost predicate ExampleDeltas(d: seq<int>)
  {
    |d| == 12 && forall k :: 0 <= k < 12 ==> d[k] == -(PixelRowBytes[k] as int)
  }

  /** Only the second column scores, and it scores exactly PixelScore. */
  lemma ExampleScores(d: seq<int>)
    requires ExampleDeltas(d)
    ensures Scores(Rgb, d, 4) == [0, PixelScore, 0, 0]
  {
    assert d == [0, 0, 0, 0, -128, -192, 0, 0, 0, 0, 0, 0];
    ScoresAt(Rgb, d, 4);
  }

  /**
   * TestHeightOneRects, second row: a row of four RGB pixels whose second
   * pixel is (0, 128, 192), against an all-zero old row and zero totals,
   * with threshold 128² + 192². That pixel's score only reaches the
   * threshold, so the row has no rectangles, and the totals take in the
   * pixel's bytes.
   */
  lemma HeightOneRowExample()
    ensures FoundRows(Rgb, 4, ZeroSums, ZeroRow, PixelRowBytes, 0, 12, PixelScore, 1, 1) == [[]]
    ensures forall k :: 0 <= k < 12 ==> RolledRows(ZeroSums, ZeroRow, PixelRowBytes, 0, 12, 1)[k] == PixelRowBytes[k]
  {
    ExampleRowHits(ZeroSums, PixelRowBytes);
    ExampleRollRow();
    assert FoundRows(Rgb, 4, ZeroSums, ZeroRow, PixelRowBytes, 0, 12, PixelScore, 1, 1)
        == [RowHits(Rgb, 4, ZeroSums, PixelRowBytes, 0, 12, PixelScore, 1)];
  }

  /** The example row alone: its score only reaches the threshold, so it has no rectangles. */
  lemma ExampleRowHits(z: seq<u32>, b: seq<byte>)
    requires z == ZeroSums && b == PixelRowBytes
    ensures RowHits(Rgb, 4, z, b, 0, 12, PixelScore, 1) == []
  {
    assert z[0..12] == z && b[0..12] == b;
    AgainstZeroTotals(z, b);
    ExampleScores(AvgDeltas(z, b));
    ExampleHits([0, PixelScore, 0, 0]);
  }

  /** No score of the example row exceeds the threshold, so there are no hits. */
  lemma ExampleHits(sc: seq<int>)
    requires sc == [0, PixelScore, 0, 0]
    ensures Hits(sc, PixelScore, 1) == []
  {
    assert forall x :: 0 <= x < |sc| ==> sc[x] <= PixelScore;
    HitsNone(sc, PixelScore, 1);
  }

  /** The example row rolled into zero totals against a zero old row: the totals take in its bytes. */
  lemma ExampleRollRow()
    ensures forall k :: 0 <= k < 12 ==> RollRow(ZeroSums, ZeroRow, PixelRowBytes, 0, 12)[k] == PixelRowBytes[k]
  {
    assert ZeroSums[0..12] == ZeroSums && ZeroRow[0..12] == ZeroRow && PixelRowBytes[0..12] == PixelRowBytes;
    assert ZeroSums[..0] == [] && ZeroSums[12..] == [];
    RolledSumsAt(ZeroSums, ZeroRow, PixelRowBytes);
  }

  /**
   * After i of numrows rows from offset off (row gy): running the rows still
   * to do from the totals s and the slots res gives the totals rolled and the
   * slots found, row by row. Each slot still to do is nil (here []) until its
   * row fills it.
   */
  ghost predicate Remaining(kind: FinderKind, n: nat, stride: int, t: int, oldb: seq<byte>, newb: seq<byte>,
                            s: seq<u32>, res: seq<seq<Rectangle>>, i: int, numrows: int, off: int, gy: int,
                            found: seq<seq<Rectangle>>, rolled: seq<u32>)
    decreases numrows - i, 1
  {
    0 <= i <= numrows == |res| && FinderFits(kind, n, stride) &&
    if i == numrows then s == rolled && res == found
    else
      0 <= off && 0 <= stride && off + stride <= |s| && off + stride <= |oldb| && off + stride <= |newb| && res[i] == [] &&
      RemainingAfter(kind, n, stride, t, oldb, newb, s, res, i, numrows, off, gy, found, rolled)
  }

  /** Remaining from the row after the one at off, once that row has filled slot i and rolled the totals. */
  ghost predicate RemainingAfter(kind: FinderKind, n: nat, stride: int, t: int, oldb: seq<byte>, newb: seq<byte>,
                                 s: seq<u32>, res: seq<seq<Rectangle>>, i: int, numrows: int, off: int, gy: int,
                                 found: seq<seq<Rectangle>>, rolled: seq<u32>)
    requires 0 <= i < numrows == |res| && FinderFits(kind, n, stride)
    requires 0 <= off && 0 <= stride && off + stride <= |s| && off + stride <= |oldb| && off + stride <= |newb|
    decreases numrows - i, 0
  {
    Remaining(kind, n, stride, t, oldb, newb, RollRow(s, oldb, newb, off, stride),
              res[i := RowHits(kind, n, s, newb, off, stride, t, gy)], i + 1, numrows, off + stride, gy + 1, found, rolled)
  }

  /** Remaining one row on: that row fills slot i and rolls the totals. */
  lemma RemainingNext(kind: FinderKind, n: nat, stride: int, t: int, oldb: seq<byte>, newb: seq<byte>,
                      s: seq<u32>, res: seq<seq<Rectangle>>, i: int, numrows: int, off: int, gy: int,
                      found: seq<seq<Rectangle>>, rolled: seq<u32>)
    requires Remaining(kind, n, stride, t, oldb, newb, s, res, i, numrows, off, gy, found, rolled) && i < numrows
    ensures 0 <= off && 0 <= stride && off + stride <= |s| && off + stride <= |oldb| && off + stride <= |newb| && res[i] == []
    ensures Remaining(kind, n, stride, t, oldb, newb, RollRow(s, oldb, newb, off, stride),
                      res[i := RowHits(kind, n, s, newb, off, stride, t, gy)], i + 1, numrows, off + stride, gy + 1, found, rolled)
  {
  }

  /** Remaining one row on, for totals and slots equal to the rolled and filled ones. */
  lemma RemainingMoved(kind: FinderKind, n: nat, stride: int, t: int, oldb: seq<byte>, newb: seq<byte>,
                       s: seq<u32>, res: seq<seq<Rectangle>>, i: int, numrows: int, off: int, gy: int,
                       found: seq<seq<Rectangle>>, rolled: seq<u32>, s': seq<u32>, res': seq<seq<Rectangle>>)
    requires Remaining(kind, n, stride, t, oldb, newb, s, res, i, numrows, off, gy, found, rolled) && i < numrows
    requires 0 <= off && 0 <= stride && off + stride <= |s| && off + stride <= |oldb| && off + stride <= |newb|
    requires s' == RollRow(s, oldb, newb, off, stride) && res' == res[i := RowHits(kind, n, s, newb, off, stride, t, gy)]
    ensures Remaining(kind, n, stride, t, oldb, newb, s', res', i + 1, numrows, off + stride, gy + 1, found, rolled)
  {
    RemainingNext(kind, n, stride, t, oldb, newb, s, res, i, numrows, off, gy, found, rolled);
  }

  /**
   * Filling slot i of res with row, when res holds empty from slot i on and found
   * is res up to i, then row, then rest: found is the filled res up to i + 1, then
   * rest.
   */
  lemma SlotCarry<T>(res: seq<T>, i: int, row: T, rest: seq<T>, found: seq<T>, empty: T)
    requires 0 <= i < |res| && (forall k :: i <= k < |res| ==> res[k] == empty)
    requires found == res[..i] + ([row] + rest)
    ensures res[i] == empty
    ensures found == res[i := row][..i + 1] + rest
  {
    assert res[i := row][..i + 1] == res[..i] + [row];
  }

  /** Rows that fit from off fit one row on, once the row at off is taken. */
  lemma RowsFitStep(off: int, stride: int, count: nat, len: int)
    requires RowsFit(off, stride, count, len) && count > 0
    ensures 0 <= off && 0 <= stride && off + stride <= len && RowsFit(off + stride, stride, count - 1, len)
  {
  }

  /** One row of RolledRows: roll the row at off, then the rows after it. */
  lemma RolledStep(s: seq<u32>, oldb: seq<byte>, newb: seq<byte>, off: int, stride: int, count: nat)
    requires count > 0
    requires RowsFit(off, stride, count, |s|) && RowsFit(off, stride, count, |oldb|) && RowsFit(off, stride, count, |newb|)
    ensures 0 <= off && 0 <= stride && off + stride <= |s| && off + stride <= |oldb| && off + stride <= |newb|
    ensures RolledRows(s, oldb, newb, off, stride, count)
         == RolledRows(RollRow(s, oldb, newb, off, stride), oldb, newb, off + stride, stride, count - 1)
  {
  }

  /** Remaining at slot i follows from Remaining after the row at off fills it. */
  lemma RemainingIntro(kind: FinderKind, n: nat, stride: int, t: int, oldb: seq<byte>, newb: seq<byte>,
                       s: seq<u32>, res: seq<seq<Rectangle>>, i: int, numrows: int, off: int, gy: int,
                       found: seq<seq<Rectangle>>, rolled: seq<u32>)
    requires 0 <= i < numrows == |res| && FinderFits(kind, n, stride)
    requires 0 <= off && 0 <= stride && off + stride <= |s| && off + stride <= |oldb| && off + stride <= |newb| && res[i] == []
    requires Remaining(kind, n, stride, t, oldb, newb, RollRow(s, oldb, newb, off, stride),
                       res[i := RowHits(kind, n, s, newb, off, stride, t, gy)], i + 1, numrows, off + stride, gy + 1, found, rolled)
    ensures Remaining(kind, n, stride, t, oldb, newb, s, res, i, numrows, off, gy, found, rolled)
  {
  }

  /**
   * The rows ahead all at once are the rows ahead one by one: when found is the
   * slots before i followed by FoundRows of the rest, and rolled is RolledRows
   * of the rest, the rows from slot i on leave exactly found and rolled.
   */
  lemma {:induction false} RemainingFrom(kind: FinderKind, n: nat, stride: int, t: int, oldb: seq<byte>, newb: seq<byte>,
                                         s: seq<u32>, res: seq<seq<Rectangle>>, i: int, numrows: int, count: nat,
                                         off: int, gy: int, found: seq<seq<Rectangle>>, rolled: seq<u32>)
    requires 0 <= i <= numrows == |res| && count == numrows - i && FinderFits(kind, n, stride)
    requires RowsFit(off, stride, count, |s|) && RowsFit(off, stride, count, |oldb|) && RowsFit(off, stride, count, |newb|)
    requires forall k :: i <= k < numrows ==> res[k] == []
    requires found == res[..i] + FoundRows(kind, n, s, oldb, newb, off, stride, t, gy, count)
    requires rolled == RolledRows(s, oldb, newb, off, stride, count)
    ensures Remaining(kind, n, stride, t, oldb, newb, s, res, i, numrows, off, gy, found, rolled)
    decreases count
  {
    if count == 0 {
      RemainingDone(kind, n, stride, t, oldb, newb, s, res, i, numrows, off, gy, found, rolled);
    } else {
      FoundNext(kind, n, stride, t, oldb, newb, s, res, i, numrows, count, off, gy, found);
      RolledNext(s, oldb, newb, off, stride, count, rolled);
      RemainingFrom(kind, n, stride, t, oldb, newb, RollRow(s, oldb, newb, off, stride),
                    res[i := RowHits(kind, n, s, newb, off, stride, t, gy)], i + 1, numrows, count - 1,
                    off + stride, gy + 1, found, rolled);
      RemainingIntro(kind, n, stride, t, oldb, newb, s, res, i, numrows, off, gy, found, rolled);
    }
  }

  /** No rows left: the slots are all found and the totals all rolled. */
  lemma RemainingDone(kind: FinderKind, n: nat, stride: int, t: int, oldb: seq<byte>, newb: seq<byte>,
                      s: seq<u32>, res: seq<seq<Rectangle>>, i: int, numrows: int, off: int, gy: int,
                      found: seq<seq<Rectangle>>, rolled: seq<u32>)
    requires i == numrows == |res| && FinderFits(kind, n, stride)
    requires found == res[..i] + FoundRows(kind, n, s, oldb, newb, off, stride, t, gy, 0)
    requires rolled == RolledRows(s, oldb, newb, off, stride, 0)
    ensures Remaining(kind, n, stride, t, oldb, newb, s, res, i, numrows, off, gy, found, rolled)
  {
    assert res[..i] == res;
  }

  /** Rows that fit from off still fit, one row on, in the totals that row rolls. */
  lemma RowsFitNext(s: seq<u32>, oldb: seq<byte>, newb: seq<byte>, off: int, stride: int, count: nat)
    requires count > 0
    requires RowsFit(off, stride, count, |s|) && RowsFit(off, stride, count, |oldb|) && RowsFit(off, stride, count, |newb|)
    ensures 0 <= off && 0 <= stride && off + stride <= |s| && off + stride <= |oldb| && off + stride <= |newb|
    ensures RowsFit(off + stride, stride, count - 1, |RollRow(s, oldb, newb, off, stride)|)
    ensures RowsFit(off + stride, stride, count - 1, |oldb|) && RowsFit(off + stride, stride, count - 1, |newb|)
  {
    RowsFitStep(off, stride, count, |s|);
    RowsFitStep(off, stride, count, |oldb|);
    RowsFitStep(off, stride, count, |newb|);
  }

  /** The slots found so far, then FoundRows of the rest, one row on: slot i now holds that row's hits. */
  lemma FoundNext(kind: FinderKind, n: nat, stride: int, t: int, oldb: seq<byte>, newb: seq<byte>,
                  s: seq<u32>, res: seq<seq<Rectangle>>, i: int, numrows: int, count: nat, off: int, gy: int,
                  found: seq<seq<Rectangle>>)
    requires 0 <= i < numrows == |res| && count == numrows - i && FinderFits(kind, n, stride)
    requires RowsFit(off, stride, count, |s|) && RowsFit(off, stride, count, |oldb|) && RowsFit(off, stride, count, |newb|)
    requires forall k :: i <= k < numrows ==> res[k] == []
    requires found == res[..i] + FoundRows(kind, n, s, oldb, newb, off, stride, t, gy, count)
    ensures 0 <= off && 0 <= stride && off + stride <= |s| && off + stride <= |oldb| && off + stride <= |newb| && res[i] == []
    ensures RowsFit(off + stride, stride, count - 1, |RollRow(s, oldb, newb, off, stride)|)
    ensures RowsFit(off + stride, stride, count - 1, |oldb|) && RowsFit(off + stride, stride, count - 1, |newb|)
    ensures found == res[i := RowHits(kind, n, s, newb, off, stride, t, gy)][..i + 1] +
                     FoundRows(kind, n, RollRow(s, oldb, newb, off, stride), oldb, newb, off + stride, stride, t, gy + 1, count - 1)
  {
    RowsFitNext(s, oldb, newb, off, stride, count);
    var row := RowHits(kind, n, s, newb, off, stride, t, gy);
    var rest := FoundRows(kind, n, RollRow(s, oldb, newb, off, stride), oldb, newb, off + stride, stride, t, gy + 1, count - 1);
    FoundStep(kind, n, s, oldb, newb, off, stride, t, gy, count, row, rest);
    SlotCarry(res, i, row, rest, found, []);
  }

  /** The totals RolledRows leaves, one row on: the rest rolled from the totals that row rolls. */
  lemma RolledNext(s: seq<u32>, oldb: seq<byte>, newb: seq<byte>, off: int, stride: int, count: nat, rolled: seq<u32>)
    requires count > 0
    requires RowsFit(off, stride, count, |s|) && RowsFit(off, stride, count, |oldb|) && RowsFit(off, stride, count, |newb|)
    requires rolled == RolledRows(s, oldb, newb, off, stride, count)
    ensures 0 <= off && 0 <= stride && off + stride <= |s| && off + stride <= |oldb| && off + stride <= |newb|
    ensures RowsFit(off + stride, stride, count - 1, |RollRow(s, oldb, newb, off, stride)|)
    ensures RowsFit(off + stride, stride, count - 1, |oldb|) && RowsFit(off + stride, stride, count - 1, |newb|)
    ensures rolled == RolledRows(RollRow(s, oldb, newb, off, stride), oldb, newb, off + stride, stride, count - 1)
  {
    RowsFitNext(s, oldb, newb, off, stride, count);
    RolledStep(s, oldb, newb, off, stride, count);
  }

  /** One row of FoundRows: its hits against the current totals, then the rows after it against the rolled totals. */
  lemma FoundStep(kind: FinderKind, n: nat, s: seq<u32>, oldb: seq<byte>, newb: seq<byte>, off: int, stride: int,
                  t: int, y: int, count: nat, row: seq<Rectangle>, rest: seq<seq<Rectangle>>)
    requires count > 0 && FinderFits(kind, n, stride)
    requires RowsFit(off, stride, count, |s|) && RowsFit(off, stride, count, |oldb|) && RowsFit(off, stride, count, |newb|)
    requires row == RowHits(kind, n, s, newb, off, stride, t, y)
    requires rest == FoundRows(kind, n, RollRow(s, oldb, newb, off, stride), oldb, newb, off + stride, stride, t, y + 1, count - 1)
    ensures FoundRows(kind, n, s, oldb, newb, off, stride, t, y, count) == [row] + rest
  {
  }

  /** The hits of a row's scores are that row's RowHits. */
  lemma RowHitsOf(kind: FinderKind, n: nat, s: seq<u32>, newb: seq<byte>, off: int, d: seq<int>,
                  rects: seq<Rectangle>, t: int, y: int)
    requires 0 <= off && off + |d| <= |s| && off + |d| <= |newb| && FinderFits(kind, n, |d|)
    requires d == RowDeltas(s, newb, off, |d|)
    requires rects == Hits(Scores(kind, d, n), t, y)
    ensures rects == RowHits(kind, n, s, newb, off, |d|, t, y)
  {
  }

  /** rollSumDelta on the row of n bytes at off: the totals become RollRow's, the deltas RowDeltas'. */
  method RollRowOf(sums: array<u32>, off: int, n: int, newb: seq<byte>, delta: array<int>, oldb: seq<byte>,
                   ghost ob: seq<byte>, ghost nb: seq<byte>)
    requires 0 <= off && 0 <= n && off + n <= sums.Length && off + n <= |ob| && off + n <= |nb| && delta.Length == n
    requires newb == nb[off..off + n] && oldb == ob[off..off + n]
    modifies sums, delta
    ensures sums[..] == RollRow(old(sums[..]), ob, nb, off, n)
    ensures delta[..] == RowDeltas(old(sums[..]), nb, off, n)
  {
    ghost var s0 := sums[..];
    assert s0[off..off + n] == sums[off..off + n];
    RollSumDelta(sums, off, n, newb, delta, oldb);
    assert delta[..] == delta[..n];
    RolledRow(s0, sums[..], ob, nb, off, n);
  }

  /** Rolling one row through RollSumDelta leaves the totals RollRow describes. */
  lemma RolledRow(s0: seq<u32>, s: seq<u32>, oldb: seq<byte>, newb: seq<byte>, start: int, n: int)
    requires 0 <= start && 0 <= n && start + n <= |s0| == |s| && start + n <= |oldb| && start + n <= |newb|
    requires s[..start] == s0[..start] && s[start + n..] == s0[start + n..]
    requires s[start..start + n] == RolledSums(s0[start..start + n], oldb[start..start + n], newb[start..start + n])
    ensures s == RollRow(s0, oldb, newb, start, n)
  {
    assert s == s[..start] + s[start..start + n] + s[start + n..];
  }
}
