/**
 * motion/tracker.go: the Tracker fed one frame at a time. It keeps the last
 * LAVGN frames in a ring, the running per-byte totals of those frames, and
 * the column delta finder builder picked from the first frame's format.
 * For the first LAVGN frames it only adds to the totals; after that it
 * scores each frame against the totals, rolls the oldest frame out of them,
 * and joins the rows of rectangles it found.
 */
module MotionTracker {
  import opened Ints
  import opened Geom
  import opened Wrappers
  import opened ImgBytes
  import opened Deltas
  import opened DeltaJobs
  import Rects
  import MotionUtil
  import RingBuf

  /**
   * A frame getRects can take: YUYV bytes of an even width or RGB bytes
   * (any other format panics), not empty, holding Dy rows of Dx pixels.
   */
  ghost predicate Acceptable(ps: PixelSequence)
  {
    (ps.ib.YuyvBytes? || ps.ib.RgbBytes?) && ps.dx >= 0 && ps.dy >= 0 && |ps.ib.bytes| > 0
    && (ps.ib.YuyvBytes? ==> ps.dx % 2 == 0)
    && RowsFit(0, ps.GetStride(), ps.dy, |ps.ib.bytes|)
  }

  /** The builder getRects picks from the first frame: YUYV or RGB columns, Dx of them. */
  function BuilderFor(ps: PixelSequence): (b: FinderBuilder)
    requires ps.ib.YuyvBytes? || ps.ib.RgbBytes?
    ensures b.Builder? && b.width == ps.dx
    ensures ps.dx >= 0 && (ps.ib.YuyvBytes? ==> ps.dx % 2 == 0) ==> FinderFits(b.kind, b.width, ps.GetStride())
  {
    if ps.ib.YuyvBytes? then Builder(Yuv, ps.dx) else Builder(Rgb, ps.dx)
  }

  /** A frame of the format, width and byte length the tracker was set up with. */
  ghost predicate Matches(ps: PixelSequence, b: FinderBuilder, n: int)
  {
    Acceptable(ps) && BuilderFor(ps) == b && |ps.ib.bytes| == n
  }

  ghost predicate AllMatch(frames: seq<PixelSequence>, b: FinderBuilder, n: int)
  {
    forall k :: 0 <= k < |frames| ==> Matches(frames[k], b, n)
  }

  /** Queueing a matching frame, or dropping the oldest, keeps every queued frame matching. */
  lemma AllMatchAppend(q: seq<PixelSequence>, img: PixelSequence, b: FinderBuilder, n: int)
    requires AllMatch(q, b, n) && Matches(img, b, n)
    ensures AllMatch(q + [img], b, n)
    ensures |q| > 0 ==> AllMatch(q[1..], b, n)
  {
  }

  /** Two frames the same builder accepts have rows of the same length. */
  lemma SameStride(p: PixelSequence, q: PixelSequence, b: FinderBuilder, n: int)
    requires Matches(p, b, n) && Matches(q, b, n)
    ensures p.GetStride() == q.GetStride()
  {
  }

  /** Byte j of a frame, 0 past its end. */
  function ByteOf(f: PixelSequence, j: int): byte
  {
    if 0 <= j < |f.ib.bytes| then f.ib.bytes[j] else 0
  }

  /** The total of byte j over the frames: what longSums[j] stands for, over the frames in the ring. */
  function WindowSum(frames: seq<PixelSequence>, j: int): (s: int)
    ensures 0 <= s <= 0xFF * |frames|
  {
    if |frames| == 0 then 0 else WindowSum(frames[..|frames| - 1], j) + ByteOf(frames[|frames| - 1], j)
  }

  /** A frame queued last adds its byte to the total. */
  lemma WindowSumAppend(frames: seq<PixelSequence>, f: PixelSequence, j: int)
    ensures WindowSum(frames + [f], j) == WindowSum(frames, j) + ByteOf(f, j)
  {
    assert (frames + [f])[..|frames|] == frames;
  }

  /** The oldest frame's byte is one term of the total: dropping the frame takes it off. */
  lemma {:induction false} WindowSumDropFirst(frames: seq<PixelSequence>, j: int)
    requires |frames| > 0
    ensures WindowSum(frames, j) == ByteOf(frames[0], j) + WindowSum(frames[1..], j)
  {
    if |frames| == 1 {
      assert frames[1..] == [];
    } else {
      var front := frames[..|frames| - 1];
      WindowSumDropFirst(front, j);
      assert front[1..] == frames[1..][..|frames| - 2];
    }
  }

  /** The first `span` totals are the totals of their byte over the frames. */
  ghost predicate SumsOf(s: seq<u32>, frames: seq<PixelSequence>, span: int)
  {
    0 <= span <= |s| && forall j :: 0 <= j < span ==> s[j] == WindowSum(frames, j)
  }

  /**
   * While the ring fills: adding img to the totals of the frames so far
   * (`lnsumslc.add`) gives the totals of those frames and img. The total
   * stays below 2^32, so nothing wraps.
   */
  lemma AddedWindow(frames: seq<PixelSequence>, img: PixelSequence, s0: seq<u32>, s: seq<u32>, span: int)
    requires |frames| < LAVGN && |img.ib.bytes| >= |s0| && SumsOf(s0, frames, span)
    requires s == RolledSums(s0, Zeros(|s0|), img.ib.bytes)
    ensures SumsOf(s, frames + [img], span)
  {
    RolledSumsAt(s0, Zeros(|s0|), img.ib.bytes);
    forall j | 0 <= j < span
      ensures s[j] == WindowSum(frames + [img], j)
    {
      WindowSumAppend(frames, img, j);
    }
  }

  /**
   * Once the ring is full: rolling the oldest frame out of the totals and
   * img in (the rows buildHeightOneRects covers) gives, on the bytes of
   * those rows, the totals of the ring without its oldest frame and with
   * img. Each total stays within 0 .. LAVGN·255, so nothing wraps.
   */
  lemma RolledWindow(frames: seq<PixelSequence>, img: PixelSequence, s0: seq<u32>, s: seq<u32>, span: int,
                     stride: int, count: nat)
    requires |frames| == LAVGN && SumsOf(s0, frames, span)
    requires |frames[0].ib.bytes| == |s0| && |img.ib.bytes| == |s0|
    requires RowsFit(0, stride, count, |s0|)
    requires s == RolledRows(s0, frames[0].ib.bytes, img.ib.bytes, 0, stride, count)
    ensures SumsOf(s, frames[1..] + [img], StillSummed(span, count * stride))
  {
    var rolled := count * stride;
    if count > 0 {
      RowsFitEnd(0, stride, count, |s0|);
    } else {
      assert rolled == 0;
    }
    var kept := StillSummed(span, rolled);
    assert 0 <= kept <= span;
    forall j | 0 <= j < kept
      ensures s[j] == WindowSum(frames[1..] + [img], j)
    {
      RolledByte(frames, img, s0, s, stride, count, j);
    }
  }

  /** RolledWindow for one byte j of the rolled rows. */
  lemma RolledByte(frames: seq<PixelSequence>, img: PixelSequence, s0: seq<u32>, s: seq<u32>, stride: int, count: nat, j: int)
    requires |frames| == LAVGN && |frames[0].ib.bytes| == |s0| && |img.ib.bytes| == |s0|
    requires RowsFit(0, stride, count, |s0|) && 0 <= j < |s0| && j < count * stride && s0[j] == WindowSum(frames, j)
    requires s == RolledRows(s0, frames[0].ib.bytes, img.ib.bytes, 0, stride, count)
    ensures s[j] == WindowSum(frames[1..] + [img], j)
  {
    var o := frames[0];
    RolledRowsAt(s0, o.ib.bytes, img.ib.bytes, 0, stride, count, j);
    assert s[j] == Roll(s0[j], o.ib.bytes[j], img.ib.bytes[j]);
    WindowSumDropFirst(frames, j);
    WindowSumAppend(frames[1..], img, j);
  }

  /** The totals still known after a roll that covered the first `rolled` bytes. */
  function StillSummed(span: int, rolled: int): int
  {
    if rolled < span then rolled else span
  }

  class Tracker {
    var frameNum: int
    const frameRing: RingBuf.RingBuf<PixelSequence>
    var longSums: array<u32>
    var cdfb: FinderBuilder
    /** How many leading totals are known to be the totals of the ring's frames. */
    ghost var span: int

    /**
     * The tracker's shape (Shaped) and the meaning of its totals (Summed):
     * longSums[j] is the total of byte j over the frames in the ring.
     */
    ghost predicate Valid()
      reads this, frameRing, frameRing.data, longSums
    {
      Shaped() && Summed()
    }

    /**
     * The ring has LAVGN slots and holds the last min(frameNum, LAVGN)
     * frames; the totals and the builder are set exactly once a frame has
     * come, and every frame in the ring has that builder's format and the
     * totals' length.
     */
    ghost predicate Shaped()
      reads this, frameRing, frameRing.data
    {
      frameRing.Valid() && frameRing.data.Length == LAVGN && frameNum >= 0
      && frameRing.cnt == (if frameNum < LAVGN then frameNum else LAVGN)
      && (frameNum < LAVGN ==> frameRing.i == 0)
      && (frameNum == 0 <==> cdfb == NoBuilder)
      && (longSums.Length == 0 <==> cdfb == NoBuilder)
      && AllMatch(frameRing.Contents(), cdfb, longSums.Length)
    }

    /**
     * The first `span` totals are the totals of their byte over the frames
     * in the ring: all of them until the first frame rolls out, and after
     * that the bytes of the rows every roll has covered (all rows, when
     * every frame has the first one's height).
     */
    ghost predicate Summed()
      reads this, frameRing, frameRing.data, longSums
    {
      frameRing.Valid() && SumsOf(longSums[..], frameRing.Contents(), span)
      && (frameNum <= LAVGN ==> span == longSums.Length)
    }

    /** Shaped as it is from the first frame on: totals and builder set, every queued frame of their shape. */
    ghost predicate Ready()
      reads this, frameRing, frameRing.data
    {
      frameRing.Valid() && frameRing.data.Length == LAVGN && frameNum >= 0
      && frameRing.cnt == (if frameNum < LAVGN then frameNum else LAVGN)
      && (frameNum < LAVGN ==> frameRing.i == 0)
      && longSums.Length > 0 && cdfb.Builder?
      && AllMatch(frameRing.Contents(), cdfb, longSums.Length)
    }

    /** `NewTracker`: no frames, a ring of LAVGN slots, no totals, no builder. */
    constructor ()
      ensures Valid() && fresh(frameRing) && fresh(frameRing.data)
      ensures frameNum == 0 && frameRing.Contents() == [] && longSums.Length == 0 && cdfb == NoBuilder
    {
      frameNum := 0;
      frameRing := new RingBuf.RingBuf<PixelSequence>(LAVGN);
      longSums := new u32[0];
      cdfb := NoBuilder;
      span := 0;
    }

    /**
     * `roll(img)`: the oldest frame when the ring is full (its place taken
     * by img), nothing otherwise (img appended); either way one more frame.
     */
    method Roll(img: PixelSequence) returns (o: Option<PixelSequence>)
      requires Ready() && Matches(img, cdfb, longSums.Length)
      modifies this, frameRing, frameRing.data
      ensures Ready() && Shaped() && frameNum == old(frameNum) + 1
      ensures longSums == old(longSums) && cdfb == old(cdfb) && span == old(span)
      ensures old(frameRing.cnt) == LAVGN ==>
                o == Some(old(frameRing.Contents())[0]) && frameRing.Contents() == old(frameRing.Contents())[1..] + [img]
      ensures old(frameRing.cnt) < LAVGN ==> o == None && frameRing.Contents() == old(frameRing.Contents()) + [img]
    {
      if frameRing.Size() == LAVGN {
        o := Some(frameRing.Peek());
      } else {
        o := None;
      }
      // the deferred part, run once the result is fixed
      if frameRing.Size() == LAVGN {
        frameRing.Dequeue();
      }
      ghost var q := frameRing.Contents();
      var overflow := frameRing.Enqueue(img);
      frameNum := frameNum + 1;
      AllMatchAppend(q, img, cdfb, longSums.Length);
    }

    /**
     * Slot s has held a frame since NewTracker: the ring fills from slot 0
     * on, and every slot once LAVGN frames have come. The other slots still
     * hold Go's nil.
     */
    ghost predicate Written(s: int)
      reads this
    {
      frameNum >= LAVGN || s < frameNum
    }

    /**
     * `getOldFrame(n)`: slot (i + cnt + LAVGN - n) mod LAVGN, Go's `%`, which
     * for 1 <= n <= cnt is the frame added n frames ago. None where the
     * source panics: a negative remainder indexes before the slice, and the
     * `.(imgseq.Img)` assertion fails on a slot never written (nil).
     */
    method GetOldFrame(n: int) returns (f: Option<PixelSequence>)
      requires Valid()
      ensures var s := Rem(frameRing.i + frameRing.cnt + (LAVGN - n), LAVGN);
        if 0 <= s && Written(s) then f == Some(frameRing.data[s]) else f == None
      ensures 1 <= n <= frameRing.cnt ==> f == Some(frameRing.Contents()[frameRing.cnt - n])
    {
      var s := Rem(frameRing.i + frameRing.cnt + (LAVGN - n), LAVGN);
      if s < 0 || !(frameNum >= LAVGN || s < frameNum) {
        return None;
      }
      f := Some(frameRing.data[s]);
      if 1 <= n <= frameRing.cnt {
        var x := frameRing.i + frameRing.cnt - n;
        assert (x + LAVGN) % LAVGN == x % LAVGN;
        RingBuf.ViewAt(frameRing.data[..], frameRing.i, frameRing.cnt, frameRing.cnt - n);
      }
    }

    /** The totals a warm-up frame is added to: zeros on the first frame, longSums after it. */
    ghost function Totals(n: nat): seq<u32>
      reads this, longSums
    {
      if longSums.Length == 0 then seq(n, _ => 0) else longSums[..]
    }

    /**
     * Once the ring is full, the average a frame's byte j is scored against
     * (`lnsum.div` of total j) is the mean of byte j over the LAVGN frames
     * in the ring, rounded down.
     */
    lemma WindowAverage(j: int)
      requires Valid() && frameRing.cnt == LAVGN && 0 <= j < span
      ensures Div(longSums[j]) == WindowSum(frameRing.Contents(), j) / LAVGN
    {
    }

    /** The frame the next `roll` hands back once the ring is full. */
    ghost function Oldest(): PixelSequence
      reads this, frameRing, frameRing.data
      requires Shaped() && frameRing.cnt > 0
    {
      frameRing.Contents()[0]
    }

    /** The rows buildHeightOneRects finds in img, against the oldest frame and the current totals. */
    ghost function SteadyRows(img: PixelSequence, t: int): seq<seq<Rectangle>>
      reads this, frameRing, frameRing.data, longSums
      requires Valid() && frameRing.cnt == LAVGN && Matches(img, cdfb, longSums.Length)
    {
      var o := Oldest();
      SameStride(o, img, cdfb, longSums.Length);
      FoundRows(cdfb.kind, cdfb.width, longSums[..], o.ib.bytes, img.ib.bytes, 0, img.GetStride(), t, 0, o.dy)
    }

    /** The totals buildHeightOneRects leaves: every row of the oldest frame swapped for img's. */
    ghost function SteadySums(img: PixelSequence): seq<u32>
      reads this, frameRing, frameRing.data, longSums
      requires Valid() && frameRing.cnt == LAVGN && Matches(img, cdfb, longSums.Length)
    {
      var o := Oldest();
      SameStride(o, img, cdfb, longSums.Length);
      RolledRows(longSums[..], o.ib.bytes, img.ib.bytes, 0, img.GetStride(), o.dy)
    }

    /**
     * The first-frame part of getRects: totals as long as img's bytes, all
     * zero, and the builder for img's format. Later frames keep both.
     */
    method Prepare(img: PixelSequence)
      requires Valid() && Acceptable(img)
      requires longSums.Length > 0 ==> Matches(img, cdfb, longSums.Length)
      modifies this
      ensures Ready() && Summed() && frameNum == old(frameNum) && Matches(img, cdfb, longSums.Length)
      ensures longSums[..] == old(Totals(|img.ib.bytes|))
      ensures frameRing.Contents() == old(frameRing.Contents())
      ensures old(longSums.Length) == 0 ==> span == |img.ib.bytes|
      ensures old(longSums.Length) > 0 ==> span == old(span)
      ensures old(longSums.Length) == 0 ==> fresh(longSums)
      ensures old(longSums.Length) > 0 ==> longSums == old(longSums) && cdfb == old(cdfb)
    {
      if longSums.Length == 0 {
        longSums := new u32[|img.ib.bytes|](_ => 0);
        cdfb := BuilderFor(img);
        span := |img.ib.bytes|;
        assert longSums[..] == seq(|img.ib.bytes|, _ => 0);
        assert frameRing.Contents() == [];
        assert SumsOf(longSums[..], frameRing.Contents(), span);
      }
    }

    /**
     * `getRects(img, t)`. The first frame sizes the totals to its bytes and
     * picks the builder from its format. While the ring is filling, img is
     * added to the totals and no rows come back; once it is full, img is
     * scored row by row against the totals while the oldest frame rolls out.
     */
    method GetRows(img: PixelSequence, t: int) returns (rows: seq<seq<Rectangle>>)
      requires Valid() && Acceptable(img)
      requires longSums.Length > 0 ==> Matches(img, cdfb, longSums.Length)
      modifies this, frameRing, frameRing.data, longSums
      ensures Valid() && frameNum == old(frameNum) + 1 && Matches(img, cdfb, longSums.Length)
      ensures old(longSums.Length) == 0 ==> fresh(longSums)
      ensures old(longSums.Length) > 0 ==> longSums == old(longSums) && cdfb == old(cdfb)
      ensures old(frameRing.cnt) < LAVGN ==>
                rows == [] && frameRing.Contents() == old(frameRing.Contents()) + [img] &&
                longSums[..] == RolledSums(old(Totals(|img.ib.bytes|)), Zeros(|img.ib.bytes|), img.ib.bytes)
      ensures old(frameRing.cnt) == LAVGN ==>
                rows == old(SteadyRows(img, t)) && longSums[..] == old(SteadySums(img)) &&
                frameRing.Contents() == old(frameRing.Contents())[1..] + [img]
      ensures old(frameRing.cnt) == LAVGN ==> span == StillSummed(old(span), old(Oldest()).dy * img.GetStride())
    {
      Prepare(img);
      ghost var frames, s0 := frameRing.Contents(), longSums[..];
      var leaving := Roll(img);
      match leaving
      case Some(o) =>
        rows := RollOut(o, img, t, frames);
      case None =>
        AddIn(img, frames);
        rows := [];
    }

    /**
     * getRects once the ring is full, after `roll`: img scored row by row
     * against the totals while o, the frame that left the ring, rolls out
     * of them; the rolled rows' totals stay those of the ring.
     */
    method RollOut(o: PixelSequence, img: PixelSequence, t: int, ghost frames: seq<PixelSequence>)
      returns (rows: seq<seq<Rectangle>>)
      requires Ready() && Shaped() && frameNum > LAVGN
      requires |frames| == LAVGN && o == frames[0] && frameRing.Contents() == frames[1..] + [img]
      requires Matches(o, cdfb, longSums.Length) && Matches(img, cdfb, longSums.Length)
      requires SumsOf(longSums[..], frames, span)
      modifies this`span, longSums
      ensures Valid()
      ensures rows == FoundRows(cdfb.kind, cdfb.width, old(longSums[..]), o.ib.bytes, img.ib.bytes, 0, img.GetStride(), t, 0, o.dy)
      ensures longSums[..] == RolledRows(old(longSums[..]), o.ib.bytes, img.ib.bytes, 0, img.GetStride(), o.dy)
      ensures span == StillSummed(old(span), o.dy * img.GetStride())
    {
      ghost var s0 := longSums[..];
      SameStride(o, img, cdfb, longSums.Length);
      var rrs := BuildHeightOneRects(o, img, longSums, t, cdfb);
      rows := rrs[..];
      RolledWindow(frames, img, s0, longSums[..], span, img.GetStride(), o.dy);
      span := StillSummed(span, o.dy * img.GetStride());
    }

    /** getRects while the ring fills, after `roll`: img added to the totals, which stay those of the ring. */
    method AddIn(img: PixelSequence, ghost frames: seq<PixelSequence>)
      requires Ready() && Shaped() && frameNum <= LAVGN
      requires |frames| < LAVGN && frameRing.Contents() == frames + [img] && Matches(img, cdfb, longSums.Length)
      requires SumsOf(longSums[..], frames, span) && span == longSums.Length
      modifies longSums
      ensures Valid()
      ensures longSums[..] == RolledSums(old(longSums[..]), Zeros(longSums.Length), img.ib.bytes)
    {
      ghost var s0 := longSums[..];
      Add(longSums, img.ib.bytes);
      AddedWindow(frames, img, s0, longSums[..], span);
    }

    /**
     * `GetRects(img, t)`: nothing while the ring fills; then the connected
     * rectangles of the rows getRects found, and never nil.
     */
    method GetRects(img: PixelSequence, t: int) returns (rects: seq<Rectangle>)
      requires Valid() && Acceptable(img)
      requires longSums.Length > 0 ==> Matches(img, cdfb, longSums.Length)
      modifies this, frameRing, frameRing.data, longSums
      ensures Valid() && frameNum == old(frameNum) + 1 && Matches(img, cdfb, longSums.Length)
      ensures old(longSums.Length) == 0 ==> fresh(longSums)
      ensures old(longSums.Length) > 0 ==> longSums == old(longSums) && cdfb == old(cdfb)
      ensures old(frameRing.cnt) < LAVGN ==>
                rects == [] && frameRing.Contents() == old(frameRing.Contents()) + [img] &&
                longSums[..] == RolledSums(old(Totals(|img.ib.bytes|)), Zeros(|img.ib.bytes|), img.ib.bytes)
      ensures old(frameRing.cnt) == LAVGN ==>
                rects == Rects.Connected(img.dx, old(SteadyRows(img, t))) && longSums[..] == old(SteadySums(img)) &&
                frameRing.Contents() == old(frameRing.Contents())[1..] + [img]
      ensures old(frameRing.cnt) == LAVGN ==> span == StillSummed(old(span), old(Oldest()).dy * img.GetStride())
    {
      ghost var steady := old(frameRing.cnt) == LAVGN;
      var odrs := GetRows(img, t);
      if |odrs| > 0 {
        RowsFitJoiner(cdfb.kind, cdfb.width, old(longSums[..]), old(Oldest()).ib.bytes, img.ib.bytes, img.GetStride(), t, odrs);
        var rs := Rects.FindConnectedRects(img.dx, odrs);
        if |rs| > 0 {
          return rs;
        }
      }
      if steady {
        assert odrs == [] ==> Rects.Connected(img.dx, odrs) == [];
      }
      rects := [];
    }
  }

  /** Rows found by the delta finder have the RowRects shape and fit the joiner's columns. */
  lemma RowsFitJoiner(kind: FinderKind, n: nat, s: seq<u32>, oldb: seq<byte>, newb: seq<byte>, stride: int, t: int,
                      rows: seq<seq<Rectangle>>)
    requires RowsFit(0, stride, |rows|, |s|) && RowsFit(0, stride, |rows|, |oldb|) && RowsFit(0, stride, |rows|, |newb|)
    requires FinderFits(kind, n, stride)
    requires rows == FoundRows(kind, n, s, oldb, newb, 0, stride, t, 0, |rows|)
    ensures forall j :: 0 <= j < |rows| ==> Rects.AllFit(rows[j], n) && MotionUtil.IsRowRects(rows[j])
  {
    forall j | 0 <= j < |rows|
      ensures Rects.AllFit(rows[j], n) && MotionUtil.IsRowRects(rows[j])
    {
      FoundRowsInRow(kind, n, s, oldb, newb, 0, stride, t, 0, |rows|, j);
      InRowFits(rows[j], j, n);
    }
  }

  /** A row of the InRow shape is a RowRects that fits the joiner's width. */
  lemma InRowFits(rs: seq<Rectangle>, y: int, w: int)
    requires InRow(rs, y, w)
    ensures Rects.AllFit(rs, w) && MotionUtil.IsRowRects(rs)
  {
  }

  /** The totals of LAVGN copies of the frame bytes b. */
  ghost predicate SteadyOn(s: seq<u32>, b: seq<byte>)
  {
    |b| >= |s| && forall k :: 0 <= k < |s| ==> s[k] == LAVGN * b[k]
  }

  /** One row of a frame scored against steady totals of itself: every delta is 0, so no rectangle. */
  lemma StillRowEmpty(kind: FinderKind, n: nat, s: seq<u32>, b: seq<byte>, off: int, stride: int, t: int, y: int)
    requires 0 <= off && 0 <= stride && off + stride <= |s| && off + stride <= |b| && FinderFits(kind, n, stride)
    requires SteadyOn(s, b) && t >= 0
    ensures RowHits(kind, n, s, b, off, stride, t, y) == []
  {
    var d := RowDeltas(s, b, off, stride);
    SteadyState(s[off..off + stride], b[off..off + stride]);
    ZeroScores(kind, d, n, t);
    HitsNone(Scores(kind, d, n), t, y);
  }

  /** Deltas all 0 score 0 in every slot. */
  lemma ZeroScores(kind: FinderKind, d: seq<int>, n: nat, t: int)
    requires FindFits(kind, d, n) && t >= 0
    requires forall k :: 0 <= k < |d| ==> d[k] == 0
    ensures forall c :: 0 <= c < n ==> Scores(kind, d, n)[c] <= t
  {
    ScoresAt(kind, d, n);
    forall c | 0 <= c < n
      ensures Scores(kind, d, n)[c] <= t
    {
      ScoreAtZero(kind, d, n, c);
    }
  }

  lemma ScoreAtZero(kind: FinderKind, d: seq<int>, n: nat, c: nat)
    requires FindFits(kind, d, n) && c < n
    requires forall k :: 0 <= k < |d| ==> d[k] == 0
    ensures ScoreAt(kind, d, n, c) == 0
  {
    match kind
    case Gray =>
    case Yuv =>
      var p := 4 * (c / 2);
      assert d[p] == 0 && d[p + 1] == 0 && d[p + 2] == 0 && d[p + 3] == 0;
    case Rgb =>
      assert d[3 * c] == 0 && d[3 * c + 1] == 0 && d[3 * c + 2] == 0;
  }

  /** Rolling a row of a frame out of steady totals of itself and back in leaves them as they were. */
  lemma StillRowRolls(s: seq<u32>, b: seq<byte>, off: int, stride: int)
    requires 0 <= off && 0 <= stride && off + stride <= |s| && off + stride <= |b|
    requires SteadyOn(s, b)
    ensures RollRow(s, b, b, off, stride) == s
  {
    SteadySlice(s, b, off, stride);
    SteadyState(s[off..off + stride], b[off..off + stride]);
    SpliceSame(s, off, stride, RolledSums(s[off..off + stride], b[off..off + stride], b[off..off + stride]));
  }

  /** A row of steady totals is steady on the row of bytes. */
  lemma SteadySlice(s: seq<u32>, b: seq<byte>, off: int, stride: int)
    requires 0 <= off && 0 <= stride && off + stride <= |s| && off + stride <= |b|
    requires SteadyOn(s, b)
    ensures SteadyOn(s[off..off + stride], b[off..off + stride])
  {
    var rs, rb := s[off..off + stride], b[off..off + stride];
    forall k | 0 <= k < |rs|
      ensures rs[k] == LAVGN * rb[k]
    {
      assert rs[k] == s[off + k] && rb[k] == b[off + k];
    }
  }

  /** Putting a row back as it was leaves the sequence unchanged. */
  lemma SpliceSame<T>(s: seq<T>, off: int, stride: int, r: seq<T>)
    requires 0 <= off && 0 <= stride && off + stride <= |s| && r == s[off..off + stride]
    ensures s[..off] + r + s[off + stride..] == s
  {
    assert s[..off] + r == s[..off + stride];
  }

  /** A frame scored against the totals of LAVGN copies of itself finds no rectangle in any row. */
  lemma {:induction false} StillRowsEmpty(kind: FinderKind, n: nat, s: seq<u32>, b: seq<byte>, off: int, stride: int,
                                          t: int, y: int, count: nat)
    requires RowsFit(off, stride, count, |s|) && RowsFit(off, stride, count, |b|) && FinderFits(kind, n, stride)
    requires SteadyOn(s, b) && t >= 0
    ensures forall j :: 0 <= j < count ==> FoundRows(kind, n, s, b, b, off, stride, t, y, count)[j] == []
    decreases count
  {
    if count > 0 {
      StillRowEmpty(kind, n, s, b, off, stride, t, y);
      StillRowRolls(s, b, off, stride);
      StillRowsEmpty(kind, n, s, b, off + stride, stride, t, y + 1, count - 1);
      var rest := FoundRows(kind, n, s, b, b, off + stride, stride, t, y + 1, count - 1);
      assert FoundRows(kind, n, s, b, b, off, stride, t, y, count) == [[]] + rest;
    }
  }

  /** Rolling every row of a frame out of the totals of LAVGN copies of itself and back in leaves them as they were. */
  lemma {:induction false} StillRowsRoll(s: seq<u32>, b: seq<byte>, off: int, stride: int, count: nat)
    requires RowsFit(off, stride, count, |s|) && RowsFit(off, stride, count, |b|)
    requires SteadyOn(s, b)
    ensures RolledRows(s, b, b, off, stride, count) == s
    decreases count
  {
    if count > 0 {
      StillRowRolls(s, b, off, stride);
      StillRowsRoll(s, b, off + stride, stride, count - 1);
    }
  }

  /** Rows with no rectangles join into nothing: the joiner stays as new. */
  lemma {:induction false} EmptyRowsJoinNothing(width: nat, rrects: seq<seq<Rectangle>>)
    requires forall i :: 0 <= i < |rrects| ==> rrects[i] == []
    ensures Rects.Rows(width, rrects) == Rects.NewJoiner(width)
    ensures Rects.Connected(width, rrects) == []
  {
    if |rrects| > 0 {
      EmptyRowsJoinNothing(width, rrects[..|rrects| - 1]);
      assert Rects.NewJoiner(width).rects + [] == [];
    }
  }

  /**
   * What GetRects returns once warmed up keeps all motion: every
   * rectangle the delta finder found lies inside one of them, and each
   * fits the frame's columns.
   */
  lemma SteadyRectsCover(kind: FinderKind, n: nat, s: seq<u32>, oldb: seq<byte>, newb: seq<byte>, stride: int,
                         t: int, count: nat)
    requires RowsFit(0, stride, count, |s|) && RowsFit(0, stride, count, |oldb|) && RowsFit(0, stride, count, |newb|)
    requires FinderFits(kind, n, stride)
    ensures var rows := FoundRows(kind, n, s, oldb, newb, 0, stride, t, 0, count);
            Rects.Covered(Rects.Boxes(rows), Rects.Connected(n, rows)) && Rects.AllFit(Rects.Connected(n, rows), n)
  {
    var rows := FoundRows(kind, n, s, oldb, newb, 0, stride, t, 0, count);
    RowsFitJoiner(kind, n, s, oldb, newb, stride, t, rows);
    Rects.ConnectedCovers(n, rows);
  }

  /**
   * TestTracker's opening: LAVGN copies of one frame fed to a new tracker
   * each give no rectangles and leave totals of LAVGN times every byte;
   * one more copy, the first one scored, still gives none and leaves the
   * totals as they were.
   */
  method StillFrames(trk: Tracker, img: PixelSequence, t: int) returns (results: seq<seq<Rectangle>>)
    requires trk.Valid() && trk.frameNum == 0 && Acceptable(img) && t >= 0
    modifies trk, trk.frameRing, trk.frameRing.data, trk.longSums
    ensures trk.Valid() && trk.frameNum == LAVGN + 1 && trk.longSums.Length == |img.ib.bytes|
    ensures forall j :: 0 <= j < |img.ib.bytes| ==> trk.longSums[j] == LAVGN * img.ib.bytes[j]
    ensures |results| == LAVGN + 1 && forall k :: 0 <= k < |results| ==> results[k] == []
  {
    results := WarmUp(trk, img, t);
    var r := StillFrame(trk, img, t);
    results := results + [r];
  }

  /** The first LAVGN copies of one frame: no rectangles, a ring of copies, totals of LAVGN times every byte. */
  method WarmUp(trk: Tracker, img: PixelSequence, t: int) returns (results: seq<seq<Rectangle>>)
    requires trk.Valid() && trk.frameNum == 0 && Acceptable(img)
    modifies trk, trk.frameRing, trk.frameRing.data, trk.longSums
    ensures trk.Valid() && trk.frameNum == LAVGN && fresh(trk.longSums) && Matches(img, trk.cdfb, trk.longSums.Length)
    ensures trk.frameRing.Contents() == seq(LAVGN, _ => img) && SteadyOn(trk.longSums[..], img.ib.bytes)
    ensures |results| == LAVGN && forall k :: 0 <= k < |results| ==> results[k] == []
  {
    var n := |img.ib.bytes|;
    results := [];
    var i := 0;
    while i < LAVGN
      invariant Warming(trk, img, i) && |results| == i
      invariant forall k :: 0 <= k < i ==> results[k] == []
      invariant i == 0 ==> trk.longSums == old(trk.longSums)
      invariant i > 0 ==> fresh(trk.longSums)
    {
      var r := WarmStep(trk, img, t, i);
      results := results + [r];
      i := i + 1;
    }
    AccumulatedFromZero(n, img.ib.bytes, LAVGN);
  }

  /** After i < LAVGN copies of img: the ring holds them and the totals are their sum. */
  ghost predicate Warming(trk: Tracker, img: PixelSequence, i: int)
    reads trk, trk.frameRing, trk.frameRing.data, trk.longSums
  {
    0 <= i <= LAVGN && trk.Valid() && trk.frameNum == i && Acceptable(img)
    && (i > 0 ==> Matches(img, trk.cdfb, trk.longSums.Length))
    && trk.Totals(|img.ib.bytes|) == Accumulated(seq(|img.ib.bytes|, _ => 0), img.ib.bytes, i)
    && trk.frameRing.Contents() == seq(i, _ => img)
  }

  /** One more copy while the ring fills: no rectangles, one more copy queued and summed. */
  method WarmStep(trk: Tracker, img: PixelSequence, t: int, ghost i: int) returns (r: seq<Rectangle>)
    requires Warming(trk, img, i) && i < LAVGN
    modifies trk, trk.frameRing, trk.frameRing.data, trk.longSums
    ensures Warming(trk, img, i + 1) && r == []
    ensures i == 0 ==> fresh(trk.longSums)
    ensures i > 0 ==> trk.longSums == old(trk.longSums)
  {
    var n := |img.ib.bytes|;
    ghost var ring := trk.frameRing.Contents();
    ghost var before := trk.Totals(n);
    r := trk.GetRects(img, t);
    AppendCopies(ring, img, i);
    assert trk.longSums[..] == RolledSums(before, Zeros(n), img.ib.bytes);
  }

  /**
   * Once the ring holds LAVGN copies of a frame and the totals are theirs,
   * one more copy gives no rectangles and leaves ring and totals as they were.
   */
  method StillFrame(trk: Tracker, img: PixelSequence, t: int) returns (rects: seq<Rectangle>)
    requires trk.Valid() && trk.frameRing.cnt == LAVGN && Matches(img, trk.cdfb, trk.longSums.Length) && t >= 0
    requires trk.frameRing.Contents() == seq(LAVGN, _ => img) && SteadyOn(trk.longSums[..], img.ib.bytes)
    modifies trk, trk.frameRing, trk.frameRing.data, trk.longSums
    ensures trk.Valid() && trk.frameNum == old(trk.frameNum) + 1 && trk.longSums == old(trk.longSums)
    ensures trk.frameRing.Contents() == seq(LAVGN, _ => img) && trk.longSums[..] == old(trk.longSums[..])
    ensures rects == []
  {
    ghost var s := trk.longSums[..];
    assert trk.Oldest() == img;
    StillRowsEmpty(trk.cdfb.kind, trk.cdfb.width, s, img.ib.bytes, 0, img.GetStride(), t, 0, img.dy);
    StillRowsRoll(s, img.ib.bytes, 0, img.GetStride(), img.dy);
    ghost var rows := trk.SteadyRows(img, t);
    EmptyRowsJoinNothing(img.dx, rows);
    ghost var before := trk.frameRing.Contents();
    rects := trk.GetRects(img, t);
    ShiftCopies(before, img, LAVGN);
  }

  /** n copies of a frame, less the first, then the frame again: n copies still. */
  lemma ShiftCopies(ring: seq<PixelSequence>, img: PixelSequence, n: nat)
    requires n > 0 && ring == seq(n, _ => img)
    ensures ring[1..] + [img] == seq(n, _ => img)
  {
  }

  /** i copies of a frame, then the frame again: i + 1 copies. */
  lemma AppendCopies(ring: seq<PixelSequence>, img: PixelSequence, i: nat)
    requires ring == seq(i, _ => img)
    ensures ring + [img] == seq(i + 1, _ => img)
  {
  }
}
