/**
 * The scanline rectangle joiner of motion/rects.go. A `Slate` keeps one
 * owner per frame column (0, or 1 + the index of the open rectangle drawn
 * there last) and the open rectangles; a `RectJoiner` feeds it the
 * height-one boxes of each row, unions every box with the open rectangles
 * whose columns it touches (one pixel of slack on each side), retires the
 * rectangles the row did not reach and, at the end, returns them all.
 */
module Rects {
  import opened Geom

  // ------------------------------------------------------------ values

  /** `draw` writes the columns [min.x, max.x): they must exist unless the range is empty. */
  predicate Drawable(r: Rectangle, width: int)
  {
    r.max.x <= r.min.x || (0 <= r.min.x && r.max.x <= width)
  }

  /** A box the joiner works with: Min <= Max, and its columns inside the frame. */
  predicate Fits(r: Rectangle, width: int)
  {
    r.Canonical() && 0 <= r.min.x && r.max.x <= width
  }

  predicate AllFit(rs: seq<Rectangle>, width: int)
  {
    forall k :: 0 <= k < |rs| ==> Fits(rs[k], width)
  }

  /** Every column names no rectangle (0) or one of the first n (1 + its index). */
  predicate Names(cols: seq<int>, n: int)
  {
    forall x :: 0 <= x < |cols| ==> 0 <= cols[x] <= n
  }

  /** Column x lies in the columns of r. */
  predicate Over(r: Rectangle, x: int)
  {
    r.min.x <= x < r.max.x
  }

  /** The columns of a clean slate (`newSlate`, `clean`). */
  function Blank(width: nat): (c: seq<int>)
    ensures |c| == width && Names(c, 0)
  {
    seq(width, _ => 0)
  }

  /** The columns after `draw` writes the owner v over the columns of r. */
  function DrawOn(cols: seq<int>, r: Rectangle, v: int): (c: seq<int>)
    ensures |c| == |cols|
  {
    seq(|cols|, x requires 0 <= x < |cols| => if Over(r, x) then v else cols[x])
  }

  /** The columns after the first n rectangles of rs are drawn in order (`drawall` when n = |rs|). */
  function Painted(cols: seq<int>, rs: seq<Rectangle>, n: nat): (c: seq<int>)
    requires n <= |rs|
    ensures |c| == |cols|
    ensures Names(cols, |rs|) ==> Names(c, |rs|)
  {
    if n == 0 then cols else DrawOn(Painted(cols, rs, n - 1), rs[n - 1], n)
  }

  /**
   * Drawing over a clean slate leaves each column owned by the LAST
   * rectangle that covers it, and unowned when none does.
   */
  lemma {:induction false} PaintedOwner(width: nat, rs: seq<Rectangle>, n: nat, x: int)
    requires n <= |rs| && 0 <= x < width
    ensures var c := Painted(Blank(width), rs, n)[x];
      0 <= c <= n
      && (c == 0 ==> forall k :: 0 <= k < n ==> !Over(rs[k], x))
      && (c > 0 ==> Over(rs[c - 1], x) && forall k :: c <= k < n ==> !Over(rs[k], x))
  {
    if n > 0 {
      PaintedOwner(width, rs, n - 1, x);
    }
  }

  // ------------------------------------------------------------ add

  /** The slate's two fields as values. */
  datatype SlateState = SlateState(cols: seq<int>, rects: seq<Rectangle>)

  /** The first and one-past-last column `add` scans for o: o's columns widened by one, clamped. */
  function ScanLo(o: Rectangle): int
  {
    var lo := o.Inset(-1).min.x;
    if lo < 0 then 0 else lo
  }

  function ScanHi(o: Rectangle, width: int): int
  {
    var hi := o.Inset(-1).max.x;
    if hi > width then width else hi
  }

  /**
   * The scan of `add` from column x up to maxx: a column naming a rectangle
   * other than the one met last (lastc) unions that rectangle, grown by one,
   * into ru and replaces it by ZR. Returns the union and the rectangles.
   */
  function Scan(cols: seq<int>, rects: seq<Rectangle>, x: int, maxx: int, lastc: int, ru: Rectangle)
    : (res: (Rectangle, seq<Rectangle>))
    requires 0 <= x && maxx <= |cols| && Names(cols, |rects|)
    ensures |res.1| == |rects|
    decreases maxx - x
  {
    if x >= maxx then (ru, rects)
    else
      var c := cols[x];
      if c != 0 && c != lastc then Scan(cols, rects[c - 1 := ZR], x + 1, maxx, c, ru.Union(rects[c - 1].Inset(-1)))
      else Scan(cols, rects, x + 1, maxx, lastc, ru)
  }

  /** `add(o)`: scan o's widened columns, append the shrunk union and draw it. */
  function AddSpec(s: SlateState, o: Rectangle): (t: SlateState)
    requires Names(s.cols, |s.rects|)
    ensures |t.cols| == |s.cols| && |t.rects| == |s.rects| + 1
    ensures Names(t.cols, |t.rects|)
  {
    var res := Scan(s.cols, s.rects, ScanLo(o), ScanHi(o, |s.cols|), 0, o.Inset(-1));
    var r := res.0.Inset(1);
    SlateState(DrawOn(s.cols, r, |res.1| + 1), res.1 + [r])
  }

  /** The scan only ever replaces rectangles by ZR. */
  lemma {:induction false} ScanKeeps(cols: seq<int>, rects: seq<Rectangle>, x: int, maxx: int, lastc: int, ru: Rectangle)
    requires 0 <= x && maxx <= |cols| && Names(cols, |rects|)
    ensures var rs := Scan(cols, rects, x, maxx, lastc, ru).1;
      forall k :: 0 <= k < |rects| ==> rs[k] == rects[k] || rs[k] == ZR
    decreases maxx - x
  {
    if x < maxx {
      var c := cols[x];
      if c != 0 && c != lastc {
        var rects', ru' := rects[c - 1 := ZR], ru.Union(rects[c - 1].Inset(-1));
        assert Scan(cols, rects, x, maxx, lastc, ru) == Scan(cols, rects', x + 1, maxx, c, ru');
        ScanKeeps(cols, rects', x + 1, maxx, c, ru');
        KeepsOrZero(rects, c - 1, Scan(cols, rects', x + 1, maxx, c, ru').1);
      } else {
        assert Scan(cols, rects, x, maxx, lastc, ru) == Scan(cols, rects, x + 1, maxx, lastc, ru);
        ScanKeeps(cols, rects, x + 1, maxx, lastc, ru);
      }
    }
  }

  /** What keeps or zeroes the entries of rects with entry i zeroed keeps or zeroes those of rects. */
  lemma KeepsOrZero(rects: seq<Rectangle>, i: int, rs: seq<Rectangle>)
    requires 0 <= i < |rects| && |rs| == |rects|
    requires forall k :: 0 <= k < |rects| ==> rs[k] == rects[i := ZR][k] || rs[k] == ZR
    ensures forall k :: 0 <= k < |rects| ==> rs[k] == rects[k] || rs[k] == ZR
  {
  }

  /**
   * The union only grows, stays within one column of the slate, and holds
   * every rectangle the scan removed, grown by one.
   */
  lemma {:induction false} ScanGrows(cols: seq<int>, rects: seq<Rectangle>, x: int, maxx: int, lastc: int, ru: Rectangle)
    requires 0 <= x && maxx <= |cols| && Names(cols, |rects|) && AllFit(rects, |cols|)
    requires !ru.Empty() && -1 <= ru.min.x && ru.max.x <= |cols| + 1
    ensures var res := Scan(cols, rects, x, maxx, lastc, ru);
      !res.0.Empty() && res.0.Encloses(ru) && -1 <= res.0.min.x && res.0.max.x <= |cols| + 1
      && forall k :: 0 <= k < |rects| && res.1[k] != rects[k] ==> res.0.Encloses(rects[k].Inset(-1))
    decreases maxx - x
  {
    if x < maxx {
      var c := cols[x];
      if c != 0 && c != lastc {
        var g := rects[c - 1].Inset(-1);
        var rects' := rects[c - 1 := ZR];
        assert AllFit(rects', |cols|) by {
          forall k | 0 <= k < |rects'|
            ensures Fits(rects'[k], |cols|)
          {
          }
        }
        ScanGrows(cols, rects', x + 1, maxx, c, ru.Union(g));
      } else {
        ScanGrows(cols, rects, x + 1, maxx, lastc, ru);
      }
    }
  }

  /**
   * Every rectangle named in the scanned columns ends up removed, provided
   * the one met last already was: `lastc` only skips repeats.
   */
  lemma {:induction false} ScanMeets(cols: seq<int>, rects: seq<Rectangle>, x: int, maxx: int, lastc: int, ru: Rectangle)
    requires 0 <= x && maxx <= |cols| && Names(cols, |rects|)
    requires lastc == 0 || (1 <= lastc <= |rects| && rects[lastc - 1] == ZR)
    ensures var rs := Scan(cols, rects, x, maxx, lastc, ru).1;
      forall y :: x <= y < maxx && cols[y] != 0 ==> rs[cols[y] - 1] == ZR
    decreases maxx - x
  {
    if x < maxx {
      var c := cols[x];
      if c != 0 && c != lastc {
        var rects' := rects[c - 1 := ZR];
        var ru' := ru.Union(rects[c - 1].Inset(-1));
        ScanMeets(cols, rects', x + 1, maxx, c, ru');
        ScanKeeps(cols, rects', x + 1, maxx, c, ru');
      } else {
        ScanMeets(cols, rects, x + 1, maxx, lastc, ru);
        ScanKeeps(cols, rects, x + 1, maxx, lastc, ru);
      }
    }
  }

  /** A box that holds r grown by one holds r once shrunk back by one. */
  lemma ShrunkEncloses(u: Rectangle, r: Rectangle)
    requires r.Canonical() && u.Encloses(r.Inset(-1))
    ensures u.Inset(1).Encloses(r)
  {
  }

  /**
   * `add(o)` appends a rectangle that fits the slate and holds o, and every
   * rectangle it replaced by ZR lies inside that new rectangle.
   */
  lemma AddEncloses(s: SlateState, o: Rectangle)
    requires Names(s.cols, |s.rects|) && AllFit(s.rects, |s.cols|) && Fits(o, |s.cols|)
    ensures var t := AddSpec(s, o); var r := t.rects[|s.rects|];
      Fits(r, |s.cols|) && r.Encloses(o)
      && forall k :: 0 <= k < |s.rects| ==> t.rects[k] == s.rects[k] || (t.rects[k] == ZR && r.Encloses(s.rects[k]))
  {
    var res := Scan(s.cols, s.rects, ScanLo(o), ScanHi(o, |s.cols|), 0, o.Inset(-1));
    ScanGrows(s.cols, s.rects, ScanLo(o), ScanHi(o, |s.cols|), 0, o.Inset(-1));
    ScanKeeps(s.cols, s.rects, ScanLo(o), ScanHi(o, |s.cols|), 0, o.Inset(-1));
    ShrunkEncloses(res.0, o);
    forall k | 0 <= k < |s.rects| && res.1[k] != s.rects[k]
      ensures res.0.Inset(1).Encloses(s.rects[k])
    {
      ShrunkEncloses(res.0, s.rects[k]);
    }
  }

  /** `add(o)` removes every open rectangle named in the columns it scans. */
  lemma AddMeets(s: SlateState, o: Rectangle)
    requires Names(s.cols, |s.rects|)
    ensures forall x :: ScanLo(o) <= x < ScanHi(o, |s.cols|) && s.cols[x] != 0 ==> AddSpec(s, o).rects[s.cols[x] - 1] == ZR
  {
    ScanMeets(s.cols, s.rects, ScanLo(o), ScanHi(o, |s.cols|), 0, o.Inset(-1));
  }

  /** `add(o)` once its scan has produced the union u and the rectangles rs. */
  lemma AddResult(s: SlateState, o: Rectangle, u: Rectangle, rs: seq<Rectangle>)
    requires Names(s.cols, |s.rects|) && AllFit(s.rects, |s.cols|) && Fits(o, |s.cols|)
    requires (u, rs) == Scan(s.cols, s.rects, ScanLo(o), ScanHi(o, |s.cols|), 0, o.Inset(-1))
    ensures AddSpec(s, o) == SlateState(DrawOn(s.cols, u.Inset(1), |rs| + 1), rs + [u.Inset(1)])
    ensures AllFit(rs + [u.Inset(1)], |s.cols|)
  {
    AddEncloses(s, o);
  }

  /** `add` keeps every rectangle inside the frame. */
  lemma AddFits(s: SlateState, o: Rectangle)
    requires Names(s.cols, |s.rects|) && AllFit(s.rects, |s.cols|) && Fits(o, |s.cols|)
    ensures AllFit(AddSpec(s, o).rects, |s.cols|)
  {
    AddEncloses(s, o);
    var t := AddSpec(s, o);
    forall k | 0 <= k < |t.rects|
      ensures Fits(t.rects[k], |s.cols|)
    {
      if k < |s.rects| && t.rects[k] != s.rects[k] {
        assert t.rects[k] == ZR;
      }
    }
  }

  /** The rectangles after adding the boxes of rs in order (the loop of `merge`). */
  function AddAll(s: SlateState, rs: seq<Rectangle>): (t: SlateState)
    requires Names(s.cols, |s.rects|)
    ensures |t.cols| == |s.cols| && |t.rects| == |s.rects| + |rs|
    ensures Names(t.cols, |t.rects|)
  {
    if |rs| == 0 then s else AddSpec(AddAll(s, rs[..|rs| - 1]), rs[|rs| - 1])
  }

  // ------------------------------------------------------------ joiner

  /** Some rectangle of out holds b. */
  ghost predicate Held(b: Rectangle, out: seq<Rectangle>)
  {
    exists m :: 0 <= m < |out| && out[m].Encloses(b)
  }

  /** Every non-empty box of bs lies inside some rectangle of out. */
  ghost predicate Covered(bs: seq<Rectangle>, out: seq<Rectangle>)
  {
    forall k :: 0 <= k < |bs| && !bs[k].Empty() ==> Held(bs[k], out)
  }

  lemma HeldLeft(b: Rectangle, a: seq<Rectangle>, q: seq<Rectangle>)
    requires Held(b, a)
    ensures Held(b, a + q)
  {
    var m :| 0 <= m < |a| && a[m].Encloses(b);
    assert (a + q)[m] == a[m];
  }

  lemma HeldRight(b: Rectangle, p: seq<Rectangle>, a: seq<Rectangle>)
    requires Held(b, a)
    ensures Held(b, p + a)
  {
    var m :| 0 <= m < |a| && a[m].Encloses(b);
    assert (p + a)[|p| + m] == a[m];
  }

  /** A box held by an open rectangle stays held after `add`: by it, or by the union that replaced it. */
  lemma AddKeepsHeld(s: SlateState, o: Rectangle, b: Rectangle)
    requires Names(s.cols, |s.rects|) && AllFit(s.rects, |s.cols|) && Fits(o, |s.cols|)
    requires Held(b, s.rects)
    ensures Held(b, AddSpec(s, o).rects)
  {
    var m :| 0 <= m < |s.rects| && s.rects[m].Encloses(b);
    AddEncloses(s, o);
    var t := AddSpec(s, o);
    if t.rects[m] != s.rects[m] {
      assert t.rects[|s.rects|].Encloses(b);
    }
  }

  /** Adding the boxes up to i + 1 is adding those up to i, then box i. */
  lemma AddAllSnoc(s: SlateState, rs: seq<Rectangle>, i: int)
    requires Names(s.cols, |s.rects|) && 0 <= i < |rs|
    ensures AddAll(s, rs[..i + 1]) == AddSpec(AddAll(s, rs[..i]), rs[i])
  {
    assert rs[..i + 1][..i] == rs[..i];
  }

  /**
   * Adding a row of boxes keeps the rectangles inside the frame, keeps
   * every box held before held, and holds each added box.
   */
  lemma {:induction false} AddAllHolds(s: SlateState, rs: seq<Rectangle>)
    requires Names(s.cols, |s.rects|) && AllFit(s.rects, |s.cols|) && AllFit(rs, |s.cols|)
    ensures var t := AddAll(s, rs);
      AllFit(t.rects, |s.cols|)
      && (forall b :: Held(b, s.rects) ==> Held(b, t.rects))
      && forall k :: 0 <= k < |rs| ==> Held(rs[k], t.rects)
  {
    if |rs| > 0 {
      var front := rs[..|rs| - 1];
      var u := AddAll(s, front);
      AddAllHolds(s, front);
      AddFits(u, rs[|rs| - 1]);
      AddStepHolds(s.rects, u, rs);
    }
  }

  /** The last add of a row keeps what the earlier ones held and holds its own box. */
  lemma AddStepHolds(rects: seq<Rectangle>, u: SlateState, rs: seq<Rectangle>)
    requires |rs| > 0 && Names(u.cols, |u.rects|) && AllFit(u.rects, |u.cols|) && Fits(rs[|rs| - 1], |u.cols|)
    requires forall b :: Held(b, rects) ==> Held(b, u.rects)
    requires forall k :: 0 <= k < |rs| - 1 ==> Held(rs[k], u.rects)
    ensures var t := AddSpec(u, rs[|rs| - 1]);
      (forall b :: Held(b, rects) ==> Held(b, t.rects))
      && forall k :: 0 <= k < |rs| ==> Held(rs[k], t.rects)
  {
    var o := rs[|rs| - 1];
    var t := AddSpec(u, o);
    AddEncloses(u, o);
    forall b | Held(b, rects)
      ensures Held(b, t.rects)
    {
      AddKeepsHeld(u, o, b);
    }
    forall k | 0 <= k < |rs|
      ensures Held(rs[k], t.rects)
    {
      if k < |rs| - 1 {
        AddKeepsHeld(u, o, rs[k]);
      } else {
        assert t.rects[|u.rects|].Encloses(o);
      }
    }
  }

  /** The rectangles of rs a row ending at y has left behind (their bottom is above y), ZR excluded. */
  function Finished(rs: seq<Rectangle>, y: int): seq<Rectangle>
  {
    if |rs| == 0 then []
    else
      var r := rs[|rs| - 1];
      Finished(rs[..|rs| - 1], y) + (if r != ZR && r.max.y < y then [r] else [])
  }

  /** The rectangles of rs that reach the row ending at y, ZR excluded. */
  function Open(rs: seq<Rectangle>, y: int): seq<Rectangle>
  {
    if |rs| == 0 then []
    else
      var r := rs[|rs| - 1];
      Open(rs[..|rs| - 1], y) + (if r != ZR && y <= r.max.y then [r] else [])
  }

  /** `merge` splits its rectangles: ZR is dropped, every other one goes to exactly the side its bottom says. */
  lemma {:induction false} SplitParts(rs: seq<Rectangle>, y: int)
    ensures forall r :: r in Finished(rs, y) ==> r in rs && r != ZR && r.max.y < y
    ensures forall r :: r in Open(rs, y) ==> r in rs && r != ZR && y <= r.max.y
    ensures forall k :: 0 <= k < |rs| && rs[k] != ZR ==> rs[k] in Finished(rs, y) || rs[k] in Open(rs, y)
  {
    if |rs| > 0 {
      var front := rs[..|rs| - 1];
      SplitParts(front, y);
      assert rs == front + [rs[|rs| - 1]];
    }
  }

  /** The joiner's fields as values: the slate, the finished rectangles and the spare buffer. */
  datatype JoinerState = JoinerState(cols: seq<int>, rects: seq<Rectangle>, done: seq<Rectangle>, rectbuf: seq<Rectangle>)

  /** `newRectJoiner(width)`: a clean slate, nothing open or done, a spare buffer of ten ZR. */
  function NewJoiner(width: nat): (j: JoinerState)
    ensures |j.cols| == width && j.rects == [] && j.done == []
  {
    JoinerState(Blank(width), [], [], seq(10, _ => ZR))
  }

  /** The slate of `merge` after `clean`, `drawall` and the loop adding the boxes of rs. */
  function Merged(j: JoinerState, rs: seq<Rectangle>): (s: SlateState)
    ensures |s.cols| == |j.cols| && |s.rects| == |j.rects| + |rs|
  {
    AddAll(SlateState(Painted(Blank(|j.cols|), j.rects, |j.rects|), j.rects), rs)
  }

  /**
   * `merge(rs)`: the rectangles left behind by the row join done, the
   * others stay open, and the old list becomes the spare buffer.
   */
  function MergeSpec(j: JoinerState, rs: seq<Rectangle>): (k: JoinerState)
    requires |rs| > 0
    ensures |k.cols| == |j.cols|
  {
    var s := Merged(j, rs);
    var y := rs[0].max.y;
    JoinerState(s.cols, Open(s.rects, y), j.done + Finished(s.rects, y), s.rects)
  }

  /**
   * `addrow(rs)`: with nothing open the row's boxes are opened as they are;
   * an empty row retires everything open; otherwise the row is merged.
   */
  function AddRowSpec(j: JoinerState, rs: seq<Rectangle>): (k: JoinerState)
    ensures |k.cols| == |j.cols|
  {
    if |j.rects| == 0 then j.(rects := j.rects + rs)
    else if |rs| == 0 then j.(cols := Blank(|j.cols|), rects := [], done := j.done + j.rects)
    else MergeSpec(j, rs)
  }

  /** The joiner after `addrow` of each row in turn. */
  function Rows(width: nat, rrects: seq<seq<Rectangle>>): (j: JoinerState)
    ensures |j.cols| == width
  {
    if |rrects| == 0 then NewJoiner(width)
    else AddRowSpec(Rows(width, rrects[..|rrects| - 1]), rrects[|rrects| - 1])
  }

  /** `FindConnectedRects(width, rrects)`: the finished rectangles, then those still open. */
  function Connected(width: nat, rrects: seq<seq<Rectangle>>): seq<Rectangle>
  {
    var j := Rows(width, rrects);
    j.done + j.rects
  }

  /** All boxes of the rows, row after row. */
  function Boxes(rrects: seq<seq<Rectangle>>): seq<Rectangle>
  {
    if |rrects| == 0 then [] else Boxes(rrects[..|rrects| - 1]) + rrects[|rrects| - 1]
  }

  /** A box held by a merged rectangle is held by the joiner after the split of `merge`. */
  lemma HeldAfterSplit(b: Rectangle, rs: seq<Rectangle>, y: int, done: seq<Rectangle>)
    requires Held(b, rs) && !b.Empty()
    ensures Held(b, (done + Finished(rs, y)) + Open(rs, y))
  {
    var m :| 0 <= m < |rs| && rs[m].Encloses(b);
    SplitParts(rs, y);
    if rs[m] in Finished(rs, y) {
      var i :| 0 <= i < |Finished(rs, y)| && Finished(rs, y)[i] == rs[m];
      assert ((done + Finished(rs, y)) + Open(rs, y))[|done| + i] == rs[m];
    } else {
      var i :| 0 <= i < |Open(rs, y)| && Open(rs, y)[i] == rs[m];
      assert ((done + Finished(rs, y)) + Open(rs, y))[|done| + |Finished(rs, y)| + i] == rs[m];
    }
  }

  /** `addrow` with nothing open: the row's boxes hold themselves. */
  lemma FirstRowCovers(j: JoinerState, rs: seq<Rectangle>, bs: seq<Rectangle>)
    requires j.rects == [] && Covered(bs, j.done + j.rects)
    ensures Covered(bs + rs, j.done + rs)
  {
    assert j.done + j.rects == j.done;
    forall i | 0 <= i < |bs + rs| && !(bs + rs)[i].Empty()
      ensures Held((bs + rs)[i], j.done + rs)
    {
      if i < |bs| {
        HeldLeft(bs[i], j.done, rs);
      } else {
        assert (j.done + rs)[|j.done| + i - |bs|] == (bs + rs)[i];
      }
    }
  }

  /**
   * A box held by a finished or an open rectangle before `merge` is held
   * after it, when every box the open ones held is held by the merged ones.
   */
  lemma MergeKeepsHeld(b: Rectangle, done: seq<Rectangle>, rects: seq<Rectangle>, merged: seq<Rectangle>, y: int)
    requires Held(b, done + rects) && !b.Empty()
    requires forall b' :: Held(b', rects) ==> Held(b', merged)
    ensures Held(b, (done + Finished(merged, y)) + Open(merged, y))
  {
    var m :| 0 <= m < |done + rects| && (done + rects)[m].Encloses(b);
    if m < |done| {
      assert ((done + Finished(merged, y)) + Open(merged, y))[m] == done[m];
    } else {
      assert rects[m - |done|].Encloses(b);
      HeldAfterSplit(b, merged, y, done);
    }
  }

  /** The finished list after `merge` stays inside the frame. */
  lemma FinishedFit(done: seq<Rectangle>, merged: seq<Rectangle>, y: int, width: int)
    requires AllFit(done, width) && AllFit(merged, width)
    ensures AllFit(done + Finished(merged, y), width) && AllFit(Open(merged, y), width)
  {
    SplitParts(merged, y);
    forall i | 0 <= i < |done + Finished(merged, y)|
      ensures Fits((done + Finished(merged, y))[i], width)
    {
      if i >= |done| {
        assert (done + Finished(merged, y))[i] in Finished(merged, y);
      }
    }
    forall i | 0 <= i < |Open(merged, y)|
      ensures Fits(Open(merged, y)[i], width)
    {
      assert Open(merged, y)[i] in Open(merged, y);
    }
  }

  /** `merge`: boxes held before and the row's boxes are held by the finished or open rectangles after. */
  lemma MergeCovers(j: JoinerState, rs: seq<Rectangle>, bs: seq<Rectangle>)
    requires |rs| > 0 && AllFit(j.rects, |j.cols|) && AllFit(j.done, |j.cols|) && AllFit(rs, |j.cols|)
    requires Covered(bs, j.done + j.rects)
    ensures var k := MergeSpec(j, rs);
      AllFit(k.rects, |j.cols|) && AllFit(k.done, |j.cols|) && Covered(bs + rs, k.done + k.rects)
  {
    var s0 := SlateState(Painted(Blank(|j.cols|), j.rects, |j.rects|), j.rects);
    var merged := Merged(j, rs).rects;
    var y := rs[0].max.y;
    AddAllHolds(s0, rs);
    FinishedFit(j.done, merged, y, |j.cols|);
    forall i | 0 <= i < |bs + rs| && !(bs + rs)[i].Empty()
      ensures Held((bs + rs)[i], (j.done + Finished(merged, y)) + Open(merged, y))
    {
      if i < |bs| {
        MergeKeepsHeld(bs[i], j.done, j.rects, merged, y);
      } else {
        HeldAfterSplit(rs[i - |bs|], merged, y, j.done);
      }
    }
  }

  /**
   * One `addrow` keeps every rectangle inside the frame and every box seen
   * so far held by a finished or open rectangle, and holds the new row's boxes.
   */
  lemma AddRowCovers(j: JoinerState, rs: seq<Rectangle>, bs: seq<Rectangle>)
    requires AllFit(j.rects, |j.cols|) && AllFit(j.done, |j.cols|) && AllFit(rs, |j.cols|)
    requires Covered(bs, j.done + j.rects)
    ensures var k := AddRowSpec(j, rs);
      AllFit(k.rects, |j.cols|) && AllFit(k.done, |j.cols|) && Covered(bs + rs, k.done + k.rects)
  {
    if |j.rects| == 0 {
      assert j.rects + rs == rs;
      FirstRowCovers(j, rs, bs);
    } else if |rs| == 0 {
      assert bs + rs == bs && AddRowSpec(j, rs).done + [] == j.done + j.rects;
    } else {
      MergeCovers(j, rs, bs);
    }
  }

  /** Row after row, the joiner holds every box seen, inside the frame. */
  lemma {:induction false} RowsCover(width: nat, rrects: seq<seq<Rectangle>>)
    requires forall i :: 0 <= i < |rrects| ==> AllFit(rrects[i], width)
    ensures var j := Rows(width, rrects);
      AllFit(j.rects, width) && AllFit(j.done, width) && Covered(Boxes(rrects), j.done + j.rects)
  {
    if |rrects| > 0 {
      var front := rrects[..|rrects| - 1];
      RowsCover(width, front);
      AddRowCovers(Rows(width, front), rrects[|rrects| - 1], Boxes(front));
    }
  }

  /**
   * `FindConnectedRects` loses no motion: every non-empty box of every row
   * lies inside one of the returned rectangles, and those lie inside the frame.
   */
  lemma ConnectedCovers(width: nat, rrects: seq<seq<Rectangle>>)
    requires forall i :: 0 <= i < |rrects| ==> AllFit(rrects[i], width)
    ensures Covered(Boxes(rrects), Connected(width, rrects))
    ensures AllFit(Connected(width, rrects), width)
  {
    RowsCover(width, rrects);
  }

  // ------------------------------------------------------------ imperative core

  /** `slate`: the owner of each frame column and the open rectangles. */
  class Slate {
    const cols: array<int>
    var rects: seq<Rectangle>

    /** What `add` relies on: each column names an open rectangle or none, and the open ones fit the frame. */
    ghost predicate Valid()
      reads this, cols
    {
      Names(cols[..], |rects|) && AllFit(rects, cols.Length)
    }

    /** `newSlate(width)`: width unowned columns and nothing open. */
    constructor (width: nat)
      ensures fresh(cols) && cols[..] == Blank(width) && rects == [] && Valid()
    {
      cols := new int[width](_ => 0);
      rects := [];
    }

    /** `clean`: every column unowned; the open rectangles are kept. */
    method Clean()
      modifies cols
      ensures cols[..] == Blank(cols.Length)
    {
      var x := 0;
      while x < cols.Length
        invariant 0 <= x <= cols.Length
        invariant forall y :: 0 <= y < x ==> cols[y] == 0
      {
        cols[x] := 0;
        x := x + 1;
      }
    }

    /** `draw(i)`: the columns of the i-th open rectangle become owned by it. */
    method Draw(i: int)
      requires 0 <= i < |rects| && Drawable(rects[i], cols.Length)
      modifies cols
      ensures cols[..] == DrawOn(old(cols[..]), rects[i], i + 1)
    {
      var r := rects[i];
      var x := r.min.x;
      while x < r.max.x
        invariant r.min.x <= x && (x <= r.max.x || x == r.min.x)
        invariant forall y :: 0 <= y < cols.Length ==> cols[y] == if r.min.x <= y < x then i + 1 else old(cols[y])
      {
        cols[x] := i + 1;
        x := x + 1;
      }
    }

    /** `drawall`: draw the open rectangles in order. */
    method DrawAll()
      requires forall k :: 0 <= k < |rects| ==> Drawable(rects[k], cols.Length)
      modifies cols
      ensures cols[..] == Painted(old(cols[..]), rects, |rects|)
    {
      var i := 0;
      while i < |rects|
        invariant 0 <= i <= |rects|
        invariant cols[..] == Painted(old(cols[..]), rects, i)
      {
        Draw(i);
        i := i + 1;
      }
    }

    /**
     * `add(o)`: union o, grown by one, with every open rectangle named in
     * the columns it touches, replace those by ZR, then open the union
     * shrunk back by one and draw it.
     */
    method Add(o: Rectangle)
      requires Valid() && Fits(o, cols.Length)
      modifies this, cols
      ensures Valid()
      ensures SlateState(cols[..], rects) == AddSpec(old(SlateState(cols[..], rects)), o)
    {
      ghost var s := SlateState(cols[..], rects);
      var ru := o.Inset(-1);
      var maxx := ru.max.x;
      if maxx > cols.Length {
        maxx := cols.Length;
      }
      var minx := ru.min.x;
      if minx < 0 {
        minx := 0;
      }
      ru := Sweep(minx, maxx, ru);
      AddResult(s, o, ru, rects);
      var r := ru.Inset(1);
      rects := rects + [r];
      Draw(|rects| - 1);
    }

    /** The column loop of `add`: the scan from minx to maxx, starting with no rectangle met. */
    method Sweep(minx: int, maxx: int, ru0: Rectangle) returns (ru: Rectangle)
      requires 0 <= minx <= maxx <= cols.Length && Names(cols[..], |rects|)
      modifies this
      ensures (ru, rects) == Scan(cols[..], old(rects), minx, maxx, 0, ru0)
    {
      ghost var goal := Scan(cols[..], rects, minx, maxx, 0, ru0);
      ru := ru0;
      var lastc := 0;
      var x := minx;
      while x < maxx
        invariant minx <= x <= maxx && |rects| == |old(rects)|
        invariant Scan(cols[..], rects, x, maxx, lastc, ru) == goal
        decreases maxx - x
      {
        var c := cols[x];
        if c != 0 {
          if c != lastc {
            ru := ru.Union(rects[c - 1].Inset(-1));
            rects := rects[c - 1 := ZR];
            lastc := c;
          }
        }
        x := x + 1;
      }
    }

    /** The loop of `merge` adding each box of the row. */
    method AddEach(rs: seq<Rectangle>)
      requires Valid() && AllFit(rs, cols.Length)
      modifies this, cols
      ensures Valid()
      ensures SlateState(cols[..], rects) == AddAll(old(SlateState(cols[..], rects)), rs)
    {
      ghost var s := SlateState(cols[..], rects);
      var i := 0;
      while i < |rs|
        invariant 0 <= i <= |rs| && Valid()
        invariant SlateState(cols[..], rects) == AddAll(s, rs[..i])
      {
        AddAllSnoc(s, rs, i);
        Add(rs[i]);
        i := i + 1;
      }
      assert rs[..i] == rs;
    }
  }

  /** `rectjoiner`: a slate, the finished rectangles and a spare buffer. */
  class RectJoiner {
    const slate: Slate
    var done: seq<Rectangle>
    var rectbuf: seq<Rectangle>

    ghost function State(): JoinerState
      reads this, slate, slate.cols
    {
      JoinerState(slate.cols[..], slate.rects, done, rectbuf)
    }

    /** The open and the finished rectangles fit the frame. */
    ghost predicate Valid()
      reads this, slate, slate.cols
    {
      AllFit(slate.rects, slate.cols.Length) && AllFit(done, slate.cols.Length)
    }

    /** `newRectJoiner(width)`. */
    constructor (width: nat)
      ensures fresh(slate) && fresh(slate.cols) && Valid() && State() == NewJoiner(width)
    {
      slate := new Slate(width);
      done := [];
      rectbuf := seq(10, _ => ZR);
    }

    /** `addrow(rs)`. */
    method AddRow(rs: seq<Rectangle>)
      requires Valid() && AllFit(rs, slate.cols.Length)
      modifies this, slate, slate.cols
      ensures Valid() && State() == AddRowSpec(old(State()), rs)
    {
      if |slate.rects| == 0 {
        var i := 0;
        while i < |rs|
          invariant 0 <= i <= |rs| && slate.rects == old(slate.rects) + rs[..i]
          invariant slate.cols[..] == old(slate.cols[..]) && done == old(done) && rectbuf == old(rectbuf)
        {
          slate.rects := slate.rects + [rs[i]];
          i := i + 1;
        }
        assert rs[..i] == rs;
        return;
      }
      if |rs| == 0 {
        done := done + slate.rects;
        slate.rects := [];
        slate.Clean();
      } else {
        Merge(rs);
      }
    }

    /**
     * `merge(rs)`: redraw the open rectangles, add the row's boxes, then
     * retire the rectangles whose bottom is above the row's; the old list
     * becomes the spare buffer.
     */
    method Merge(rs: seq<Rectangle>)
      requires Valid() && |rs| > 0 && AllFit(rs, slate.cols.Length)
      modifies this, slate, slate.cols
      ensures Valid() && State() == MergeSpec(old(State()), rs)
    {
      ghost var j := State();
      slate.Clean();
      slate.DrawAll();
      slate.AddEach(rs);
      rectbuf := [];
      var y := rs[0].max.y;
      Retire(y);
      FinishedFit(j.done, slate.rects, y, slate.cols.Length);
      rectbuf, slate.rects := slate.rects, rectbuf;
    }

    /** The split loop of `merge`: ZR is dropped, rectangles left behind go to done, the rest to rectbuf. */
    method Retire(y: int)
      modifies this
      ensures done == old(done) + Finished(slate.rects, y) && rectbuf == old(rectbuf) + Open(slate.rects, y)
    {
      var k := 0;
      while k < |slate.rects|
        invariant 0 <= k <= |slate.rects|
        invariant done == old(done) + Finished(slate.rects[..k], y) && rectbuf == old(rectbuf) + Open(slate.rects[..k], y)
      {
        assert slate.rects[..k + 1][..k] == slate.rects[..k];
        var r := slate.rects[k];
        if r != ZR {
          if r.max.y < y {
            done := done + [r];
          } else {
            rectbuf := rectbuf + [r];
          }
        }
        k := k + 1;
      }
      assert slate.rects[..k] == slate.rects;
    }
  }

  /**
   * `FindConnectedRects(width, rrects)`: join the rows' boxes into
   * rectangles, the finished ones first, then those still open.
   */
  method FindConnectedRects(width: nat, rrects: seq<seq<Rectangle>>) returns (rs: seq<Rectangle>)
    requires forall i :: 0 <= i < |rrects| ==> AllFit(rrects[i], width)
    ensures rs == Connected(width, rrects)
  {
    var rj := new RectJoiner(width);
    var i := 0;
    while i < |rrects|
      invariant 0 <= i <= |rrects| && fresh(rj.slate) && fresh(rj.slate.cols)
      invariant rj.Valid() && rj.slate.cols.Length == width
      invariant rj.State() == Rows(width, rrects[..i])
    {
      assert rrects[..i + 1][..i] == rrects[..i];
      rj.AddRow(rrects[i]);
      i := i + 1;
    }
    assert rrects[..i] == rrects;
    rj.done := rj.done + rj.slate.rects;
    rs := rj.done;
  }
}
