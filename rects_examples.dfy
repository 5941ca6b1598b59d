/**
 * Worked vectors of `FindConnectedRects` on a five-column frame, the
 * expectations of motion/motion_test.go (TestFindConnectedRects), stepped
 * through the joiner row by row.
 */
module RectsExamples {
  import opened Geom
  import opened Rects

  /** One pixel at (1, 1) becomes the rectangle [1,2)x[1,2). */
  lemma SinglePixel()
    ensures Connected(5, [[], [Rect(1, 1, 2, 2)], [], [], []]) == [Rect(1, 1, 2, 2)]
  {
    var rr: seq<seq<Rectangle>> := [[], [Rect(1, 1, 2, 2)], [], [], []];
    assert rr[..1][..0] == [];
    assert Rows(5, rr[..1]).rects == [];
    assert rr[..2][..1] == rr[..1];
    assert Rows(5, rr[..2]).rects == [Rect(1, 1, 2, 2)] && Rows(5, rr[..2]).done == [];
    assert rr[..3][..2] == rr[..2];
    assert Rows(5, rr[..3]).done == [Rect(1, 1, 2, 2)] && Rows(5, rr[..3]).rects == [];
    assert rr[..4][..3] == rr[..3];
    assert Rows(5, rr[..4]).done == [Rect(1, 1, 2, 2)] && Rows(5, rr[..4]).rects == [];
    assert rr[..5][..4] == rr[..4];
    assert rr[..5] == rr;
  }

  /** Drawing [1,2)x[1,2) on a clean slate owns column 1 only. */
  lemma PaintOne(a: Rectangle)
    requires a == Rect(1, 1, 2, 2)
    ensures var c := Painted(Blank(5), [a], 1);
      |c| == 5 && c[0] == 0 && c[1] == 1 && c[2] == 0 && c[3] == 0 && c[4] == 0
  {
    assert Painted(Blank(5), [a], 0) == Blank(5);
  }

  /** The scan for the box at (2, 2) meets the rectangle at (1, 1) and grows over it. */
  lemma ScanOne(c: seq<int>, a: Rectangle)
    requires a == Rect(1, 1, 2, 2)
    requires |c| == 5 && c[0] == 0 && c[1] == 1 && c[2] == 0 && c[3] == 0 && c[4] == 0
    ensures Scan(c, [a], 1, 4, 0, Rect(1, 1, 4, 4)) == (Rect(0, 0, 4, 4), [ZR])
  {
    var u := Rect(1, 1, 4, 4).Union(a.Inset(-1));
    assert u == Rect(0, 0, 4, 4);
    assert [a][0 := ZR] == [ZR];
    assert Scan(c, [ZR], 4, 4, 1, u) == (u, [ZR]);
    assert Scan(c, [ZR], 3, 4, 1, u) == (u, [ZR]);
    assert Scan(c, [ZR], 2, 4, 1, u) == (u, [ZR]);
  }

  lemma AddSpecOne(s0: SlateState, b: Rectangle)
    requires s0.rects == [Rect(1, 1, 2, 2)] && b == Rect(2, 2, 3, 3)
    requires |s0.cols| == 5 && s0.cols[0] == 0 && s0.cols[1] == 1 && s0.cols[2] == 0 && s0.cols[3] == 0 && s0.cols[4] == 0
    ensures AddSpec(s0, b).rects == [ZR, Rect(1, 1, 3, 3)]
  {
    assert ScanLo(b) == 1 && ScanHi(b, 5) == 4 && b.Inset(-1) == Rect(1, 1, 4, 4);
    ScanOne(s0.cols, s0.rects[0]);
    assert Rect(0, 0, 4, 4).Inset(1) == Rect(1, 1, 3, 3);
  }

  lemma AddOne(s0: SlateState, b: Rectangle)
    requires s0.rects == [Rect(1, 1, 2, 2)] && b == Rect(2, 2, 3, 3)
    requires |s0.cols| == 5 && s0.cols[0] == 0 && s0.cols[1] == 1 && s0.cols[2] == 0 && s0.cols[3] == 0 && s0.cols[4] == 0
    ensures AddAll(s0, [b]).rects == [ZR, Rect(1, 1, 3, 3)]
  {
    assert [b][..0] == [];
    AddSpecOne(s0, b);
  }

  /** After the row ending at y = 3, ZR is dropped and the union stays open. */
  lemma SplitOne(m: seq<Rectangle>)
    requires m == [ZR, Rect(1, 1, 3, 3)]
    ensures Open(m, 3) == [Rect(1, 1, 3, 3)] && Finished(m, 3) == []
  {
    assert m[..1][..0] == [] && m[..1] == [ZR] && m[..2] == m;
    assert Finished(m[..1][..0], 3) == [] && Open(m[..1][..0], 3) == [];
    assert Open(m[..1], 3) == [] && Finished(m[..1], 3) == [];
    assert m[1] != ZR && m[1].max.y == 3;
  }

  /** `merge` of the box at (2, 2) into the open pixel at (1, 1). */
  lemma DiagonalMerge(j: JoinerState)
    requires j.cols == Blank(5) && j.rects == [Rect(1, 1, 2, 2)] && j.done == []
    ensures MergeSpec(j, [Rect(2, 2, 3, 3)]).rects == [Rect(1, 1, 3, 3)]
    ensures MergeSpec(j, [Rect(2, 2, 3, 3)]).done == []
  {
    PaintOne(j.rects[0]);
    AddOne(SlateState(Painted(Blank(5), j.rects, 1), j.rects), Rect(2, 2, 3, 3));
    SplitOne(Merged(j, [Rect(2, 2, 3, 3)]).rects);
  }

  /** One more row is one more `addrow` on the joiner of the rows before it. */
  lemma RowsSnoc(width: nat, rr: seq<seq<Rectangle>>, k: nat)
    requires k < |rr|
    ensures Rows(width, rr[..k + 1]) == AddRowSpec(Rows(width, rr[..k]), rr[k])
  {
    assert rr[..k + 1][..k] == rr[..k];
  }

  /** With nothing open, a row's boxes are opened as they are. */
  lemma OpenStep(width: nat, rr: seq<seq<Rectangle>>, k: nat)
    requires k < |rr| && Rows(width, rr[..k]).rects == []
    ensures Rows(width, rr[..k + 1]).rects == rr[k]
    ensures Rows(width, rr[..k + 1]).done == Rows(width, rr[..k]).done
    ensures Rows(width, rr[..k + 1]).cols == Rows(width, rr[..k]).cols
  {
    RowsSnoc(width, rr, k);
  }

  /** The same for the last row of all. */
  lemma OpenLast(width: nat, rr: seq<seq<Rectangle>>)
    requires |rr| > 0 && Rows(width, rr[..|rr| - 1]).rects == []
    ensures Rows(width, rr).rects == rr[|rr| - 1]
    ensures Rows(width, rr).done == Rows(width, rr[..|rr| - 1]).done
  {
  }

  /** An empty row retires everything open. */
  lemma RetireStep(width: nat, rr: seq<seq<Rectangle>>, k: nat)
    requires k < |rr| && rr[k] == [] && Rows(width, rr[..k]).rects != []
    ensures Rows(width, rr[..k + 1]).rects == []
    ensures Rows(width, rr[..k + 1]).done == Rows(width, rr[..k]).done + Rows(width, rr[..k]).rects
  {
    RowsSnoc(width, rr, k);
  }

  /** The box at (2, 2) merges into the open pixel at (1, 1). */
  lemma DiagonalStep(rr: seq<seq<Rectangle>>, k: nat)
    requires k < |rr| && rr[k] == [Rect(2, 2, 3, 3)]
    requires Rows(5, rr[..k]).cols == Blank(5) && Rows(5, rr[..k]).rects == [Rect(1, 1, 2, 2)] && Rows(5, rr[..k]).done == []
    ensures Rows(5, rr[..k + 1]).rects == [Rect(1, 1, 3, 3)] && Rows(5, rr[..k + 1]).done == []
  {
    RowsSnoc(5, rr, k);
    DiagonalMerge(Rows(5, rr[..k]));
  }

  /** Diagonal neighbours join: the pixels (1, 1) and (2, 2) give [1,3)x[1,3). */
  lemma DiagonalJoin(rr: seq<seq<Rectangle>>)
    requires rr == [[], [Rect(1, 1, 2, 2)], [Rect(2, 2, 3, 3)], [], []]
    ensures Connected(5, rr) == [Rect(1, 1, 3, 3)]
  {
    DiagonalRows(rr);
  }

  lemma DiagonalRows(rr: seq<seq<Rectangle>>)
    requires |rr| == 5 && rr[0] == [] && rr[1] == [Rect(1, 1, 2, 2)] && rr[2] == [Rect(2, 2, 3, 3)] && rr[3] == [] && rr[4] == []
    ensures Rows(5, rr).done == [Rect(1, 1, 3, 3)] && Rows(5, rr).rects == []
  {
    DiagonalMerged(rr);
    RetireStep(5, rr, 3);
    OpenLast(5, rr);
  }

  /** A pixel at (4, 4), two rows below the diagonal pair and not touching it, is a rectangle of its own, after the pair. */
  lemma LatePixel(rr: seq<seq<Rectangle>>)
    requires rr == [[], [Rect(1, 1, 2, 2)], [Rect(2, 2, 3, 3)], [], [Rect(4, 4, 5, 5)]]
    ensures Connected(5, rr) == [Rect(1, 1, 3, 3), Rect(4, 4, 5, 5)]
  {
    LateRows(rr);
  }

  lemma LateRows(rr: seq<seq<Rectangle>>)
    requires |rr| == 5 && rr[0] == [] && rr[1] == [Rect(1, 1, 2, 2)] && rr[2] == [Rect(2, 2, 3, 3)] && rr[3] == []
    requires rr[4] == [Rect(4, 4, 5, 5)]
    ensures Rows(5, rr).done == [Rect(1, 1, 3, 3)] && Rows(5, rr).rects == [Rect(4, 4, 5, 5)]
  {
    DiagonalMerged(rr);
    RetireStep(5, rr, 3);
    OpenLast(5, rr);
  }

  lemma DiagonalMerged(rr: seq<seq<Rectangle>>)
    requires |rr| == 5 && rr[0] == [] && rr[1] == [Rect(1, 1, 2, 2)] && rr[2] == [Rect(2, 2, 3, 3)]
    ensures Rows(5, rr[..3]).rects == [Rect(1, 1, 3, 3)] && Rows(5, rr[..3]).done == []
  {
    OpenStep(5, rr, 0);
    OpenStep(5, rr, 1);
    DiagonalStep(rr, 2);
  }

  lemma PaintTwo(a: Rectangle, d: Rectangle)
    requires a == Rect(1, 1, 2, 2) && d == Rect(4, 1, 5, 2)
    ensures var c := Painted(Blank(5), [a, d], 2);
      |c| == 5 && c[0] == 0 && c[1] == 1 && c[2] == 0 && c[3] == 0 && c[4] == 2
  {
    assert Painted(Blank(5), [a, d], 0) == Blank(5);
    var c1 := Painted(Blank(5), [a, d], 1);
    assert c1[0] == 0 && c1[1] == 1 && c1[2] == 0 && c1[3] == 0 && c1[4] == 0;
  }

  lemma ScanTwo(c: seq<int>, a: Rectangle, d: Rectangle)
    requires a == Rect(1, 1, 2, 2) && d == Rect(4, 1, 5, 2)
    requires |c| == 5 && c[0] == 0 && c[1] == 1 && c[2] == 0 && c[3] == 0 && c[4] == 2
    ensures Scan(c, [a, d], 1, 4, 0, Rect(1, 1, 4, 4)) == (Rect(0, 0, 4, 4), [ZR, d])
  {
    var u := Rect(1, 1, 4, 4).Union(a.Inset(-1));
    assert u == Rect(0, 0, 4, 4);
    assert [a, d][0 := ZR] == [ZR, d];
    assert Scan(c, [ZR, d], 4, 4, 1, u) == (u, [ZR, d]);
    assert Scan(c, [ZR, d], 3, 4, 1, u) == (u, [ZR, d]);
    assert Scan(c, [ZR, d], 2, 4, 1, u) == (u, [ZR, d]);
  }

  lemma AddSpecTwo(s0: SlateState, b: Rectangle)
    requires s0.rects == [Rect(1, 1, 2, 2), Rect(4, 1, 5, 2)] && b == Rect(2, 2, 3, 3)
    requires |s0.cols| == 5 && s0.cols[0] == 0 && s0.cols[1] == 1 && s0.cols[2] == 0 && s0.cols[3] == 0 && s0.cols[4] == 2
    ensures AddSpec(s0, b).rects == [ZR, Rect(4, 1, 5, 2), Rect(1, 1, 3, 3)]
  {
    assert ScanLo(b) == 1 && ScanHi(b, 5) == 4 && b.Inset(-1) == Rect(1, 1, 4, 4);
    ScanTwo(s0.cols, s0.rects[0], s0.rects[1]);
    AddedRects(s0, b);
    assert Rect(0, 0, 4, 4).Inset(1) == Rect(1, 1, 3, 3);
  }

  /** The rectangles `add` leaves, in terms of its scan. */
  lemma AddedRects(s: SlateState, o: Rectangle)
    requires Names(s.cols, |s.rects|)
    ensures var res := Scan(s.cols, s.rects, ScanLo(o), ScanHi(o, |s.cols|), 0, o.Inset(-1));
      AddSpec(s, o).rects == res.1 + [res.0.Inset(1)]
  {
  }

  lemma AddTwo(s0: SlateState, b: Rectangle)
    requires s0.rects == [Rect(1, 1, 2, 2), Rect(4, 1, 5, 2)] && b == Rect(2, 2, 3, 3)
    requires |s0.cols| == 5 && s0.cols[0] == 0 && s0.cols[1] == 1 && s0.cols[2] == 0 && s0.cols[3] == 0 && s0.cols[4] == 2
    ensures AddAll(s0, [b]).rects == [ZR, Rect(4, 1, 5, 2), Rect(1, 1, 3, 3)]
  {
    assert [b][..0] == [];
    AddSpecTwo(s0, b);
  }

  lemma SplitTwo(m: seq<Rectangle>)
    requires m == [ZR, Rect(4, 1, 5, 2), Rect(1, 1, 3, 3)]
    ensures Open(m, 3) == [Rect(1, 1, 3, 3)] && Finished(m, 3) == [Rect(4, 1, 5, 2)]
  {
    assert m[..1][..0] == [] && m[..1] == [ZR] && m[..2][..1] == m[..1] && m[..3] == m;
    assert Finished(m[..1][..0], 3) == [] && Open(m[..1][..0], 3) == [];
    assert Open(m[..1], 3) == [] && Finished(m[..1], 3) == [];
    assert Open(m[..2], 3) == [] && Finished(m[..2], 3) == [Rect(4, 1, 5, 2)];
  }

  /** `merge` of the box at (2, 2) into the open pixels at (1, 1) and (4, 1). */
  lemma FinishingMerge(j: JoinerState)
    requires j.cols == Blank(5) && j.rects == [Rect(1, 1, 2, 2), Rect(4, 1, 5, 2)] && j.done == []
    ensures MergeSpec(j, [Rect(2, 2, 3, 3)]).rects == [Rect(1, 1, 3, 3)]
    ensures MergeSpec(j, [Rect(2, 2, 3, 3)]).done == [Rect(4, 1, 5, 2)]
  {
    var b := Rect(2, 2, 3, 3);
    PaintTwo(j.rects[0], j.rects[1]);
    var s0 := SlateState(Painted(Blank(5), j.rects, 2), j.rects);
    AddTwo(s0, b);
    SplitTwo(Merged(j, [b]).rects);
  }

  /**
   * A rectangle the next row does not reach is finished first: with a
   * second pixel at (4, 1), it comes out ahead of the diagonal pair, and the
   * late pixel at (4, 4) last.
   */
  lemma FinishedFirst(rr: seq<seq<Rectangle>>)
    requires rr == [[], [Rect(1, 1, 2, 2), Rect(4, 1, 5, 2)], [Rect(2, 2, 3, 3)], [], [Rect(4, 4, 5, 5)]]
    ensures Connected(5, rr) == [Rect(4, 1, 5, 2), Rect(1, 1, 3, 3), Rect(4, 4, 5, 5)]
  {
    FinishedRows(rr);
  }

  lemma FinishedRows(rr: seq<seq<Rectangle>>)
    requires |rr| == 5 && rr[0] == [] && rr[1] == [Rect(1, 1, 2, 2), Rect(4, 1, 5, 2)] && rr[2] == [Rect(2, 2, 3, 3)]
    requires rr[3] == [] && rr[4] == [Rect(4, 4, 5, 5)]
    ensures Rows(5, rr).done == [Rect(4, 1, 5, 2), Rect(1, 1, 3, 3)] && Rows(5, rr).rects == [Rect(4, 4, 5, 5)]
  {
    FinishedMerged(rr);
    RetireStep(5, rr, 3);
    OpenLast(5, rr);
  }

  lemma FinishedMerged(rr: seq<seq<Rectangle>>)
    requires |rr| == 5 && rr[0] == [] && rr[1] == [Rect(1, 1, 2, 2), Rect(4, 1, 5, 2)] && rr[2] == [Rect(2, 2, 3, 3)]
    ensures Rows(5, rr[..3]).rects == [Rect(1, 1, 3, 3)] && Rows(5, rr[..3]).done == [Rect(4, 1, 5, 2)]
  {
    OpenStep(5, rr, 0);
    OpenStep(5, rr, 1);
    FinishingStep(rr, 2);
  }

  /** The box at (2, 2) merges into the pixel at (1, 1) and finishes the one at (4, 1). */
  lemma FinishingStep(rr: seq<seq<Rectangle>>, k: nat)
    requires k < |rr| && rr[k] == [Rect(2, 2, 3, 3)]
    requires Rows(5, rr[..k]).cols == Blank(5) && Rows(5, rr[..k]).rects == [Rect(1, 1, 2, 2), Rect(4, 1, 5, 2)]
    requires Rows(5, rr[..k]).done == []
    ensures Rows(5, rr[..k + 1]).rects == [Rect(1, 1, 3, 3)] && Rows(5, rr[..k + 1]).done == [Rect(4, 1, 5, 2)]
  {
    RowsSnoc(5, rr, k);
    FinishingMerge(Rows(5, rr[..k]));
  }

  /** The columns `add` leaves, in terms of its scan. */
  lemma AddedCols(s: SlateState, o: Rectangle)
    requires Names(s.cols, |s.rects|)
    ensures var res := Scan(s.cols, s.rects, ScanLo(o), ScanHi(o, |s.cols|), 0, o.Inset(-1));
      AddSpec(s, o).cols == DrawOn(s.cols, res.0.Inset(1), |s.rects| + 1)
  {
  }

  /** `remove` as the joiner does it: one rectangle more at the end of the list. */
  lemma SplitSnoc(m: seq<Rectangle>, r: Rectangle, y: int)
    ensures Open(m + [r], y) == Open(m, y) + (if r != ZR && y <= r.max.y then [r] else [])
    ensures Finished(m + [r], y) == Finished(m, y) + (if r != ZR && r.max.y < y then [r] else [])
  {
    assert (m + [r])[..|m|] == m;
  }

  /** Drawing a rectangle over columns 1 and 2 and one over column 4. */
  lemma PaintWide(a: Rectangle, d: Rectangle)
    requires a.min.x == 1 && a.max.x == 3 && d.min.x == 4 && d.max.x == 5
    ensures var c := Painted(Blank(5), [a, d], 2);
      |c| == 5 && c[0] == 0 && c[1] == 1 && c[2] == 1 && c[3] == 0 && c[4] == 2
  {
    assert Painted(Blank(5), [a, d], 0) == Blank(5);
    var c1 := Painted(Blank(5), [a, d], 1);
    assert c1[0] == 0 && c1[1] == 1 && c1[2] == 1 && c1[3] == 0 && c1[4] == 0;
  }

  /** Drawing one rectangle over columns 1 and 2. */
  lemma PaintOneWide(a: Rectangle)
    requires a.min.x == 1 && a.max.x == 3
    ensures var c := Painted(Blank(5), [a], 1);
      |c| == 5 && c[0] == 0 && c[1] == 1 && c[2] == 1 && c[3] == 0 && c[4] == 0
  {
    assert Painted(Blank(5), [a], 0) == Blank(5);
  }

  /** The scan over columns 3 and 4: column 3 is free, column 4 names rectangle q. */
  lemma ScanRight(c: seq<int>, rs: seq<Rectangle>, q: int, ru: Rectangle)
    requires |c| == 5 && Names(c, |rs|) && c[3] == 0 && c[4] == q && 1 <= q <= |rs|
    ensures Scan(c, rs, 3, 5, 0, ru) == (ru.Union(rs[q - 1].Inset(-1)), rs[q - 1 := ZR])
  {
    var u := ru.Union(rs[q - 1].Inset(-1));
    assert Scan(c, rs[q - 1 := ZR], 5, 5, q, u) == (u, rs[q - 1 := ZR]);
    assert Scan(c, rs, 4, 5, 0, ru) == (u, rs[q - 1 := ZR]);
  }

  /** The scan over columns 3 and 4 when both are free. */
  lemma ScanFree(c: seq<int>, rs: seq<Rectangle>, ru: Rectangle)
    requires |c| == 5 && Names(c, |rs|) && c[3] == 0 && c[4] == 0
    ensures Scan(c, rs, 3, 5, 0, ru) == (ru, rs)
  {
    assert Scan(c, rs, 4, 5, 0, ru) == (ru, rs);
  }

  /** The scan over columns 1 to 3: columns 1 and 2 name the first rectangle, column 3 is free. */
  lemma ScanLeft(c: seq<int>, rs: seq<Rectangle>, ru: Rectangle)
    requires |c| == 5 && Names(c, |rs|) && c[1] == 1 && c[2] == 1 && c[3] == 0 && 1 <= |rs|
    ensures Scan(c, rs, 1, 4, 0, ru) == (ru.Union(rs[0].Inset(-1)), rs[0 := ZR])
  {
    var u := ru.Union(rs[0].Inset(-1));
    assert Scan(c, rs[0 := ZR], 3, 4, 1, u) == (u, rs[0 := ZR]);
    assert Scan(c, rs[0 := ZR], 2, 4, 1, u) == (u, rs[0 := ZR]);
  }

  /** A one-pixel box in column 4 right under a rectangle in that column joins it into one column-4 rectangle. */
  lemma JoinBelow(o: Rectangle, e: Rectangle)
    requires o.min.x == 4 && o.max.x == 5 && o.max.y == o.min.y + 1
    requires e.min.x == 4 && e.max.x == 5 && e.min.y < e.max.y == o.min.y
    ensures o.Inset(-1).Union(e.Inset(-1)).Inset(1) == Rect(4, e.min.y, 5, o.max.y)
  {
    assert o.Inset(-1) == Rect(3, o.min.y - 1, 6, o.max.y + 1);
    assert e.Inset(-1) == Rect(3, e.min.y - 1, 6, e.max.y + 1);
    assert o.Inset(-1).Union(e.Inset(-1)) == Rect(3, e.min.y - 1, 6, o.max.y + 1);
  }

  /** `add` of a box in column 4, whose scan meets rectangle q in column 4. */
  lemma AddRight(s: SlateState, o: Rectangle, q: int)
    requires |s.cols| == 5 && Names(s.cols, |s.rects|) && s.cols[3] == 0 && s.cols[4] == q && 1 <= q <= |s.rects|
    requires o.min.x == 4 && o.max.x == 5 && o.max.y == o.min.y + 1
    requires s.rects[q - 1].min.x == 4 && s.rects[q - 1].max.x == 5 && s.rects[q - 1].min.y < s.rects[q - 1].max.y == o.min.y
    ensures AddSpec(s, o).rects == s.rects[q - 1 := ZR] + [Rect(4, s.rects[q - 1].min.y, 5, o.max.y)]
  {
    assert ScanLo(o) == 3 && ScanHi(o, 5) == 5;
    ScanRight(s.cols, s.rects, q, o.Inset(-1));
    AddedRects(s, o);
    JoinBelow(o, s.rects[q - 1]);
  }

  /** `add` of a box in column 4 whose scan meets nothing. */
  lemma AddFree(s: SlateState, o: Rectangle)
    requires |s.cols| == 5 && Names(s.cols, |s.rects|) && s.cols[3] == 0 && s.cols[4] == 0
    requires o.Canonical() && o.min.x == 4 && o.max.x == 5
    ensures AddSpec(s, o).rects == s.rects + [o]
  {
    assert ScanLo(o) == 3 && ScanHi(o, 5) == 5;
    ScanFree(s.cols, s.rects, o.Inset(-1));
    AddedRects(s, o);
    InsetRoundTrip(o);
  }

  /** `add` of a box in column 2, whose scan meets the first rectangle in columns 1 and 2. */
  lemma AddLeft(s: SlateState, o: Rectangle)
    requires |s.cols| == 5 && Names(s.cols, |s.rects|) && s.cols[1] == 1 && s.cols[2] == 1 && s.cols[3] == 0
    requires 1 <= |s.rects| && o.Canonical() && o.min.x == 2 && o.max.x == 3
    ensures var r := o.Inset(-1).Union(s.rects[0].Inset(-1)).Inset(1);
      AddSpec(s, o).rects == s.rects[0 := ZR] + [r] && AddSpec(s, o).cols == DrawOn(s.cols, r, |s.rects| + 1)
  {
    assert ScanLo(o) == 1 && ScanHi(o, 5) == 4;
    ScanLeft(s.cols, s.rects, o.Inset(-1));
    AddedRects(s, o);
    AddedCols(s, o);
  }

  /** The rectangles and columns after the box at (2, 2) joins the pixel at (1, 1), beside the one at (4, 1). */
  lemma AddSpecTwoCols(s0: SlateState, b: Rectangle)
    requires s0.rects == [Rect(1, 1, 2, 2), Rect(4, 1, 5, 2)] && b == Rect(2, 2, 3, 3)
    requires |s0.cols| == 5 && s0.cols[0] == 0 && s0.cols[1] == 1 && s0.cols[2] == 0 && s0.cols[3] == 0 && s0.cols[4] == 2
    ensures AddSpec(s0, b).rects == [ZR, Rect(4, 1, 5, 2), Rect(1, 1, 3, 3)]
    ensures AddSpec(s0, b).cols[3] == 0 && AddSpec(s0, b).cols[4] == 2
  {
    AddSpecTwo(s0, b);
    assert ScanLo(b) == 1 && ScanHi(b, 5) == 4 && b.Inset(-1) == Rect(1, 1, 4, 4);
    ScanTwo(s0.cols, s0.rects[0], s0.rects[1]);
    AddedCols(s0, b);
    assert Rect(0, 0, 4, 4).Inset(1) == Rect(1, 1, 3, 3);
  }

  /** `add` of one box, then of a second. */
  lemma AddAllOne(s: SlateState, o: Rectangle)
    requires Names(s.cols, |s.rects|)
    ensures AddAll(s, [o]) == AddSpec(s, o)
  {
    assert [o][..0] == [];
  }

  lemma AddAllTwo(s: SlateState, o: Rectangle, p: Rectangle)
    requires Names(s.cols, |s.rects|)
    ensures AddAll(s, [o, p]) == AddSpec(AddSpec(s, o), p)
  {
    assert [o, p][..1] == [o];
    AddAllOne(s, o);
  }

  lemma PairAdded(s0: SlateState)
    requires s0.rects == [Rect(1, 1, 2, 2), Rect(4, 1, 5, 2)] && Names(s0.cols, 2)
    requires |s0.cols| == 5 && s0.cols[0] == 0 && s0.cols[1] == 1 && s0.cols[2] == 0 && s0.cols[3] == 0 && s0.cols[4] == 2
    ensures AddAll(s0, [Rect(2, 2, 3, 3), Rect(4, 2, 5, 3)]).rects == [ZR, ZR, Rect(1, 1, 3, 3), Rect(4, 1, 5, 3)]
  {
    var b, f := Rect(2, 2, 3, 3), Rect(4, 2, 5, 3);
    AddAllTwo(s0, b, f);
    AddSpecTwoCols(s0, b);
    PairRight(AddSpec(s0, b));
  }

  /** The box at (4, 2) joins the pixel at (4, 1) once (2, 2) has joined (1, 1). */
  lemma PairRight(s1: SlateState)
    requires s1.rects == [ZR, Rect(4, 1, 5, 2), Rect(1, 1, 3, 3)]
    requires |s1.cols| == 5 && Names(s1.cols, 3) && s1.cols[3] == 0 && s1.cols[4] == 2
    ensures AddSpec(s1, Rect(4, 2, 5, 3)).rects == [ZR, ZR, Rect(1, 1, 3, 3), Rect(4, 1, 5, 3)]
  {
    var f := Rect(4, 2, 5, 3);
    AddRight(s1, f, 2);
  }

  lemma PairSplit(m: seq<Rectangle>)
    requires m == [ZR, ZR, Rect(1, 1, 3, 3), Rect(4, 1, 5, 3)]
    ensures Open(m, 3) == [Rect(1, 1, 3, 3), Rect(4, 1, 5, 3)] && Finished(m, 3) == []
  {
    SplitSnoc([], ZR, 3);
    assert [] + [ZR] == [ZR] && [ZR] + [ZR] == [ZR, ZR];
    SplitSnoc([ZR], ZR, 3);
    SplitSnoc([ZR, ZR], Rect(1, 1, 3, 3), 3);
    assert [ZR, ZR] + [Rect(1, 1, 3, 3)] + [Rect(4, 1, 5, 3)] == m;
    SplitSnoc([ZR, ZR] + [Rect(1, 1, 3, 3)], Rect(4, 1, 5, 3), 3);
  }

  /** `merge` of the boxes at (2, 2) and (4, 2) into the open pixels at (1, 1) and (4, 1): both stay open. */
  lemma PairMerge(j: JoinerState)
    requires j.cols == Blank(5) && j.rects == [Rect(1, 1, 2, 2), Rect(4, 1, 5, 2)] && j.done == []
    ensures MergeSpec(j, [Rect(2, 2, 3, 3), Rect(4, 2, 5, 3)]).rects == [Rect(1, 1, 3, 3), Rect(4, 1, 5, 3)]
    ensures MergeSpec(j, [Rect(2, 2, 3, 3), Rect(4, 2, 5, 3)]).done == []
  {
    PaintTwo(j.rects[0], j.rects[1]);
    PairAdded(SlateState(Painted(Blank(5), j.rects, 2), j.rects));
    PairSplit(Merged(j, [Rect(2, 2, 3, 3), Rect(4, 2, 5, 3)]).rects);
  }

  lemma LeftAdded(s0: SlateState)
    requires s0.rects == [Rect(1, 1, 3, 3), Rect(4, 1, 5, 3)]
    requires |s0.cols| == 5 && Names(s0.cols, 2) && s0.cols[1] == 1 && s0.cols[2] == 1 && s0.cols[3] == 0 && s0.cols[4] == 2
    ensures AddAll(s0, [Rect(2, 3, 3, 4)]).rects == [ZR, Rect(4, 1, 5, 3), Rect(1, 1, 3, 4)]
    ensures AddAll(s0, [Rect(2, 3, 3, 4)]).cols[3] == 0 && AddAll(s0, [Rect(2, 3, 3, 4)]).cols[4] == 2
  {
    AddAllOne(s0, Rect(2, 3, 3, 4));
    LeftJoin(s0, s0.rects[0], Rect(2, 3, 3, 4));
    assert s0.rects[0 := ZR] == [ZR, Rect(4, 1, 5, 3)];
  }

  /** The box at (2, 3) joins the rectangle [1,3)x[1,3) above it. */
  lemma LeftJoin(s0: SlateState, e: Rectangle, g: Rectangle)
    requires |s0.rects| == 2 && s0.rects[0] == e && e == Rect(1, 1, 3, 3) && g == Rect(2, 3, 3, 4)
    requires |s0.cols| == 5 && Names(s0.cols, 2) && s0.cols[1] == 1 && s0.cols[2] == 1 && s0.cols[3] == 0
    ensures AddSpec(s0, g).rects == s0.rects[0 := ZR] + [Rect(1, 1, 3, 4)]
    ensures AddSpec(s0, g).cols[3] == 0 && AddSpec(s0, g).cols[4] == s0.cols[4]
  {
    AddLeft(s0, g);
    LeftUnion(e, g);
  }

  /** Grown by one, the box at (2, 3) and [1,3)x[1,3) span [0,4)x[0,5), which shrinks back to [1,3)x[1,4). */
  lemma LeftUnion(e: Rectangle, g: Rectangle)
    requires e == Rect(1, 1, 3, 3) && g == Rect(2, 3, 3, 4)
    ensures g.Inset(-1).Union(e.Inset(-1)).Inset(1) == Rect(1, 1, 3, 4)
  {
    assert g.Inset(-1) == Rect(1, 2, 4, 5) && e.Inset(-1) == Rect(0, 0, 4, 4);
    assert Rect(1, 2, 4, 5).Union(Rect(0, 0, 4, 4)) == Rect(0, 0, 4, 5);
  }

  lemma LeftSplit(m: seq<Rectangle>)
    requires m == [ZR, Rect(4, 1, 5, 3), Rect(1, 1, 3, 4)]
    ensures Open(m, 4) == [Rect(1, 1, 3, 4)] && Finished(m, 4) == [Rect(4, 1, 5, 3)]
  {
    SplitSnoc([], ZR, 4);
    assert [] + [ZR] == [ZR];
    SplitSnoc([ZR], Rect(4, 1, 5, 3), 4);
    assert [ZR] + [Rect(4, 1, 5, 3)] + [Rect(1, 1, 3, 4)] == m;
    SplitSnoc([ZR] + [Rect(4, 1, 5, 3)], Rect(1, 1, 3, 4), 4);
  }

  /** `merge` of the box at (2, 3) into the open rectangles: it joins the left one and the right one is finished. */
  lemma LeftMerge(j: JoinerState)
    requires |j.cols| == 5 && j.rects == [Rect(1, 1, 3, 3), Rect(4, 1, 5, 3)] && j.done == []
    ensures MergeSpec(j, [Rect(2, 3, 3, 4)]).rects == [Rect(1, 1, 3, 4)]
    ensures MergeSpec(j, [Rect(2, 3, 3, 4)]).done == [Rect(4, 1, 5, 3)]
  {
    PaintWide(j.rects[0], j.rects[1]);
    LeftAdded(SlateState(Painted(Blank(5), j.rects, 2), j.rects));
    LeftSplit(Merged(j, [Rect(2, 3, 3, 4)]).rects);
  }

  lemma LoneAdded(s0: SlateState)
    requires s0.rects == [Rect(1, 1, 3, 4)]
    requires |s0.cols| == 5 && Names(s0.cols, 1) && s0.cols[3] == 0 && s0.cols[4] == 0
    ensures AddAll(s0, [Rect(4, 4, 5, 5)]).rects == [Rect(1, 1, 3, 4), Rect(4, 4, 5, 5)]
  {
    AddAllOne(s0, Rect(4, 4, 5, 5));
    AddFree(s0, Rect(4, 4, 5, 5));
  }

  lemma LoneSplit(m: seq<Rectangle>)
    requires m == [Rect(1, 1, 3, 4), Rect(4, 4, 5, 5)]
    ensures Open(m, 5) == [Rect(4, 4, 5, 5)] && Finished(m, 5) == [Rect(1, 1, 3, 4)]
  {
    SplitSnoc([], Rect(1, 1, 3, 4), 5);
    assert [] + [Rect(1, 1, 3, 4)] == [Rect(1, 1, 3, 4)];
    assert [Rect(1, 1, 3, 4)] + [Rect(4, 4, 5, 5)] == m;
    SplitSnoc([Rect(1, 1, 3, 4)], Rect(4, 4, 5, 5), 5);
  }

  /** `merge` of the pixel at (4, 4) beside the open rectangle [1,3)x[1,4): that one is finished. */
  lemma LoneMerge(j: JoinerState)
    requires |j.cols| == 5 && j.rects == [Rect(1, 1, 3, 4)]
    ensures MergeSpec(j, [Rect(4, 4, 5, 5)]).rects == [Rect(4, 4, 5, 5)]
    ensures MergeSpec(j, [Rect(4, 4, 5, 5)]).done == j.done + [Rect(1, 1, 3, 4)]
  {
    PaintOneWide(j.rects[0]);
    LoneAdded(SlateState(Painted(Blank(5), j.rects, 1), j.rects));
    LoneSplit(Merged(j, [Rect(4, 4, 5, 5)]).rects);
  }

  lemma TwoAdded(s0: SlateState)
    requires s0.rects == [Rect(1, 1, 3, 3), Rect(4, 1, 5, 3)]
    requires |s0.cols| == 5 && Names(s0.cols, 2) && s0.cols[1] == 1 && s0.cols[2] == 1 && s0.cols[3] == 0 && s0.cols[4] == 2
    ensures AddAll(s0, [Rect(2, 3, 3, 4), Rect(4, 3, 5, 4)]).rects == [ZR, ZR, Rect(1, 1, 3, 4), Rect(4, 1, 5, 4)]
  {
    var g, h := Rect(2, 3, 3, 4), Rect(4, 3, 5, 4);
    AddAllTwo(s0, g, h);
    LeftAdded(s0);
    AddAllOne(s0, g);
    TwoRight(AddSpec(s0, g));
  }

  /** The box at (4, 3) joins the rectangle [4,5)x[1,3) once (2, 3) has joined the left one. */
  lemma TwoRight(s1: SlateState)
    requires s1.rects == [ZR, Rect(4, 1, 5, 3), Rect(1, 1, 3, 4)]
    requires |s1.cols| == 5 && Names(s1.cols, 3) && s1.cols[3] == 0 && s1.cols[4] == 2
    ensures AddSpec(s1, Rect(4, 3, 5, 4)).rects == [ZR, ZR, Rect(1, 1, 3, 4), Rect(4, 1, 5, 4)]
  {
    var h := Rect(4, 3, 5, 4);
    AddRight(s1, h, 2);
  }

  lemma TwoSplit(m: seq<Rectangle>)
    requires m == [ZR, ZR, Rect(1, 1, 3, 4), Rect(4, 1, 5, 4)]
    ensures Open(m, 4) == [Rect(1, 1, 3, 4), Rect(4, 1, 5, 4)] && Finished(m, 4) == []
  {
    SplitSnoc([], ZR, 4);
    assert [] + [ZR] == [ZR] && [ZR] + [ZR] == [ZR, ZR];
    SplitSnoc([ZR], ZR, 4);
    SplitSnoc([ZR, ZR], Rect(1, 1, 3, 4), 4);
    assert [ZR, ZR] + [Rect(1, 1, 3, 4)] + [Rect(4, 1, 5, 4)] == m;
    SplitSnoc([ZR, ZR] + [Rect(1, 1, 3, 4)], Rect(4, 1, 5, 4), 4);
  }

  /** `merge` of the boxes at (2, 3) and (4, 3): each joins the rectangle above it and both stay open. */
  lemma TwoMerge(j: JoinerState)
    requires |j.cols| == 5 && j.rects == [Rect(1, 1, 3, 3), Rect(4, 1, 5, 3)] && j.done == []
    ensures MergeSpec(j, [Rect(2, 3, 3, 4), Rect(4, 3, 5, 4)]).rects == [Rect(1, 1, 3, 4), Rect(4, 1, 5, 4)]
    ensures MergeSpec(j, [Rect(2, 3, 3, 4), Rect(4, 3, 5, 4)]).done == []
  {
    PaintWide(j.rects[0], j.rects[1]);
    TwoAdded(SlateState(Painted(Blank(5), j.rects, 2), j.rects));
    TwoSplit(Merged(j, [Rect(2, 3, 3, 4), Rect(4, 3, 5, 4)]).rects);
  }

  lemma RightAdded(s0: SlateState)
    requires s0.rects == [Rect(1, 1, 3, 4), Rect(4, 1, 5, 4)]
    requires |s0.cols| == 5 && Names(s0.cols, 2) && s0.cols[3] == 0 && s0.cols[4] == 2
    ensures AddAll(s0, [Rect(4, 4, 5, 5)]).rects == [Rect(1, 1, 3, 4), ZR, Rect(4, 1, 5, 5)]
  {
    AddAllOne(s0, Rect(4, 4, 5, 5));
    RightJoin(s0, s0.rects[1], Rect(4, 4, 5, 5));
  }

  /** The pixel at (4, 4) joins the rectangle [4,5)x[1,4) above it. */
  lemma RightJoin(s0: SlateState, e: Rectangle, d: Rectangle)
    requires s0.rects == [Rect(1, 1, 3, 4), e] && e == Rect(4, 1, 5, 4) && d == Rect(4, 4, 5, 5)
    requires |s0.cols| == 5 && Names(s0.cols, 2) && s0.cols[3] == 0 && s0.cols[4] == 2
    ensures AddSpec(s0, d).rects == [Rect(1, 1, 3, 4), ZR, Rect(4, 1, 5, 5)]
  {
    AddRight(s0, d, 2);
    assert s0.rects[1 := ZR] == [Rect(1, 1, 3, 4), ZR];
  }

  lemma RightSplit(m: seq<Rectangle>)
    requires m == [Rect(1, 1, 3, 4), ZR, Rect(4, 1, 5, 5)]
    ensures Open(m, 5) == [Rect(4, 1, 5, 5)] && Finished(m, 5) == [Rect(1, 1, 3, 4)]
  {
    SplitSnoc([], Rect(1, 1, 3, 4), 5);
    assert [] + [Rect(1, 1, 3, 4)] == [Rect(1, 1, 3, 4)];
    SplitSnoc([Rect(1, 1, 3, 4)], ZR, 5);
    assert [Rect(1, 1, 3, 4)] + [ZR] + [Rect(4, 1, 5, 5)] == m;
    SplitSnoc([Rect(1, 1, 3, 4)] + [ZR], Rect(4, 1, 5, 5), 5);
  }

  /** `merge` of the pixel at (4, 4) under the right rectangle: it joins it, and the left one is finished. */
  lemma RightMerge(j: JoinerState)
    requires |j.cols| == 5 && j.rects == [Rect(1, 1, 3, 4), Rect(4, 1, 5, 4)] && j.done == []
    ensures MergeSpec(j, [Rect(4, 4, 5, 5)]).rects == [Rect(4, 1, 5, 5)]
    ensures MergeSpec(j, [Rect(4, 4, 5, 5)]).done == [Rect(1, 1, 3, 4)]
  {
    PaintWide(j.rects[0], j.rects[1]);
    RightAdded(SlateState(Painted(Blank(5), j.rects, 2), j.rects));
    RightSplit(Merged(j, [Rect(4, 4, 5, 5)]).rects);
  }

  lemma LeftStep(rr: seq<seq<Rectangle>>, k: nat)
    requires k < |rr| && rr[k] == [Rect(2, 3, 3, 4)]
    requires Rows(5, rr[..k]).rects == [Rect(1, 1, 3, 3), Rect(4, 1, 5, 3)] && Rows(5, rr[..k]).done == []
    ensures Rows(5, rr[..k + 1]).rects == [Rect(1, 1, 3, 4)] && Rows(5, rr[..k + 1]).done == [Rect(4, 1, 5, 3)]
  {
    RowsSnoc(5, rr, k);
    LeftMerge(Rows(5, rr[..k]));
  }

  lemma LoneStep(rr: seq<seq<Rectangle>>, k: nat)
    requires k < |rr| && rr[k] == [Rect(4, 4, 5, 5)] && Rows(5, rr[..k]).rects == [Rect(1, 1, 3, 4)]
    ensures Rows(5, rr[..k + 1]).rects == [Rect(4, 4, 5, 5)]
    ensures Rows(5, rr[..k + 1]).done == Rows(5, rr[..k]).done + [Rect(1, 1, 3, 4)]
  {
    RowsSnoc(5, rr, k);
    LoneMerge(Rows(5, rr[..k]));
  }

  lemma TwoStep(rr: seq<seq<Rectangle>>, k: nat)
    requires k < |rr| && rr[k] == [Rect(2, 3, 3, 4), Rect(4, 3, 5, 4)]
    requires Rows(5, rr[..k]).rects == [Rect(1, 1, 3, 3), Rect(4, 1, 5, 3)] && Rows(5, rr[..k]).done == []
    ensures Rows(5, rr[..k + 1]).rects == [Rect(1, 1, 3, 4), Rect(4, 1, 5, 4)] && Rows(5, rr[..k + 1]).done == []
  {
    RowsSnoc(5, rr, k);
    TwoMerge(Rows(5, rr[..k]));
  }

  lemma RightStep(rr: seq<seq<Rectangle>>, k: nat)
    requires k < |rr| && rr[k] == [Rect(4, 4, 5, 5)]
    requires Rows(5, rr[..k]).rects == [Rect(1, 1, 3, 4), Rect(4, 1, 5, 4)] && Rows(5, rr[..k]).done == []
    ensures Rows(5, rr[..k + 1]).rects == [Rect(4, 1, 5, 5)] && Rows(5, rr[..k + 1]).done == [Rect(1, 1, 3, 4)]
  {
    RowsSnoc(5, rr, k);
    RightMerge(Rows(5, rr[..k]));
  }

  /** Rows 0 to 2 of the two-column vectors: two pixels, then a box under each. */
  lemma PairMerged(rr: seq<seq<Rectangle>>)
    requires |rr| == 5 && rr[0] == [] && rr[1] == [Rect(1, 1, 2, 2), Rect(4, 1, 5, 2)]
    requires rr[2] == [Rect(2, 2, 3, 3), Rect(4, 2, 5, 3)]
    ensures Rows(5, rr[..3]).rects == [Rect(1, 1, 3, 3), Rect(4, 1, 5, 3)] && Rows(5, rr[..3]).done == []
  {
    OpenStep(5, rr, 0);
    OpenStep(5, rr, 1);
    RowsSnoc(5, rr, 2);
    PairMerge(Rows(5, rr[..2]));
  }

  /** Two columns that grow side by side stay apart, and the late pixel at (4, 4) comes last. */
  lemma SideBySide(rr: seq<seq<Rectangle>>)
    requires rr == [[], [Rect(1, 1, 2, 2), Rect(4, 1, 5, 2)], [Rect(2, 2, 3, 3), Rect(4, 2, 5, 3)], [], [Rect(4, 4, 5, 5)]]
    ensures Connected(5, rr) == [Rect(1, 1, 3, 3), Rect(4, 1, 5, 3), Rect(4, 4, 5, 5)]
  {
    SideBySideRows(rr);
  }

  lemma SideBySideRows(rr: seq<seq<Rectangle>>)
    requires |rr| == 5 && rr[0] == [] && rr[1] == [Rect(1, 1, 2, 2), Rect(4, 1, 5, 2)]
    requires rr[2] == [Rect(2, 2, 3, 3), Rect(4, 2, 5, 3)] && rr[3] == [] && rr[4] == [Rect(4, 4, 5, 5)]
    ensures Rows(5, rr).done == [Rect(1, 1, 3, 3), Rect(4, 1, 5, 3)] && Rows(5, rr).rects == [Rect(4, 4, 5, 5)]
  {
    PairMerged(rr);
    RetireStep(5, rr, 3);
    OpenLast(5, rr);
  }

  /**
   * When only the left column grows on row 3, the right one is finished
   * first, then the left one, then the late pixel.
   */
  lemma LeftGrows(rr: seq<seq<Rectangle>>)
    requires rr == [[], [Rect(1, 1, 2, 2), Rect(4, 1, 5, 2)], [Rect(2, 2, 3, 3), Rect(4, 2, 5, 3)], [Rect(2, 3, 3, 4)], [Rect(4, 4, 5, 5)]]
    ensures Connected(5, rr) == [Rect(4, 1, 5, 3), Rect(1, 1, 3, 4), Rect(4, 4, 5, 5)]
  {
    LeftGrowsRows(rr);
  }

  lemma LeftGrowsRows(rr: seq<seq<Rectangle>>)
    requires |rr| == 5 && rr[0] == [] && rr[1] == [Rect(1, 1, 2, 2), Rect(4, 1, 5, 2)]
    requires rr[2] == [Rect(2, 2, 3, 3), Rect(4, 2, 5, 3)] && rr[3] == [Rect(2, 3, 3, 4)] && rr[4] == [Rect(4, 4, 5, 5)]
    ensures Rows(5, rr).done == [Rect(4, 1, 5, 3), Rect(1, 1, 3, 4)] && Rows(5, rr).rects == [Rect(4, 4, 5, 5)]
  {
    PairMerged(rr);
    LeftStep(rr, 3);
    LoneStep(rr, 4);
    assert rr[..5] == rr;
  }

  /**
   * When both columns grow on row 3 and the pixel at (4, 4) touches the
   * right one, it joins it: two rectangles, the left one finished first.
   */
  lemma BothGrow(rr: seq<seq<Rectangle>>)
    requires rr == [[], [Rect(1, 1, 2, 2), Rect(4, 1, 5, 2)], [Rect(2, 2, 3, 3), Rect(4, 2, 5, 3)], [Rect(2, 3, 3, 4), Rect(4, 3, 5, 4)], [Rect(4, 4, 5, 5)]]
    ensures Connected(5, rr) == [Rect(1, 1, 3, 4), Rect(4, 1, 5, 5)]
  {
    BothGrowRows(rr);
  }

  lemma BothGrowRows(rr: seq<seq<Rectangle>>)
    requires |rr| == 5 && rr[0] == [] && rr[1] == [Rect(1, 1, 2, 2), Rect(4, 1, 5, 2)]
    requires rr[2] == [Rect(2, 2, 3, 3), Rect(4, 2, 5, 3)] && rr[3] == [Rect(2, 3, 3, 4), Rect(4, 3, 5, 4)]
    requires rr[4] == [Rect(4, 4, 5, 5)]
    ensures Rows(5, rr).done == [Rect(1, 1, 3, 4)] && Rows(5, rr).rects == [Rect(4, 1, 5, 5)]
  {
    PairMerged(rr);
    TwoStep(rr, 3);
    RightStep(rr, 4);
    assert rr[..5] == rr;
  }
}
