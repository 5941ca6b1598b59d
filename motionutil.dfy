/**
 * motion/util.go: the RowRects shape of one row of height-one rectangles,
 * and RectAreaSlice, the sort.Interface that orders rectangles by
 * decreasing area.
 */
module MotionUtil {
  import opened Geom

  /** `RowRects`: every rectangle shares the first one's Min.Y and has Max.Y = Min.Y + 1. */
  ghost predicate IsRowRects(rs: seq<Rectangle>)
  {
    forall k :: 0 <= k < |rs| ==> rs[k].min.y == rs[0].min.y && rs[k].max.y == rs[k].min.y + 1
  }

  /** The area `Less` compares: Size().X times Size().Y. */
  function Area(r: Rectangle): int
  {
    r.Size().x * r.Size().y
  }

  /** `RectAreaSlice.Less`: r comes before s when its area is strictly larger. */
  predicate AreaLess(r: Rectangle, s: Rectangle)
  {
    Area(r) > Area(s)
  }

  /** `Len`. */
  function Len(a: array<Rectangle>): (n: int)
    reads a
    ensures n == a.Length && n >= 0
  {
    a.Length
  }

  /** `Less(i, j)` on the slice. */
  predicate Less(a: array<Rectangle>, i: int, j: int)
    reads a
    requires 0 <= i < a.Length && 0 <= j < a.Length
  {
    AreaLess(a[i], a[j])
  }

  /** `Swap(i, j)`: the two entries trade places and nothing else moves. */
  method Swap(a: array<Rectangle>, i: int, j: int)
    requires 0 <= i < a.Length && 0 <= j < a.Length
    modifies a
    ensures a[i] == old(a[j]) && a[j] == old(a[i])
    ensures forall k :: 0 <= k < a.Length && k != i && k != j ==> a[k] == old(a[k])
    ensures multiset(a[..]) == multiset(old(a[..]))
  {
    a[i], a[j] := a[j], a[i];
  }

  /**
   * `Less` is what sort.Sort needs: a strict weak order. It is irreflexive
   * and transitive, and rectangles neither of which is less than the other
   * are exactly those of equal area, so incomparability is transitive too.
   */
  lemma LessStrictWeakOrder(r: Rectangle, s: Rectangle, u: Rectangle)
    ensures !AreaLess(r, r)
    ensures AreaLess(r, s) ==> !AreaLess(s, r)
    ensures AreaLess(r, s) && AreaLess(s, u) ==> AreaLess(r, u)
    ensures !AreaLess(r, s) && !AreaLess(s, r) <==> Area(r) == Area(s)
    ensures Area(r) == Area(s) && Area(s) == Area(u) ==> !AreaLess(r, u) && !AreaLess(u, r)
  {
  }

  /** What sort.Sort leaves: no entry is Less than the one before it. */
  ghost predicate SortedByArea(rs: seq<Rectangle>)
  {
    forall k :: 0 < k < |rs| ==> !AreaLess(rs[k], rs[k - 1])
  }

  /** A RectAreaSlice in sorted order has non-increasing areas from first to last. */
  lemma {:induction false} SortedDecreasing(rs: seq<Rectangle>, i: int, j: int)
    requires SortedByArea(rs) && 0 <= i <= j < |rs|
    ensures Area(rs[i]) >= Area(rs[j])
    decreases j - i
  {
    if i < j {
      SortedDecreasing(rs, i + 1, j);
      assert !AreaLess(rs[i + 1], rs[i]);
    }
  }
}
