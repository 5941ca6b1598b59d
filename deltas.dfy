/**
 * Rolling per-byte sums and per-pixel delta scores (gophercon14talk/deltas.go,
 * package motion): one uint32 running total per frame byte, averaged over
 * LAVGN frames, and the format-specific squared colour distances.
 */
module Deltas {
  import opened Ints

  /** How many frames are averaged. */
  const LAVGN: int := 64

  /** The largest running total that can arise from LAVGN bytes. */
  const MaxSteadySum: int := LAVGN * 0xFF

  // ---------------------------------------------------------------- lnsum

  /** `lnsum.div`: the total divided by LAVGN, truncated to a byte. */
  function Div(l: u32): (avg: byte)
    ensures avg <= l / LAVGN
    ensures l <= MaxSteadySum ==> avg == l / LAVGN
  {
    ToByte(l / LAVGN)
  }

  /**
   * `lnsum.roll`: add the new value and subtract the one from LAVGN frames
   * ago. The source goes through int32 and back to uint32; both conversions
   * wrap, so the result is the sum modulo 2^32.
   */
  function Roll(l: u32, oldv: byte, newv: byte): (r: u32)
    ensures 0 <= l + newv - oldv < TwoTo32 ==> r == l + newv - oldv
    ensures (r - (l + newv - oldv)) % TwoTo32 == 0
  {
    ToU32(l + newv - oldv)
  }

  /** `x mod 2^32` for x within one wrap of the range. */
  lemma WrapOnce(x: int)
    requires -TwoTo32 <= x < 2 * TwoTo32
    ensures ToU32(x) == if x < 0 then x + TwoTo32 else if x < TwoTo32 then x else x - TwoTo32
  {
    if x < 0 {
      assert x == -1 * TwoTo32 + (x + TwoTo32);
    } else if x < TwoTo32 {
      assert x == 0 * TwoTo32 + x;
    } else {
      assert x == 1 * TwoTo32 + (x - TwoTo32);
    }
  }

  /** Rolling a value in and then rolling it back out restores the total, wrap-around included. */
  lemma RollUndo(l: u32, oldv: byte, newv: byte)
    ensures Roll(Roll(l, oldv, newv), newv, oldv) == l
  {
    WrapOnce(l + newv - oldv);
    var r := Roll(l, oldv, newv);
    WrapOnce(r + oldv - newv);
  }

  /** Rolling in a value equal to the one displaced leaves the total as it was. */
  lemma RollSame(l: u32, v: byte)
    ensures Roll(l, v, v) == l
  {
  }

  // ---------------------------------------------------------------- sums

  /** The totals after every position k has rolled out oldb[k] and in newb[k]. */
  function RolledSums(s: seq<u32>, oldb: seq<byte>, newb: seq<byte>): (r: seq<u32>)
    requires |oldb| >= |s| && |newb| >= |s|
    ensures |r| == |s|
  {
    if |s| == 0 then [] else [Roll(s[0], oldb[0], newb[0])] + RolledSums(s[1..], oldb[1..], newb[1..])
  }

  /** The deltas of one call: the average before this frame minus the new byte. */
  function AvgDeltas(s: seq<u32>, newb: seq<byte>): (d: seq<int>)
    requires |newb| >= |s|
    ensures |d| == |s|
  {
    if |s| == 0 then [] else [Div(s[0]) - newb[0]] + AvgDeltas(s[1..], newb[1..])
  }

  /** Position k of the rolled totals is the total at k with oldb[k] rolled out and newb[k] in. */
  lemma {:induction false} RolledSumsAt(s: seq<u32>, oldb: seq<byte>, newb: seq<byte>)
    requires |oldb| >= |s| && |newb| >= |s|
    ensures forall k :: 0 <= k < |s| ==> RolledSums(s, oldb, newb)[k] == Roll(s[k], oldb[k], newb[k])
  {
    if |s| > 0 {
      RolledSumsAt(s[1..], oldb[1..], newb[1..]);
    }
  }

  /** Delta k is the average in total k minus new byte k. */
  lemma {:induction false} AvgDeltasAt(s: seq<u32>, newb: seq<byte>)
    requires |newb| >= |s|
    ensures forall k :: 0 <= k < |s| ==> AvgDeltas(s, newb)[k] == Div(s[k]) - newb[k]
  {
    if |s| > 0 {
      AvgDeltasAt(s[1..], newb[1..]);
    }
  }

  /**
   * `lnsumslc.rollSumDelta` on the slice sums[start .. start+n): for every
   * position, first the delta against the total as it was before this frame,
   * then the total rolled. Nothing outside the slice changes.
   */
  method RollSumDelta(sums: array<u32>, start: nat, n: nat, b: seq<byte>, delta: array<int>, oldb: seq<byte>)
    requires start + n <= sums.Length && |b| >= n && |oldb| >= n && delta.Length >= n
    modifies sums, delta
    ensures sums[..start] == old(sums[..start]) && sums[start + n..] == old(sums[start + n..])
    ensures sums[start..start + n] == RolledSums(old(sums[start..start + n]), oldb, b)
    ensures delta[..n] == AvgDeltas(old(sums[start..start + n]), b)
    ensures delta[n..] == old(delta[n..])
  {
    ghost var s0 := sums[..];
    ghost var d0 := delta[..];
    var i := 0;
    while i < n
      invariant 0 <= i <= n
      invariant RolledUpTo(sums[..], delta[..], s0, d0, start, i, oldb, b)
    {
      ghost var s, d := sums[..], delta[..];
      delta[i] := Div(sums[start + i]) - b[i];
      sums[start + i] := Roll(sums[start + i], oldb[i], b[i]);
      RolledStep(s, d, s0, d0, start, i, oldb, b, sums[..], delta[..], i + 1);
      i := i + 1;
    }
    RolledDone(sums[..], delta[..], s0, d0, start, n, oldb, b);
  }

  /** rollSumDelta after i positions: those totals rolled and deltas set, everything else as it was. */
  ghost predicate RolledUpTo(s: seq<u32>, d: seq<int>, s0: seq<u32>, d0: seq<int>, start: nat, i: nat,
                             oldb: seq<byte>, b: seq<byte>)
  {
    |s| == |s0| && |d| == |d0| && start + i <= |s| && i <= |d| && i <= |oldb| && i <= |b| &&
    (forall k :: 0 <= k < |s| && !(start <= k < start + i) ==> s[k] == s0[k]) &&
    (forall k :: 0 <= k < i ==> s[start + k] == Roll(s0[start + k], oldb[k], b[k])) &&
    (forall k :: 0 <= k < i ==> d[k] == Div(s0[start + k]) - b[k]) &&
    (forall k :: i <= k < |d| ==> d[k] == d0[k])
  }

  /** One more position: the delta from the total before it rolls, then the rolled total. */
  lemma RolledStep(s: seq<u32>, d: seq<int>, s0: seq<u32>, d0: seq<int>, start: nat, i: nat,
                   oldb: seq<byte>, b: seq<byte>, s': seq<u32>, d': seq<int>, next: nat)
    requires RolledUpTo(s, d, s0, d0, start, i, oldb, b)
    requires next == i + 1 && start + next <= |s| && next <= |d| && next <= |oldb| && next <= |b|
    requires d' == d[i := Div(s[start + i]) - b[i]]
    requires s' == s[start + i := Roll(s[start + i], oldb[i], b[i])]
    ensures RolledUpTo(s', d', s0, d0, start, next, oldb, b)
  {
  }

  /** All n positions done: the slice holds the rolled totals, the first n deltas are set, the rest is untouched. */
  lemma RolledDone(s: seq<u32>, d: seq<int>, s0: seq<u32>, d0: seq<int>, start: nat, n: nat,
                   oldb: seq<byte>, b: seq<byte>)
    requires RolledUpTo(s, d, s0, d0, start, n, oldb, b)
    ensures s[..start] == s0[..start] && s[start + n..] == s0[start + n..]
    ensures s[start..start + n] == RolledSums(s0[start..start + n], oldb, b)
    ensures d[..n] == AvgDeltas(s0[start..start + n], b) && d[n..] == d0[n..]
  {
    RolledSumsAt(s0[start..start + n], oldb, b);
    AvgDeltasAt(s0[start..start + n], b);
  }

  /** `lnsumslc.add`: roll every position with an old value of 0 (the warm-up step). */
  method Add(sums: array<u32>, b: seq<byte>)
    requires |b| >= sums.Length
    modifies sums
    ensures sums[..] == RolledSums(old(sums[..]), Zeros(sums.Length), b)
  {
    ghost var s0 := sums[..];
    var i := 0;
    while i < sums.Length
      invariant 0 <= i <= sums.Length
      invariant forall k :: i <= k < sums.Length ==> sums[k] == s0[k]
      invariant forall k :: 0 <= k < i ==> sums[k] == Roll(s0[k], 0, b[k])
    {
      sums[i] := Roll(sums[i], 0, b[i]);
      i := i + 1;
    }
    RolledSumsAt(s0, Zeros(sums.Length), b);
  }

  /** The totals after k warm-up frames that all carry bytes b, starting from s. */
  function Accumulated(s: seq<u32>, b: seq<byte>, k: nat): (r: seq<u32>)
    requires |b| >= |s|
    ensures |r| == |s|
  {
    if k == 0 then s else RolledSums(Accumulated(s, b, k - 1), Zeros(|s|), b)
  }

  /** One more frame of x on top of k-1 of them, without wrap-around. */
  lemma MulStep(k: int, x: int)
    requires 1 <= k <= LAVGN && 0 <= x < 0x100
    ensures (k - 1) * x + x == k * x && 0 <= k * x <= LAVGN * 0xFF
  {
  }

  /** k identical frames added to zero totals give exactly k times each byte (no wrap for k <= LAVGN). */
  lemma {:induction false} AccumulatedFromZero(n: nat, b: seq<byte>, k: nat)
    requires |b| >= n && k <= LAVGN
    ensures forall j :: 0 <= j < n ==> Accumulated(seq(n, _ => 0), b, k)[j] == k * b[j]
  {
    if k > 0 {
      AccumulatedFromZero(n, b, k - 1);
      var prev := Accumulated(seq(n, _ => 0), b, k - 1);
      forall j | 0 <= j < n
        ensures Accumulated(seq(n, _ => 0), b, k)[j] == k * b[j]
      {
        MulStep(k, b[j]);
        RolledSumsAt(prev, Zeros(n), b);
        assert Accumulated(seq(n, _ => 0), b, k)[j] == Roll(prev[j], 0, b[j]);
      }
    }
  }

  /**
   * At a steady state (every total is LAVGN times the byte) rolling in the
   * same frame that is displaced changes no total and yields zero deltas.
   */
  lemma SteadyState(s: seq<u32>, b: seq<byte>)
    requires |b| >= |s|
    requires forall k :: 0 <= k < |s| ==> s[k] == LAVGN * b[k]
    ensures RolledSums(s, b, b) == s
    ensures forall k :: 0 <= k < |s| ==> AvgDeltas(s, b)[k] == 0
  {
    RolledSumsAt(s, b, b);
    AvgDeltasAt(s, b);
    forall k | 0 <= k < |s|
      ensures Div(s[k]) == b[k]
    {
      assert s[k] / LAVGN == b[k];
    }
  }

  // ---------------------------------------------------------------- scores

  /** `getDeltasGray`. */
  function ScoreGray(dy: int): int { dy * dy }

  /** `getDeltasYuv`: the two pixels of a YUYV pair share the chroma term. */
  function ScoreYuv(dy1: int, du: int, dy2: int, dv: int): (int, int)
  {
    var duvs := du * du + dv * dv;
    (dy1 * dy1 + duvs, dy2 * dy2 + duvs)
  }

  /** `getDeltasRgb`. */
  function ScoreRgb(dr: int, dg: int, db: int): int { dr * dr + dg * dg + db * db }

  /** Scores are sums of squares: never negative, and blind to the sign of every channel delta. */
  lemma ScoresSymmetric(a: int, b: int, c: int, d: int)
    ensures ScoreGray(a) >= 0 && ScoreGray(a) == ScoreGray(-a)
    ensures ScoreRgb(a, b, c) >= 0 && ScoreRgb(a, b, c) == ScoreRgb(-a, -b, -c)
    ensures ScoreYuv(a, b, c, d).0 >= 0 && ScoreYuv(a, b, c, d).1 >= 0
    ensures ScoreYuv(a, b, c, d) == ScoreYuv(-a, -b, -c, -d)
  {
    assert a * a >= 0 && b * b >= 0 && c * c >= 0 && d * d >= 0;
  }

  datatype FinderKind = Gray | Yuv | Rgb

  /** What `find` may read and write without panicking: buffer of n scores, d long enough. */
  predicate FindFits(kind: FinderKind, d: seq<int>, n: nat)
  {
    match kind
    case Gray => |d| >= n
    case Yuv => n % 2 == 0 && |d| >= 2 * n
    case Rgb => |d| >= 3 * n
  }

  /**
   * The score `find` leaves in slot c of a buffer of n. Gray writes only the
   * first ceil(n/2) slots, from every other delta; the rest keep their
   * initial 0.
   */
  function ScoreAt(kind: FinderKind, d: seq<int>, n: nat, c: nat): int
    requires FindFits(kind, d, n) && c < n
  {
    match kind
    case Gray => if c < (n + 1) / 2 then ScoreGray(d[2 * c]) else 0
    case Yuv => YuvSlot(d, c)
    case Rgb => ScoreRgb(d[3 * c], d[3 * c + 1], d[3 * c + 2])
  }

  /** Slot c of a yuyv buffer: one half of the pair scored from the four deltas of its two pixels. */
  function YuvSlot(d: seq<int>, c: nat): int
    requires 4 * (c / 2) + 3 < |d|
  {
    var p := 4 * (c / 2);
    var pair := ScoreYuv(d[p], d[p + 1], d[p + 2], d[p + 3]);
    if c % 2 == 0 then pair.0 else pair.1
  }

  /** The n scores `find` leaves in its buffer. */
  function Scores(kind: FinderKind, d: seq<int>, n: nat): (r: seq<int>)
    requires FindFits(kind, d, n)
    ensures |r| == n
  {
    ScoresUpTo(kind, d, n, n)
  }

  /** The first m of them, slot by slot. */
  function ScoresUpTo(kind: FinderKind, d: seq<int>, n: nat, m: nat): (r: seq<int>)
    requires FindFits(kind, d, n) && m <= n
    ensures |r| == m
  {
    if m == 0 then [] else ScoresUpTo(kind, d, n, m - 1) + [ScoreAt(kind, d, n, m - 1)]
  }

  /** Slot c of the first m scores is ScoreAt's slot c. */
  lemma {:induction false} ScoresUpToAt(kind: FinderKind, d: seq<int>, n: nat, m: nat)
    requires FindFits(kind, d, n) && m <= n
    ensures forall c :: 0 <= c < m ==> ScoresUpTo(kind, d, n, m)[c] == ScoreAt(kind, d, n, c)
  {
    if m > 0 {
      ScoresUpToAt(kind, d, n, m - 1);
    }
  }

  /** The scores, slot by slot, are what `find` leaves in each slot. */
  lemma ScoresAt(kind: FinderKind, d: seq<int>, n: nat)
    requires FindFits(kind, d, n)
    ensures forall c :: 0 <= c < n ==> Scores(kind, d, n)[c] == ScoreAt(kind, d, n, c)
  {
    ScoresUpToAt(kind, d, n, n);
  }

  function Negated(d: seq<int>): (r: seq<int>)
    ensures |r| == |d| && forall k :: 0 <= k < |d| ==> r[k] == -d[k]
  {
    seq(|d|, k requires 0 <= k < |d| => -d[k])
  }

  /** One slot's score is non-negative and the same for negated deltas. */
  lemma ScoreAtSymmetric(kind: FinderKind, d: seq<int>, n: nat, c: nat)
    requires FindFits(kind, d, n) && c < n
    ensures FindFits(kind, Negated(d), n)
    ensures ScoreAt(kind, d, n, c) >= 0
    ensures ScoreAt(kind, Negated(d), n, c) == ScoreAt(kind, d, n, c)
  {
    match kind
    case Gray => GraySlotSymmetric(d, n, c);
    case Yuv => YuvSlotSymmetric(d, n, c);
    case Rgb => RgbSlotSymmetric(d, n, c);
  }

  lemma GraySlotSymmetric(d: seq<int>, n: nat, c: nat)
    requires FindFits(Gray, d, n) && c < n
    ensures ScoreAt(Gray, d, n, c) >= 0 && ScoreAt(Gray, Negated(d), n, c) == ScoreAt(Gray, d, n, c)
  {
    if c < (n + 1) / 2 {
      ScoresSymmetric(d[2 * c], 0, 0, 0);
    }
  }

  lemma YuvSlotSymmetric(d: seq<int>, n: nat, c: nat)
    requires FindFits(Yuv, d, n) && c < n
    ensures ScoreAt(Yuv, d, n, c) >= 0 && ScoreAt(Yuv, Negated(d), n, c) == ScoreAt(Yuv, d, n, c)
  {
    var p := 4 * (c / 2);
    ScoresSymmetric(d[p], d[p + 1], d[p + 2], d[p + 3]);
  }

  lemma RgbSlotSymmetric(d: seq<int>, n: nat, c: nat)
    requires FindFits(Rgb, d, n) && c < n
    ensures ScoreAt(Rgb, d, n, c) >= 0 && ScoreAt(Rgb, Negated(d), n, c) == ScoreAt(Rgb, d, n, c)
  {
    ScoresSymmetric(d[3 * c], d[3 * c + 1], d[3 * c + 2], 0);
  }

  /** Every score is non-negative, whatever the deltas. */
  lemma ScoresNonNegative(kind: FinderKind, d: seq<int>, n: nat)
    requires FindFits(kind, d, n)
    ensures forall c :: 0 <= c < n ==> Scores(kind, d, n)[c] >= 0
  {
    ScoresAt(kind, d, n);
    forall c | 0 <= c < n
      ensures Scores(kind, d, n)[c] >= 0
    {
      ScoreAtSymmetric(kind, d, n, c);
    }
  }

  /** Swapping which frame is old and which is new negates the deltas and leaves every score unchanged. */
  lemma ScoresIgnoreSign(kind: FinderKind, d: seq<int>, n: nat)
    requires FindFits(kind, d, n)
    ensures FindFits(kind, Negated(d), n)
    ensures Scores(kind, Negated(d), n) == Scores(kind, d, n)
  {
    ScoresAt(kind, d, n);
    assert FindFits(kind, Negated(d), n);
    ScoresAt(kind, Negated(d), n);
    forall c | 0 <= c < n
      ensures Scores(kind, Negated(d), n)[c] == Scores(kind, d, n)[c]
    {
      ScoreAtSymmetric(kind, d, n, c);
    }
  }

  /**
   * A column delta finder: a score buffer that `find` overwrites and returns
   * (the slice types grayColumnDeltaFinder, yuvColumnDeltaFinder and
   * rgbColumnDeltaFinder, told apart by `kind`).
   */
  class ColumnDeltaFinder {
    const kind: FinderKind
    const buf: array<int>

    /** The gray finder's slots past ceil(n/2) are never written, so they stay 0. */
    ghost predicate Valid()
      reads this, buf
    {
      kind.Gray? ==> forall c :: (buf.Length + 1) / 2 <= c < buf.Length ==> buf[c] == 0
    }

    /** `build()`: a zeroed buffer of n scores. */
    constructor (kind: FinderKind, n: nat)
      ensures Valid() && this.kind == kind && fresh(buf) && buf.Length == n
    {
      this.kind := kind;
      buf := new int[n](_ => 0);
    }

    /** `find`: overwrite the buffer with the scores of d and return it. */
    method Find(d: seq<int>) returns (scores: seq<int>)
      requires Valid() && FindFits(kind, d, buf.Length)
      modifies buf
      ensures Valid() && scores == buf[..] == Scores(kind, d, buf.Length)
    {
      match kind {
        case Gray => FindGray(d);
        case Yuv => FindYuv(d);
        case Rgb => FindRgb(d);
      }
      scores := buf[..];
    }

    /** `grayColumnDeltaFinder.find`: every other delta, squared, into the first half. */
    method FindGray(d: seq<int>)
      requires kind == Gray && Valid() && FindFits(Gray, d, buf.Length)
      modifies buf
      ensures Valid() && buf[..] == Scores(Gray, d, buf.Length)
    {
      var n := buf.Length;
      var i := 0;
      while i < n
        invariant 0 <= i <= n + 1 && i % 2 == 0
        invariant forall c :: 0 <= c < i / 2 ==> buf[c] == ScoreGray(d[2 * c])
        invariant forall c :: (n + 1) / 2 <= c < n ==> buf[c] == 0
      {
        buf[i / 2] := ScoreGray(d[i]);
        i := i + 2;
      }
      assert i / 2 == (n + 1) / 2;
      assert forall c :: 0 <= c < n ==> buf[c] == ScoreAt(Gray, d, n, c);
      ScoresAt(Gray, d, n);
    }

    /** `yuvColumnDeltaFinder.find`: one YUYV group (4 deltas) gives two scores. */
    method FindYuv(d: seq<int>)
      requires kind == Yuv && FindFits(Yuv, d, buf.Length)
      modifies buf
      ensures buf[..] == Scores(Yuv, d, buf.Length)
    {
      var n := buf.Length;
      var p, i := 0, 0;
      while i < n
        invariant 0 <= i <= n && i % 2 == 0 && p == 2 * i
        invariant forall c :: 0 <= c < i ==> buf[c] == ScoreAt(Yuv, d, n, c)
      {
        assert 4 * (i / 2) == p && (i + 1) / 2 == i / 2 && (i + 1) % 2 == 1;
        var pair := ScoreYuv(d[p], d[p + 1], d[p + 2], d[p + 3]);
        buf[i], buf[i + 1] := pair.0, pair.1;
        p := p + 4;
        i := i + 2;
      }
      ScoresAt(Yuv, d, n);
    }

    /** `rgbColumnDeltaFinder.find`: three deltas per score. */
    method FindRgb(d: seq<int>)
      requires kind == Rgb && FindFits(Rgb, d, buf.Length)
      modifies buf
      ensures buf[..] == Scores(Rgb, d, buf.Length)
    {
      var n := buf.Length;
      var p, i := 0, 0;
      while i < n
        invariant 0 <= i <= n && p == 3 * i
        invariant forall c :: 0 <= c < i ==> buf[c] == ScoreAt(Rgb, d, n, c)
      {
        buf[i] := ScoreRgb(d[p], d[p + 1], d[p + 2]);
        p := p + 3;
        i := i + 1;
      }
      ScoresAt(Rgb, d, n);
    }
  }

  /**
   * The finder builders: the tracker stores one (nil until the first frame)
   * and every delta-finder job builds a fresh finder of `width` scores.
   */
  datatype FinderBuilder = NoBuilder | Builder(kind: FinderKind, width: int)

  // ---------------------------------------------------------------- vectors

  /** The first roll of [1,2,3,4] against zero totals gives deltas [-1,-2,-3,-4] and totals [1,2,3,4]. */
  lemma FirstRollExample()
    ensures AvgDeltas([0, 0, 0, 0], [1, 2, 3, 4]) == [-1, -2, -3, -4]
    ensures RolledSums([0, 0, 0, 0], [0, 0, 0, 0], [1, 2, 3, 4]) == [1, 2, 3, 4]
  {
    AvgDeltasAt([0, 0, 0, 0], [1, 2, 3, 4]);
    RolledSumsAt([0, 0, 0, 0], [0, 0, 0, 0], [1, 2, 3, 4]);
  }

  /** Against zero totals (the first frame) every delta is its new byte negated. */
  lemma AgainstZeroTotals(z: seq<u32>, b: seq<byte>)
    requires |b| >= |z| && forall k :: 0 <= k < |z| ==> z[k] == 0
    ensures forall k :: 0 <= k < |z| ==> AvgDeltas(z, b)[k] == -(b[k] as int)
  {
    AvgDeltasAt(z, b);
  }

  /**
   * The RGB row with pixels (1,0,2) and (0,3,0) at columns 1 and 3 has,
   * against zero totals, the deltas d (AgainstZeroTotals), which score
   * [0,5,0,9].
   */
  lemma RgbScoresExample(d: seq<int>)
    requires d == [0, 0, 0, -1, 0, -2, 0, 0, 0, 0, -3, 0]
    ensures Scores(Rgb, d, 4) == [0, 5, 0, 9]
  {
    ScoresAt(Rgb, d, 4);
    assert ScoreAt(Rgb, d, 4, 1) == 5 && ScoreAt(Rgb, d, 4, 3) == 9;
  }

  /** The YUYV row [0,2,1,0,0,0,0,3] has, against zero totals, the deltas d, which score [4,5,9,9]. */
  lemma YuvScoresExample(d: seq<int>)
    requires d == [0, -2, -1, 0, 0, 0, 0, -3]
    ensures Scores(Yuv, d, 4) == [4, 5, 9, 9]
  {
    ScoresAt(Yuv, d, 4);
    assert YuvSlot(d, 0) == 4 && YuvSlot(d, 1) == 5 && YuvSlot(d, 2) == 9 && YuvSlot(d, 3) == 9;
  }
}
