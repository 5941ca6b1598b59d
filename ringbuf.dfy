/**
 * The fixed-capacity FIFO of motion/ringbuf.go: an array `data`, the number
 * of queued elements `cnt` and the slot `i` of the oldest one.
 */
module RingBuf {

  /** The queue held by slots d[i], d[i+1], ... (wrapping), cnt of them. */
  ghost function View<T>(d: seq<T>, i: int, cnt: int): (q: seq<T>)
    requires 0 <= cnt <= |d| && (if |d| == 0 then i == 0 else 0 <= i < |d|)
    ensures |q| == cnt
  {
    if i + cnt <= |d| then d[i..i + cnt] else d[i..] + d[..i + cnt - |d|]
  }

  /** `a mod n` for 0 <= a < 2n, without non-linear reasoning at the call sites. */
  lemma ModOnce(a: int, n: int)
    requires 0 < n && 0 <= a < 2 * n
    ensures a % n == (if a < n then a else a - n)
  {
    if a < n {
      assert a == 0 * n + a;
    } else {
      assert a == 1 * n + (a - n);
    }
  }

  lemma ViewAt<T>(d: seq<T>, i: int, cnt: int, k: int)
    requires 0 <= cnt <= |d| && (if |d| == 0 then i == 0 else 0 <= i < |d|)
    requires 0 <= k < cnt
    ensures View(d, i, cnt)[k] == d[(i + k) % |d|]
  {
    ModOnce(i + k, |d|);
  }

  /** Writing x into the slot after the last queued one appends x to the queue. */
  lemma ViewEnqueue<T>(d0: seq<T>, d1: seq<T>, i: int, cnt: int, slot: int, x: T)
    requires 0 <= cnt < |d0| && 0 <= i < |d0| && slot == (i + cnt) % |d0| && d1 == d0[slot := x]
    ensures View(d1, i, cnt + 1) == View(d0, i, cnt) + [x]
  {
    forall k | 0 <= k < cnt + 1
      ensures View(d1, i, cnt + 1)[k] == (View(d0, i, cnt) + [x])[k]
    {
      ViewEnqueueAt(d0, d1, i, cnt, slot, x, k);
    }
  }

  lemma ViewEnqueueAt<T>(d0: seq<T>, d1: seq<T>, i: int, cnt: int, slot: int, x: T, k: int)
    requires 0 <= cnt < |d0| && 0 <= i < |d0| && slot == (i + cnt) % |d0| && d1 == d0[slot := x]
    requires 0 <= k <= cnt
    ensures View(d1, i, cnt + 1)[k] == if k < cnt then View(d0, i, cnt)[k] else x
  {
    ModOnce(i + cnt, |d0|);
    ViewAt(d1, i, cnt + 1, k);
    if k < cnt {
      ViewAt(d0, i, cnt, k);
      ModOnce(i + k, |d0|);
    }
  }

  /** Advancing the oldest slot by one, modulo the capacity, drops the head of the queue. */
  lemma ViewDequeue<T>(d: seq<T>, i: int, cnt: int)
    requires 0 < cnt <= |d| && 0 <= i < |d|
    ensures View(d, (i + 1) % |d|, cnt - 1) == View(d, i, cnt)[1..]
  {
    var i' := (i + 1) % |d|;
    forall k | 1 <= k < cnt
      ensures View(d, i', cnt - 1)[k - 1] == View(d, i, cnt)[k]
    {
      ViewDequeueAt(d, i, i', cnt, k - 1);
    }
  }

  lemma ViewDequeueAt<T>(d: seq<T>, i: int, i': int, cnt: int, k: int)
    requires 0 < cnt <= |d| && 0 <= i < |d| && i' == (i + 1) % |d| && 0 <= k < cnt - 1
    ensures View(d, i', cnt - 1)[k] == View(d, i, cnt)[k + 1]
  {
    ModOnce(i + 1, |d|);
    ViewAt(d, i', cnt - 1, k);
    ViewAt(d, i, cnt, k + 1);
    ModOnce(i' + k, |d|);
    ModOnce(i + k + 1, |d|);
  }

  class RingBuf<T(0)> {
    var cnt: int
    var i: int
    const data: array<T>

    /** Indices stay in range: the invariant Enqueue and Dequeue preserve. */
    ghost predicate Valid()
      reads this
    {
      0 <= cnt <= data.Length &&
      (if data.Length == 0 then i == 0 else 0 <= i < data.Length)
    }

    /** The queued elements, oldest first. */
    ghost function Contents(): (q: seq<T>)
      reads this, data
      requires Valid()
      ensures |q| == cnt
    {
      View(data[..], i, cnt)
    }

    /** A ring of `n` empty slots, as NewTracker builds it. */
    constructor (n: nat)
      ensures Valid() && fresh(data) && data.Length == n
      ensures cnt == 0 && i == 0 && Contents() == []
    {
      data := new T[n];
      cnt, i := 0, 0;
    }

    /** `Size` returns the number of queued elements. */
    function Size(): (n: int)
      reads this
      requires Valid()
      ensures n == cnt && 0 <= n <= data.Length
    {
      cnt
    }

    /** `Peek` reads slot i: the oldest element when the ring is not empty. */
    function Peek(): (x: T)
      reads this, data
      requires Valid() && data.Length > 0
      ensures cnt > 0 ==> x == Contents()[0]
    {
      if cnt > 0 then ViewAt(data[..], i, cnt, 0); ModOnce(i, data.Length); data[i] else data[i]
    }

    /**
     * `Enqueue` writes slot (i+cnt) mod len and counts it; on a full ring the
     * source panics, reported here as `overflow` with nothing changed.
     */
    method Enqueue(x: T) returns (overflow: bool)
      requires Valid()
      modifies this, data
      ensures Valid() && i == old(i)
      ensures overflow <==> old(cnt) >= data.Length
      ensures overflow ==> cnt == old(cnt) && unchanged(data)
      ensures !overflow ==> cnt == old(cnt) + 1 && Contents() == old(Contents()) + [x]
      ensures !overflow ==> data[(i + old(cnt)) % data.Length] == x &&
                            forall k :: 0 <= k < data.Length && k != (i + old(cnt)) % data.Length ==> data[k] == old(data[k])
    {
      if cnt >= data.Length {
        return true;
      }
      ghost var d0 := data[..];
      var slot := (i + cnt) % data.Length;
      ModOnce(i + cnt, data.Length);
      data[slot] := x;
      ViewEnqueue(d0, data[..], i, cnt, slot, x);
      cnt := cnt + 1;
      overflow := false;
    }

    /** `Dequeue` drops the oldest element: cnt-1, i advances modulo the capacity. */
    method Dequeue()
      requires Valid() && cnt > 0
      modifies this
      ensures Valid() && cnt == old(cnt) - 1 && i == (old(i) + 1) % data.Length
      ensures Contents() == old(Contents())[1..]
    {
      ViewDequeue(data[..], i, cnt);
      cnt, i := cnt - 1, (i + 1) % data.Length;
    }
  }
}
