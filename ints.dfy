/** Fixed-width integers of the Go source, written out over Dafny's unbounded int. */
module Ints {

  /** Go's `byte` / `uint8`. */
  type byte = x: int | 0 <= x < 0x100

  /** Go's `uint32`. */
  type u32 = x: int | 0 <= x < 0x1_0000_0000

  const TwoTo32: int := 0x1_0000_0000

  /** Go's conversion `uint8(x)` of an int: keep the low eight bits. */
  function ToByte(x: int): (b: byte)
    ensures 0 <= x < 0x100 ==> b == x
    ensures (b - x) % 0x100 == 0
  {
    x % 0x100
  }

  /** Go's conversion to `uint32`: wrap modulo 2^32. */
  function ToU32(x: int): (w: u32)
    ensures 0 <= x < TwoTo32 ==> w == x
    ensures (w - x) % TwoTo32 == 0
  {
    x % TwoTo32
  }

  /** Go's integer division `a / b`, which truncates toward zero (Dafny's `/` is Euclidean). */
  function Quo(a: int, b: int): (q: int)
    requires b != 0
    ensures 0 <= a && 0 < b ==> q == a / b
    ensures a < 0 && 0 < b ==> q == -((-a) / b)
  {
    if a >= 0 && b > 0 then a / b
    else if a < 0 && b > 0 then -((-a) / b)
    else if a >= 0 then -(a / (-b))
    else (-a) / (-b)
  }

  /** Go's remainder `a % b`, which takes the sign of a (Dafny's `%` is never negative). */
  function Rem(a: int, b: int): (r: int)
    requires b != 0
    ensures 0 <= a && 0 < b ==> r == a % b
    ensures a < 0 && 0 < b ==> r == -((-a) % b) && -b < r <= 0
    ensures r == a - Quo(a, b) * b
  {
    if a >= 0 && b > 0 then a % b
    else if a < 0 && b > 0 then -((-a) % b)
    else a - Quo(a, b) * b
  }

  function Pow2(k: nat): (p: nat)
    ensures p >= 1
  {
    if k == 0 then 1 else 2 * Pow2(k - 1)
  }

  /** The bitwise OR of the low k bits of a and b, bit by bit from the lowest. */
  function OrBits(a: nat, b: nat, k: nat): (r: nat)
    ensures r < Pow2(k)
  {
    if k == 0 then 0 else 2 * OrBits(a / 2, b / 2, k - 1) + (if a % 2 == 1 || b % 2 == 1 then 1 else 0)
  }

  /** Go's `a | b` on two bytes. */
  function Or(a: byte, b: byte): byte
  {
    OrBits(a, b, 8)
  }

  lemma {:induction false} OrBitsSelf(a: nat, k: nat)
    requires a < Pow2(k)
    ensures OrBits(a, a, k) == a
  {
    if k > 0 {
      OrBitsSelf(a / 2, k - 1);
    }
  }

  lemma {:induction false} OrBitsZero(b: nat, k: nat)
    requires b < Pow2(k)
    ensures OrBits(0, b, k) == b && OrBits(b, 0, k) == b
  {
    if k > 0 {
      OrBitsZero(b / 2, k - 1);
    }
  }

  /** `x | x == x`. */
  lemma OrSelf(a: byte)
    ensures Or(a, a) == a
  {
    OrBitsSelf(a, 8);
  }

  /** Zero is the identity of `|`. */
  lemma OrZero(b: byte)
    ensures Or(0, b) == b && Or(b, 0) == b
  {
    OrBitsZero(b, 8);
  }

  /** A freshly made Go byte slice: n zero bytes. */
  function Zeros(n: nat): (z: seq<byte>)
    ensures |z| == n && forall k :: 0 <= k < n ==> z[k] == 0
  {
    seq(n, _ => 0)
  }
}
