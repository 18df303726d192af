/** JavaScript's bitwise OR, which converts both operands to 32-bit integers
    (ToUint32), combines them bit by bit and reads the result back as a
    signed 32-bit integer. Written on integers, bit by bit. */
module JsInt32 {

  const TwoTo32: int := 0x1_0000_0000
  const TwoTo31: int := 0x8000_0000

  function Pow2(k: nat): nat
  {
    if k == 0 then 1 else 2 * Pow2(k - 1)
  }

  /** Bitwise OR of the low `width` bits of two non-negative integers. */
  function OrBits(a: nat, b: nat, width: nat): nat
  {
    if width == 0 then 0
    else 2 * OrBits(a / 2, b / 2, width - 1) + (if a % 2 == 1 || b % 2 == 1 then 1 else 0)
  }

  /** ECMAScript ToUint32 of an integral number. */
  function ToUint32(x: int): (u: nat)
    ensures u < TwoTo32
    ensures 0 <= x < TwoTo32 ==> u == x
  {
    x % TwoTo32
  }

  /** The signed number a 32-bit pattern stands for. */
  function SignedOf(u: nat): (r: int)
    requires u < TwoTo32
    ensures -TwoTo31 <= r < TwoTo31
    ensures r % TwoTo32 == u
  {
    if u < TwoTo31 then u else u - TwoTo32
  }

  /** `x | y` on integral numbers. */
  function BitwiseOr(x: int, y: int): int
  {
    Pow2Of32();
    OrBitsWithin(ToUint32(x), ToUint32(y), 32);
    SignedOf(OrBits(ToUint32(x), ToUint32(y), 32))
  }

  lemma Pow2Plus4(k: nat)
    ensures Pow2(k + 4) == 16 * Pow2(k)
  {
    assert Pow2(k + 4) == 2 * Pow2(k + 3);
    assert Pow2(k + 3) == 2 * Pow2(k + 2);
    assert Pow2(k + 2) == 2 * Pow2(k + 1);
  }

  lemma Pow2Of32()
    ensures Pow2(32) == TwoTo32
  {
    Pow2Plus4(0); Pow2Plus4(4); Pow2Plus4(8); Pow2Plus4(12);
    Pow2Plus4(16); Pow2Plus4(20); Pow2Plus4(24); Pow2Plus4(28);
  }

  /** The OR of two `width`-bit numbers is a `width`-bit number that has
      every bit of either, so it is at least each and at most their sum. */
  lemma {:induction false} OrBitsWithin(a: nat, b: nat, width: nat)
    requires a < Pow2(width) && b < Pow2(width)
    ensures OrBits(a, b, width) < Pow2(width)
    ensures a <= OrBits(a, b, width) && b <= OrBits(a, b, width)
    ensures OrBits(a, b, width) <= a + b
  {
    if width > 0 {
      OrBitsWithin(a / 2, b / 2, width - 1);
    }
  }

  /** OR with zero is the identity. */
  lemma {:induction false} OrBitsZero(b: nat, width: nat)
    requires b < Pow2(width)
    ensures OrBits(0, b, width) == b && OrBits(b, 0, width) == b
  {
    if width > 0 {
      OrBitsZero(b / 2, width - 1);
    }
  }

  /** On small non-negative operands `x | y` lies between the larger operand
      and the sum, and equals the other operand when one of them is 0. */
  lemma BitwiseOrOfSmall(x: int, y: int)
    requires 0 <= x < TwoTo31 / 2 && 0 <= y < TwoTo31 / 2
    ensures x <= BitwiseOr(x, y) && y <= BitwiseOr(x, y) && BitwiseOr(x, y) <= x + y
    ensures x == 0 ==> BitwiseOr(x, y) == y
    ensures y == 0 ==> BitwiseOr(x, y) == x
  {
    Pow2Of32();
    OrBitsWithin(x, y, 32);
    if x == 0 {
      OrBitsZero(y, 32);
    }
    if y == 0 {
      OrBitsZero(x, 32);
    }
  }

  /** Values that show the operator is neither a default nor a sum. */
  lemma BitwiseOrExamples()
    ensures BitwiseOr(2, 1) == 3
    ensures BitwiseOr(3, 1) == 3
    ensures BitwiseOr(4, 2) == 6
  {
    Pow2Of32();
    OrBitsZero(0, 29);
    OrBitsZero(0, 30);
    assert OrBits(1, 0, 30) == 1;
    assert OrBits(1, 0, 31) == 1;
    assert OrBits(1, 1, 31) == 1;
    assert OrBits(2, 1, 31) == 3;
  }
}
