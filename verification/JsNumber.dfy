/**
 JavaScript numbers restricted to integers.

 A `number` is an IEEE double: an integer sum, difference or product is computed without rounding
 when it stays within 2^53, so `Plus`, `Minus` and `Times` demand exactly that of their callers.
 The bitwise operators first convert both operands with `ToInt32`.
 */
module JsNumber {
  import opened Arith

  const MAX_EXACT: int := 0x20_0000_0000_0000
  const TWO_32: int := 0x1_0000_0000
  const TWO_31: int := 0x8000_0000

  predicate Exact(x: int) {
    -MAX_EXACT <= x <= MAX_EXACT
  }

  predicate IsInt32(x: int) {
    -TWO_31 <= x < TWO_31
  }

  function Plus(x: int, y: int): int
    requires Exact(x) && Exact(y) && Exact(x + y)
  {
    x + y
  }

  function Minus(x: int, y: int): int
    requires Exact(x) && Exact(y) && Exact(x - y)
  {
    x - y
  }

  function Times(x: int, y: int): int
    requires Exact(x) && Exact(y) && Exact(x * y)
  {
    x * y
  }

  /** `Math.floor(x / 65536)`: the quotient of an exact integer by a power of two is exact. */
  function FloorDiv65536(x: int): int
    requires Exact(x)
  {
    x / 65536
  }

  /** The conversion every bitwise operator applies to its operands. */
  function ToInt32(x: int): (r: int)
    ensures IsInt32(r)
    ensures IsInt32(x) ==> r == x
    ensures (x - r) % TWO_32 == 0
  {
    var m := x % TWO_32;
    if m < TWO_31 then m else m - TWO_32
  }

  /** The conversion of the left operand of `>>>`. */
  function ToUint32(x: int): (r: int)
    ensures 0 <= r < TWO_32
    ensures 0 <= x < TWO_32 ==> r == x
  {
    x % TWO_32
  }

  function Abs(x: int): nat {
    if x < 0 then -x else x
  }

  // ----- Bitwise operators on two's complement integers of unbounded width -----

  function And(x: int, y: int): int
    decreases Abs(x) + Abs(y)
  {
    if x == 0 || y == 0 then 0
    else if x == -1 then y
    else if y == -1 then x
    else 2 * And(x / 2, y / 2) + if x % 2 == 1 && y % 2 == 1 then 1 else 0
  }

  function Or(x: int, y: int): int
    decreases Abs(x) + Abs(y)
  {
    if x == -1 || y == -1 then -1
    else if x == 0 then y
    else if y == 0 then x
    else 2 * Or(x / 2, y / 2) + if x % 2 == 1 || y % 2 == 1 then 1 else 0
  }

  function Xor(x: int, y: int): int
    decreases Abs(x) + Abs(y)
  {
    if x == 0 then y
    else if y == 0 then x
    else if x == -1 then -1 - y
    else if y == -1 then -1 - x
    else 2 * Xor(x / 2, y / 2) + if x % 2 != y % 2 then 1 else 0
  }

  // ----- The operators of the language -----

  function BitAnd(x: int, y: int): int { And(ToInt32(x), ToInt32(y)) }

  function BitOr(x: int, y: int): int { Or(ToInt32(x), ToInt32(y)) }

  function BitXor(x: int, y: int): int { Xor(ToInt32(x), ToInt32(y)) }

  function BitNot(x: int): int { -1 - ToInt32(x) }

  /** `x << k` */
  function Shl(x: int, k: nat): int
    requires k < 32
  {
    ToInt32(ToInt32(x) * Pow2(k))
  }

  /** `x >> k` */
  function Shr(x: int, k: nat): int
    requires k < 32
  {
    ToInt32(x) / Pow2(k)
  }

  /** `x >>> k` */
  function UShr(x: int, k: nat): int
    requires k < 32
  {
    ToUint32(x) / Pow2(k)
  }

  // ----- Laws -----

  /** One step of `And` splits off the lowest bit, whatever the operands. */
  lemma AndStep(x: int, y: int)
    ensures And(x, y) == 2 * And(x / 2, y / 2) + if x % 2 == 1 && y % 2 == 1 then 1 else 0
  {
  }

  lemma OrStep(x: int, y: int)
    ensures Or(x, y) == 2 * Or(x / 2, y / 2) + if x % 2 == 1 || y % 2 == 1 then 1 else 0
  {
  }

  lemma XorStep(x: int, y: int)
    ensures Xor(x, y) == 2 * Xor(x / 2, y / 2) + if x % 2 != y % 2 then 1 else 0
  {
  }

  /** Masking with k ones is the remainder modulo 2^k, for negative numbers too. */
  lemma {:induction false} AndMask(x: int, k: nat)
    ensures And(x, Pow2(k) - 1) == x % Pow2(k)
    decreases k
  {
    hide And, Pow2;
    if k > 0 {
      AndMask(x / 2, k - 1);
      AndLongerMask(x, Pow2(k - 1));
      assert Pow2(k) == 2 * Pow2(k - 1) by { Pow2Doubles(k); }
    } else {
      AndNothing(x);
    }
  }

  lemma Pow2Doubles(k: nat)
    ensures Pow2(k) == if k == 0 then 1 else 2 * Pow2(k - 1)
  {
  }

  lemma AndNothing(x: int)
    ensures And(x, Pow2(0) - 1) == x % Pow2(0) == 0
  {
  }

  lemma AndLongerMask(x: int, m: nat)
    requires m > 0 && And(x / 2, m - 1) == (x / 2) % m
    ensures And(x, 2 * m - 1) == x % (2 * m)
  {
    hide And;
    AndStep(x, 2 * m - 1);
    ModSplit(x, m);
  }

  /** Exclusive-or with the first operand undoes itself. */
  lemma {:induction false} XorCancel(x: int, y: int)
    ensures Xor(x, Xor(x, y)) == y
    decreases Abs(x) + Abs(y)
  {
    if x == 0 || x == -1 || y == 0 || y == -1 {
      XorSelf(x);
    } else {
      XorCancel(x / 2, y / 2);
      XorCancelStep(x, y);
    }
  }

  lemma XorCancelStep(x: int, y: int)
    requires Xor(x / 2, Xor(x / 2, y / 2)) == y / 2
    ensures Xor(x, Xor(x, y)) == y
  {
    hide Xor;
    XorStep(x, y);
    XorStep(x, Xor(x, y));
  }

  lemma {:induction false} XorSelf(x: int)
    ensures Xor(x, x) == 0
    ensures Xor(x, -1 - x) == -1
    decreases Abs(x)
  {
    if x != 0 && x != -1 {
      XorSelf(x / 2);
      XorStep(x, -1 - x);
      assert (-1 - x) / 2 == -1 - x / 2;
    }
  }

  lemma {:induction false} XorCommutes(x: int, y: int)
    ensures Xor(x, y) == Xor(y, x)
    decreases Abs(x) + Abs(y)
  {
    if x == 0 || x == -1 || y == 0 || y == -1 {
    } else {
      XorCommutes(x / 2, y / 2);
    }
  }

  /** Exclusive-or of k-bit signed numbers is a k-bit signed number. */
  lemma {:induction false} XorRange(x: int, y: int, k: nat)
    requires 0 - Pow2(k) <= x < Pow2(k) && 0 - Pow2(k) <= y < Pow2(k)
    ensures 0 - Pow2(k) <= Xor(x, y) < Pow2(k)
    decreases k
  {
    if k > 0 {
      XorRange(x / 2, y / 2, k - 1);
      XorStep(x, y);
    }
  }

  /** Or of a multiple of 2^k with a k-bit number is their sum. */
  lemma {:induction false} OrDisjoint(x: int, y: int, k: nat)
    requires 0 <= y < Pow2(k)
    ensures Or(x * Pow2(k), y) == x * Pow2(k) + y
  {
    if k == 0 {
      assert y == 0;
    } else {
      var h := x * Pow2(k);
      assert h == 2 * (x * Pow2(k - 1));
      OrStep(h, y);
      OrDisjoint(x, y / 2, k - 1);
    }
  }

  lemma AndEven(x: int, m: int)
    ensures And(x, 2 * m) == 2 * And(x / 2, m)
  {
    hide And;
    AndStep(x, 2 * m);
  }

  /** A mask shifted by three bits clears the three low bits. */
  lemma AndShifted3(x: int, m: int)
    ensures And(x, 8 * m) == 8 * And(x / 8, m)
  {
    hide And;
    AndEven(x, 4 * m);
    AndEven(x / 2, 2 * m);
    AndEven(x / 4, m);
  }

  /** Setting the highest bit of a number of k + 1 bits. */
  lemma {:induction false} OrTopBit(x: int, k: nat)
    requires 0 <= x < 2 * Pow2(k)
    ensures Or(x, Pow2(k)) == x % Pow2(k) + Pow2(k)
    decreases k
  {
    if k > 0 {
      hide Or;
      OrStep(x, Pow2(k));
      OrTopBit(x / 2, k - 1);
      ModSplit(x, Pow2(k - 1));
    }
  }

  /** The powers of two the programs use. */
  lemma Pow2Values()
    ensures Pow2(1) == 2 && Pow2(2) == 4 && Pow2(3) == 8 && Pow2(4) == 16 && Pow2(5) == 32
    ensures Pow2(6) == 64 && Pow2(7) == 128 && Pow2(8) == 256 && Pow2(16) == 65536
    ensures Pow2(31) == TWO_31 && Pow2(32) == TWO_32
  {
    assert Pow2(8) == 256;
    Pow2Add(8, 8);
    Pow2Add(16, 15);
    Pow2Add(8, 7);
    assert Pow2(32) == 2 * Pow2(31);
  }
}
