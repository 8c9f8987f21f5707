/**
 The arithmetic modulo 2^255 - 19 of class `Wireguard`: typed arrays of sixteen limbs, updated in place.
 Every product and sum goes through `Plus`, `Minus` and `Times`, whose preconditions say that no
 intermediate leaves the range in which a double represents each integer exactly.
 */
module Field {
  import opened Arith
  import opened JsNumber
  import opened Rfc7748
  import opened Limbs

  /** The largest magnitude of a limb accepted by a multiplication: far above a sum of two reduced elements. */
  const LOOSE: int := 0x4_0000

  predicate Loose(s: seq<int>) {
    |s| == 16 && Within(s, LOOSE)
  }

  /** A new sixteen-limb array; stores past the end of a typed array are ignored. */
  method Gf(init: seq<int>) returns (r: array<int>)
    ensures fresh(r) && r.Length == 16
    ensures forall k :: 0 <= k < 16 ==> r[k] == if k < |init| then init[k] else 0
  {
    r := new int[16](_ => 0);
    for i := 0 to |init|
      invariant fresh(r)
      invariant forall k :: 0 <= k < 16 ==> r[k] == if k < i then init[k] else 0
    {
      if i < r.Length {
        r[i] := init[i];
      }
    }
  }

  /** One carry pass over exact limbs, in place. */
  method Carry(o: array<int>)
    requires o.Length == 16 && Within(o[..], 0x8000_0000_0000)
    modifies o
    ensures o[..] == Carried(old(o[..]))
  {
    hide BitAnd, DigitAt, CarryInto;
    ghost var s := o[..];
    NoCarryInto(s);
    for i := 0 to 16
      invariant forall k :: 1 <= k < i ==> o[k] == DigitAt(s, k)
      invariant i > 0 ==> o[0] == DigitAt(s, 0) + if i == 16 then 38 * CarryInto(s, |s|) else 0
      invariant i < 16 ==> o[i] == s[i] + CarryInto(s, i)
      invariant forall k :: i < k < 16 ==> o[k] == s[k]
    {
      CarryStep(s, i);
      var carry := FloorDiv65536(o[i]);
      if i < 15 {
        o[i + 1] := Plus(o[i + 1], carry);
      } else {
        o[0] := Plus(o[0], Times(38, carry));
      }
      o[i] := BitAnd(o[i], 0xffff);
    }
    assert o[..] == Carried(s);
  }

  lemma NoCarryInto(s: seq<int>)
    ensures CarryInto(s, 0) == 0
  {
  }

  lemma CarryStep(s: seq<int>, i: nat)
    requires i < |s| && Within(s, 0x8000_0000_0000)
    ensures -0x8000_8001 <= CarryInto(s, i) <= 0x8000_8001
    ensures -0x8000_8001 <= CarryInto(s, i + 1) <= 0x8000_8001
    ensures CarryInto(s, i + 1) == (s[i] + CarryInto(s, i)) / 65536
    ensures DigitAt(s, i) == BitAnd(s[i] + CarryInto(s, i), 0xffff)
  {
    MaskIsDigit(s[i] + CarryInto(s, i));
    CarryBound(s, 0x8000_0000_0000, 0x8000_8001, i);
    CarryBound(s, 0x8000_0000_0000, 0x8000_8001, i + 1);
  }

  lemma MaskIsDigit(x: int)
    ensures BitAnd(x, 0xffff) == x % 65536
  {
    Pow2Values();
    AndMask(ToInt32(x), 16);
    var k := (x - ToInt32(x)) / TWO_32;
    assert x == ToInt32(x) + 65536 * (65536 * k);
    AddMultiple(ToInt32(x), 65536 * k, 65536);
  }

  /** Limbs exchanged when b is 1, kept when b is 0; the operators convert every limb to 32 bits on the way. */
  method CSwap(p: array<int>, q: array<int>, b: int)
    requires p != q && p.Length == 16 && q.Length == 16 && (b == 0 || b == 1)
    requires forall k :: 0 <= k < 16 ==> IsInt32(p[k]) && IsInt32(q[k])
    modifies p, q
    ensures p[..] == if b == 1 then old(q[..]) else old(p[..])
    ensures q[..] == if b == 1 then old(p[..]) else old(q[..])
  {
    hide BitAnd, BitXor, BitNot;
    var c := BitNot(Minus(b, 1));
    SwapMask(b);
    for i := 0 to 16
      invariant forall k :: 0 <= k < i ==> p[k] == old(if b == 1 then q[k] else p[k])
      invariant forall k :: 0 <= k < i ==> q[k] == old(if b == 1 then p[k] else q[k])
      invariant forall k :: i <= k < 16 ==> p[k] == old(p[k]) && q[k] == old(q[k])
    {
      var t := BitAnd(c, BitXor(p[i], q[i]));
      SwapByXor(p[i], q[i], b);
      p[i] := BitXor(p[i], t);
      q[i] := BitXor(q[i], t);
    }
  }

  lemma SwapMask(b: int)
    requires b == 0 || b == 1
    ensures BitNot(b - 1) == -b
  {
  }

  lemma SwapByXor(x: int, y: int, b: int)
    requires IsInt32(x) && IsInt32(y) && (b == 0 || b == 1)
    ensures var t := BitAnd(-b, BitXor(x, y));
            && BitXor(x, t) == (if b == 1 then y else x)
            && BitXor(y, t) == (if b == 1 then x else y)
  {
    assert IsInt32(Xor(x, y)) by {
      Pow2Values();
      XorRange(x, y, 31);
    }
    XorCancel(x, y);
    XorCommutes(x, y);
    XorCancel(y, x);
  }

  /** A typed array copied limb by limb. */
  method CopyLimbs(to: array<int>, from: array<int>)
    requires to.Length == 16 && from.Length == 16
    modifies to
    ensures to[..] == old(from[..])
  {
    for i := 0 to 16
      invariant forall k :: 0 <= k < i ==> to[k] == old(from[k])
      invariant from[..] == old(from[..])
    {
      to[i] := from[i];
    }
  }

  method Add(o: array<int>, a: array<int>, b: array<int>)
    requires o.Length == 16 && Reduced(a[..]) && Reduced(b[..])
    modifies o
    ensures Loose(o[..]) && Element(o[..]) == old(FAdd(Element(a[..]), Element(b[..])))
  {
    ghost var x, y := a[..], b[..];
    for i := 0 to 16
      invariant forall k :: 0 <= k < i ==> o[k] == x[k] + y[k]
      invariant forall k :: i <= k < 16 ==> a[k] == x[k] && b[k] == y[k]
    {
      o[i] := ToInt32(Plus(a[i], b[i]));
    }
    ValSum(o[..], x, y, 0);
    ModAdd(Value(x), Value(y), P);
  }

  lemma {:induction false} ValSum(s: seq<int>, x: seq<int>, y: seq<int>, i: nat)
    requires i <= |s| == |x| == |y|
    requires forall k :: 0 <= k < |s| ==> s[k] == x[k] + y[k]
    ensures Val(s, i) == Val(x, i) + Val(y, i)
    decreases |s| - i
  {
    if i < |s| {
      ValSum(s, x, y, i + 1);
    }
  }

  method Subtract(o: array<int>, a: array<int>, b: array<int>)
    requires o.Length == 16 && Reduced(a[..]) && Reduced(b[..])
    modifies o
    ensures Loose(o[..]) && Element(o[..]) == old(FSub(Element(a[..]), Element(b[..])))
  {
    ghost var x, y := a[..], b[..];
    for i := 0 to 16
      invariant forall k :: 0 <= k < i ==> o[k] == x[k] - y[k]
      invariant forall k :: i <= k < 16 ==> a[k] == x[k] && b[k] == y[k]
    {
      o[i] := ToInt32(Minus(a[i], b[i]));
    }
    ValSum(x, o[..], y, 0);
    ModSub(Value(x), Value(y), P);
  }

  // ----- Multiplication -----

  /** After i rows and j entries of the next row, limb k of the product has gathered at most so many terms. */
  predicate ProductBound(t: seq<int>, i: int, j: int) {
    forall k :: 0 <= k < |t| ==>
      var terms := if i <= k < i + j then i + 1 else i;
      -terms * (LOOSE * LOOSE) <= t[k] <= terms * (LOOSE * LOOSE)
  }

  method MultMod(o: array<int>, a: array<int>, b: array<int>)
    requires o.Length == 16 && Loose(a[..]) && Loose(b[..])
    modifies o
    ensures Reduced(o[..]) && Element(o[..]) == old(FMul(Element(a[..]), Element(b[..])))
  {
    ghost var x, y := a[..], b[..];
    var t := Product(a, b);
    ghost var product := t[..];
    for i := 0 to 15
      invariant forall k :: 0 <= k < i ==> t[k] == product[k] + 38 * product[k + 16]
      invariant forall k :: i <= k < 31 ==> t[k] == product[k]
    {
      t[i] := Plus(t[i], Times(38, t[i + 16]));
    }
    for i := 0 to 16
      invariant forall k :: 0 <= k < i ==> o[k] == t[k]
      invariant forall k :: 0 <= k < 31 ==> t[k] == if k < 15 then product[k] + 38 * product[k + 16] else product[k]
    {
      o[i] := t[i];
    }
    assert o[..] == Folded(product);
    ProductReduces(product);
    ModMul(Value(x), Value(y), P);
    Carry(o);
    Carry(o);
  }

  /** Folding and two carry passes reduce a product and keep its residue. */
  lemma ProductReduces(t: seq<int>)
    requires |t| == 31 && Within(t, 16 * (LOOSE * LOOSE))
    ensures Within(Folded(t), 0x8000_0000_0000) && Within(Carried(Folded(t)), 0x8000_0000_0000)
    ensures Reduced(Carried(Carried(Folded(t))))
    ensures Element(Carried(Carried(Folded(t)))) == Value(t) % P
  {
    var f := Folded(t);
    FoldedValue(t);
    assert Within(f, 0x8000_0000_0000);
    TwoCarriesReduce(f);
    CarriedValue(f);
    CarriedValue(Carried(f));
  }

  /** The schoolbook product: thirty-one limbs, each the sum of at most sixteen exact products. */
  method Product(a: array<int>, b: array<int>) returns (t: array<int>)
    requires Loose(a[..]) && Loose(b[..])
    ensures fresh(t) && t.Length == 31 && Within(t[..], 16 * (LOOSE * LOOSE))
    ensures Value(t[..]) == Value(a[..]) * Value(b[..])
  {
    hide ProductState, Within, Loose, Value;
    ghost var x, y := a[..], b[..];
    ghost var total := Value(x) * Value(y);
    t := new int[31](_ => 0);
    ProductStart(t[..], x, y);
    for i := 0 to 16
      invariant ProductState(t[..], x, y, i, 0, total)
    {
      for j := 0 to 16
        invariant ProductState(t[..], x, y, i, j, total)
      {
        EntryStep(t[..], x, y, i, j, total);
        ghost var before := t[..];
        t[i + j] := Plus(t[i + j], Times(a[i], b[j]));
        assert t[..] == before[i + j := before[i + j] + x[i] * y[j]];
      }
      RowFinished(t[..], x, y, i, total);
    }
    ProductEnd(t[..], x, y, total);
  }

  lemma ProductStart(t: seq<int>, x: seq<int>, y: seq<int>)
    requires |t| == 31 && Loose(x) && Loose(y) && forall k :: 0 <= k < |t| ==> t[k] == 0
    ensures ProductState(t, x, y, 0, 0, Value(x) * Value(y))
  {
    ZeroTail(t, 0);
    RowStart(x, y);
  }

  lemma ProductEnd(t: seq<int>, x: seq<int>, y: seq<int>, total: int)
    requires ProductState(t, x, y, 16, 0, total)
    ensures Within(t, 16 * (LOOSE * LOOSE)) && Value(t) == total
  {
  }

  ghost predicate ProductState(t: seq<int>, x: seq<int>, y: seq<int>, i: nat, j: nat, total: int) {
    && |t| == 31 && Loose(x) && Loose(y) && i <= 16 && j <= 16
    && ProductBound(t, i, j)
    && Value(t) + Remaining(x, y, i, j) == total
  }

  /** What the accumulated product still lacks before entry j of row i. */
  ghost function Remaining(x: seq<int>, y: seq<int>, i: nat, j: nat): int
    requires i <= |x| && j <= |y|
  {
    if i == |x| then 0 else W(i + j) * (x[i] * Val(y, j)) + W(i + 1) * (Val(x, i + 1) * Value(y))
  }

  lemma RowStart(x: seq<int>, y: seq<int>)
    requires |x| > 0
    ensures Remaining(x, y, 0, 0) == Value(x) * Value(y)
  {
    SplitFactor(W(0), x[0], Val(x, 1), Value(y));
    assert W(0) == 1;
  }

  lemma RowFinished(t: seq<int>, x: seq<int>, y: seq<int>, i: nat, total: int)
    requires i < 16 && ProductState(t, x, y, i, 16, total)
    ensures ProductState(t, x, y, i + 1, 0, total)
  {
    RowRemaining(x, y, i, |y|);
  }

  lemma RowRemaining(x: seq<int>, y: seq<int>, i: nat, n: nat)
    requires i < |x| && n == |y|
    ensures Remaining(x, y, i, n) == Remaining(x, y, i + 1, 0)
  {
    assert x[i] * Val(y, n) == 0;
    if i + 1 < |x| {
      SplitFactor(W(i + 1), x[i + 1], Val(x, i + 2), Value(y));
    } else {
      assert Val(x, i + 1) * Value(y) == 0;
    }
  }

  /** One product added at its place keeps limbs bounded and the state consistent. */
  lemma EntryStep(t: seq<int>, x: seq<int>, y: seq<int>, i: nat, j: nat, total: int)
    requires i < 16 && j < 16 && ProductState(t, x, y, i, j, total)
    ensures ProductState(t[i + j := t[i + j] + x[i] * y[j]], x, y, i, j + 1, total)
    ensures |t| == 31 && |x| == 16 && |y| == 16
    ensures Exact(x[i]) && Exact(y[j]) && Exact(x[i] * y[j]) && Exact(t[i + j]) && Exact(t[i + j] + x[i] * y[j])
  {
    EntryBound(x[i], y[j], LOOSE);
    EntryRemaining(x, y, i, j);
    ValAddAt(t, i + j, x[i] * y[j], 0);
  }

  lemma EntryRemaining(x: seq<int>, y: seq<int>, i: nat, j: nat)
    requires i < |x| && j < |y|
    ensures Remaining(x, y, i, j) == W(i + j) * (x[i] * y[j]) + Remaining(x, y, i, j + 1)
  {
    SplitFactor(W(i + j), y[j], Val(y, j + 1), x[i]);
  }

  lemma SplitFactor(w: int, d: int, v: int, u: int)
    ensures w * ((d + 65536 * v) * u) == w * (d * u) + (65536 * w) * (v * u)
    ensures w * (u * (d + 65536 * v)) == w * (u * d) + (65536 * w) * (u * v)
  {
    assert (d + 65536 * v) * u == d * u + 65536 * (v * u);
  }

  lemma EntryBound(x: int, y: int, m: int)
    requires -m <= x <= m && -m <= y <= m
    ensures -(m * m) <= x * y <= m * m
  {
    NonNegative(m - x, m + y);
    NonNegative(m + x, m - y);
    NonNegative(m - x, m - y);
    NonNegative(m + x, m + y);
  }

  lemma NonNegative(x: nat, y: nat)
    ensures x * y >= 0
  {
  }

  // ----- Inversion -----

  /** Raises an element to the power 2^255 - 21 by 254 squarings, skipping two multiplications; o may be inv. */
  method Invert(o: array<int>, inv: array<int>)
    requires o.Length == 16 && Loose(inv[..])
    modifies o
    ensures Reduced(o[..]) && Element(o[..]) == FPow(old(Element(inv[..])), P - 2)
  {
    hide Element, FMul, FPow, ExponentAt;
    ghost var x := Element(inv[..]);
    var c := Gf([]);
    CopyLimbs(c, inv);
    ghost var e: nat := 1;
    FPowOne(x);
    ExponentStart();
    var a := 253;
    while a >= 0
      invariant -1 <= a <= 253
      invariant inv[..] == old(inv[..])
      invariant Loose(c[..]) && (a < 253 ==> Reduced(c[..]))
      invariant Element(c[..]) == FPow(x, e)
      invariant ExponentAt(e, a)
    {
      PowerStep(x, e);
      ExponentStep(e, a);
      MultMod(c, c, c);
      e := 2 * e;
      if a != 2 && a != 4 {
        MultMod(c, c, inv);
        e := e + 1;
      }
      a := a - 1;
    }
    ExponentEnd(e);
    CopyLimbs(o, c);
  }

  /** The exponent reached when the countdown stands at a: a run of ones with gaps at bits 4 and 2. */
  ghost predicate ExponentAt(e: nat, a: int)
    requires a >= -1
  {
    (e + 1) * Pow2(a + 1) == Pow2(255) - (if a < 4 then 16 else 0) - (if a < 2 then 4 else 0)
  }

  lemma ExponentStart()
    ensures ExponentAt(1, 253)
  {
    assert Pow2(255) == 2 * Pow2(254);
  }

  lemma ExponentStep(e: nat, a: nat)
    requires ExponentAt(e, a)
    ensures ExponentAt(if a == 2 || a == 4 then 2 * e else 2 * e + 1, a - 1)
  {
    assert Pow2(a + 1) == 2 * Pow2(a);
    Pow2Values();
    hide Pow2;
    Halve(e, Pow2(a));
  }

  lemma Halve(e: nat, w: nat)
    ensures (e + 1) * (2 * w) == (2 * e + 1 + 1) * w == (2 * e + 1) * w + w
  {
  }

  lemma ExponentEnd(e: nat)
    requires ExponentAt(e, -1)
    ensures e == P - 2
  {
    PrimePower();
  }

  lemma PrimePower()
    ensures Pow2(255) == P + 19
  {
    Pow2Values();
    Pow2Add(32, 32);
    Pow2Add(64, 64);
    Pow2Add(128, 64);
    Pow2Add(192, 32);
    Pow2Add(224, 31);
  }

  lemma FPowOne(x: int)
    requires IsElement(x)
    ensures FPow(x, 1) == x
  {
    assert Pow(x, 1) == x * Pow(x, 0);
  }

  /** Squaring doubles the exponent, one more multiplication adds one. */
  lemma PowerStep(x: int, e: nat)
    requires IsElement(x)
    ensures FMul(FPow(x, e), FPow(x, e)) == FPow(x, 2 * e)
    ensures FMul(FPow(x, 2 * e), x) == FPow(x, 2 * e + 1)
  {
    FPowAdd(x, e, e);
    FPowAdd(x, 2 * e, 1);
    FPowOne(x);
  }

  lemma FPowAdd(x: int, m: nat, n: nat)
    ensures FMul(FPow(x, m), FPow(x, n)) == FPow(x, m + n)
  {
    PowAdd(x, m, n);
    ModMul(Pow(x, m), Pow(x, n), P);
  }

  // ----- Packing -----

  /** The limbs of 2^255 - 19. */
  function PrimeDigit(i: nat): int {
    if i == 0 then 0xffed else if i == 15 then 0x7fff else 0xffff
  }

  /** Limb i of the difference with the prime, before masking. */
  function Difference(s: seq<int>, i: nat): int
    requires i < |s|
    decreases i, 1
  {
    s[i] - PrimeDigit(i) - Borrow(s, i)
  }

  /** The borrow out of the limbs below i. */
  function Borrow(s: seq<int>, i: nat): int
    requires i <= |s|
    decreases i, 0
  {
    if i > 0 && Difference(s, i - 1) < 0 then 1 else 0
  }

  lemma {:induction false} DifferenceRange(s: seq<int>, i: nat)
    requires Normal(s) && i < 16
    ensures -65536 <= Difference(s, i) <= 65535
    ensures i == 15 ==> -32768 <= Difference(s, i) <= 32768
    ensures BitAnd(Shr(Difference(s, i), 16), 1) == Borrow(s, i + 1)
    ensures BitAnd(Difference(s, i), 0xffff) == Difference(s, i) % 65536 == Difference(s, i) + 65536 * Borrow(s, i + 1)
  {
    hide BitAnd, Shr;
    if i > 0 {
      DifferenceRange(s, i - 1);
    }
    BorrowOf(Difference(s, i));
  }

  /** The borrow read from bit 16 of a difference of digits, and the digit left by the mask. */
  lemma BorrowOf(d: int)
    requires -65536 <= d <= 65535
    ensures var b := if d < 0 then 1 else 0;
            && BitAnd(Shr(d, 16), 1) == b
            && BitAnd(d, 0xffff) == d % 65536 == d + 65536 * b
  {
    hide And, Pow2;
    Pow2Values();
    AndMask(Shr(d, 16), 1);
    MaskIsDigit(d);
  }

  predicate IsDifference(m: seq<int>, s: seq<int>) {
    && |m| == 16 && |s| == 16
    && m[15] == Difference(s, 15)
    && forall k :: 0 <= k < 15 ==> m[k] == Difference(s, k) % 65536
  }

  function PrimeDigits(): (d: seq<int>)
    ensures |d| == 16 && forall k :: 0 <= k < 16 ==> d[k] == PrimeDigit(k)
  {
    seq(16, i requires 0 <= i < 16 => PrimeDigit(i))
  }

  lemma {:induction false} PrimeDigitsSuffix(i: nat)
    requires 1 <= i <= 16
    ensures 2 * Val(PrimeDigits(), i) == if i == 16 then 0 else W(16 - i) - 2
    decreases 16 - i
  {
    if i < 16 {
      PrimeDigitsSuffix(i + 1);
    }
  }

  /** The limbs of the constants subtracted add up to the prime. */
  lemma PrimeDigitsValue()
    ensures Value(PrimeDigits()) == P
  {
    PrimeDigitsSuffix(1);
    TopWeight();
  }

  lemma {:induction false} DifferenceSuffix(m: seq<int>, s: seq<int>, i: nat)
    requires IsDifference(m, s) && Normal(s) && i <= 15
    ensures Val(m, i) == Val(s, i) - Val(PrimeDigits(), i) - Borrow(s, i)
    ensures m[15] < 0 <==> Val(m, i) < 0
    decreases 15 - i
  {
    if i < 15 {
      DifferenceSuffix(m, s, i + 1);
      DifferenceRange(s, i);
    } else {
      LastLimb(m, i);
      LastLimb(s, i);
      LastLimb(PrimeDigits(), i);
    }
  }

  lemma LastLimb(s: seq<int>, i: nat)
    requires |s| == i + 1
    ensures Val(s, i) == s[i]
  {
  }

  /** The borrow chain computes the value minus the prime; its top limb is negative exactly when that is. */
  lemma DifferenceValue(m: seq<int>, s: seq<int>)
    requires IsDifference(m, s) && Normal(s)
    ensures Value(m) == Value(s) - P
    ensures m[15] < 0 <==> Value(s) < P
    ensures m[15] >= 0 ==> Normal(m)
  {
    DifferenceSuffix(m, s, 0);
    PrimeDigitsValue();
    DifferenceRange(s, 15);
  }

  /** Leaves the difference in m, all but the top limb masked, and returns the final borrow. */
  method BorrowChain(m: array<int>, t: array<int>) returns (b: int)
    requires m != t && m.Length == 16 && t.Length == 16 && Normal(t[..])
    modifies m
    ensures IsDifference(m[..], t[..])
    ensures b == if m[15] < 0 then 1 else 0
  {
    hide BitAnd, Shr;
    ghost var s := t[..];
    m[0] := Minus(t[0], 0xffed);
    for i := 1 to 15
      invariant t[..] == s
      invariant forall k :: 0 <= k < i - 1 ==> m[k] == Difference(s, k) % 65536
      invariant m[i - 1] == Difference(s, i - 1)
    {
      DifferenceRange(s, i - 1);
      m[i] := Minus(Minus(t[i], 0xffff), BitAnd(Shr(m[i - 1], 16), 1));
      m[i - 1] := BitAnd(m[i - 1], 0xffff);
    }
    DifferenceRange(s, 14);
    m[15] := Minus(Minus(t[15], 0x7fff), BitAnd(Shr(m[14], 16), 1));
    DifferenceRange(s, 15);
    b := BitAnd(Shr(m[15], 16), 1);
    m[14] := BitAnd(m[14], 0xffff);
  }

  /** One round of `pack`: t keeps its value if that is below the prime and loses the prime otherwise. */
  method SubtractPrimeOnce(m: array<int>, t: array<int>)
    requires m != t && m.Length == 16 && t.Length == 16 && Normal(t[..])
    modifies m, t
    ensures Normal(t[..])
    ensures Value(t[..]) == old(if Value(t[..]) < P then Value(t[..]) else Value(t[..]) - P)
    ensures Element(t[..]) == old(Element(t[..]))
  {
    AddMultiple(Value(t[..]), -1, P);
    var b := BorrowChain(m, t);
    DifferenceValue(m[..], t[..]);
    DifferenceRange(t[..], 15);
    CSwap(t, m, Minus(1, b));
  }

  /** Stores into a byte array keep the low eight bits. */
  function ToUint8(x: int): (r: int)
    ensures 0 <= r < 256
    ensures 0 <= x < 256 ==> r == x
  {
    x % 256
  }

  /** Writes the unique representative below the prime as 32 little-endian bytes. */
  method Pack(o: array<int>, n: array<int>)
    requires o.Length == 32 && Reduced(n[..]) && o != n
    modifies o
    ensures IsBytes(o[..]) && LittleEndian(o[..]) == Element(n[..])
  {
    var m := Gf([]);
    var t := Gf([]);
    CopyLimbs(t, n);
    CarryThrice(t);
    for j := 0 to 2
      invariant Normal(t[..]) && Element(t[..]) == Element(n[..])
      invariant 0 <= Value(t[..]) < (if j == 0 then 2 * P + 38 else if j == 1 then P + 38 else P)
    {
      SubtractPrimeOnce(m, t);
    }
    StoreBytes(o, t);
  }

  method CarryThrice(t: array<int>)
    requires t.Length == 16 && Reduced(t[..])
    modifies t
    ensures Normal(t[..]) && Element(t[..]) == old(Element(t[..]))
    ensures 0 <= Value(t[..]) < 2 * P + 38
  {
    hide Carried, Within, Reduced, Normal, Element, Value;
    ReducedNormalizes(t[..]);
    Carry(t);
    Carry(t);
    Carry(t);
  }

  lemma ReducedNormalizes(s: seq<int>)
    requires Reduced(s)
    ensures Within(s, 0x8000_0000_0000) && Within(Carried(s), 0x8000_0000_0000)
    ensures Normal(Carried(s)) && Carried(Carried(s)) == Carried(s)
    ensures Element(Carried(s)) == Element(s)
    ensures 0 <= Value(Carried(s)) < 2 * P + 38
  {
    ReducedCarriesToNormal(s);
    NormalCarriedUnchanged(Carried(s));
    CarriedValue(s);
    NormalBound(Carried(s));
  }

  lemma NormalBound(s: seq<int>)
    requires Normal(s)
    ensures 0 <= Value(s) < 2 * P + 38
  {
    DigitsBound(s, 0);
    TopWeight();
  }

  method StoreBytes(o: array<int>, t: array<int>)
    requires o.Length == 32 && o != t && Normal(t[..])
    modifies o
    ensures IsBytes(o[..]) && LittleEndian(o[..]) == Value(t[..])
  {
    hide BitAnd, Shr, LimbByte, ToUint8;
    ghost var s := t[..];
    for i := 0 to 16
      invariant t[..] == s
      invariant forall k :: 0 <= k < 2 * i ==> o[k] == LimbByte(s, k)
    {
      LimbBytes(s, i);
      o[2 * i] := ToUint8(BitAnd(t[i], 0xff));
      o[2 * i + 1] := ToUint8(Shr(t[i], 8));
    }
    assert o[..][0..] == o[..];
    BytesOfLimbs(o[..], s, 0);
  }

  /** Byte k of the little-endian form of digits. */
  function LimbByte(t: seq<int>, k: nat): (r: int)
    requires k / 2 < |t|
    ensures 0 <= r < 256
  {
    (if k % 2 == 0 then t[k / 2] else t[k / 2] / 256) % 256
  }

  lemma LimbBytes(t: seq<int>, i: nat)
    requires Normal(t) && i < 16
    ensures ToUint8(BitAnd(t[i], 0xff)) == LimbByte(t, 2 * i)
    ensures ToUint8(Shr(t[i], 8)) == LimbByte(t, 2 * i + 1)
    ensures t[i] == LimbByte(t, 2 * i) + 256 * LimbByte(t, 2 * i + 1)
  {
    hide And, Pow2;
    Pow2Values();
    AndMask(t[i], 8);
    assert (2 * i + 1) / 2 == i && (2 * i + 1) % 2 == 1;
  }

  lemma {:induction false} BytesOfLimbs(o: seq<int>, t: seq<int>, i: nat)
    requires Normal(t) && i <= 16 && |o| == 32
    requires forall k :: 0 <= k < 32 ==> o[k] == LimbByte(t, k)
    ensures LittleEndian(o[2 * i..]) == Val(t, i)
    decreases 16 - i
  {
    if i < 16 {
      BytesOfLimbs(o, t, i + 1);
      LimbBytes(t, i);
      var rest := o[2 * i..];
      assert rest[1..][1..] == o[2 * (i + 1)..] && rest[1..] != [];
      assert LittleEndian(rest[1..]) == rest[1] + 256 * LittleEndian(rest[1..][1..]);
    }
  }
}
