/** Numbers in radix 2^16, least significant limb first; limbs may be negative or exceed the radix. */
module Limbs {
  import opened Arith
  import opened Rfc7748

  /** The weight of limb k. */
  function W(k: nat): (r: nat)
    ensures r > 0
  {
    if k == 0 then 1 else 65536 * W(k - 1)
  }

  /** The number the limbs from position i on denote. */
  function Val(s: seq<int>, i: nat): int
    requires i <= |s|
    decreases |s| - i
  {
    if i == |s| then 0 else s[i] + 65536 * Val(s, i + 1)
  }

  function Value(s: seq<int>): int {
    Val(s, 0)
  }

  predicate Within(s: seq<int>, bound: int) {
    forall k :: 0 <= k < |s| ==> -bound <= s[k] <= bound
  }

  /** Every limb is a digit. */
  predicate Normal(s: seq<int>) {
    |s| == 16 && forall k :: 0 <= k < 16 ==> 0 <= s[k] < 65536
  }

  /** What a multiplication leaves: only limb 0 may fall outside the digit range, by one final carry. */
  predicate Reduced(s: seq<int>) {
    && |s| == 16
    && -38 <= s[0] <= 65573
    && forall k :: 1 <= k < 16 ==> 0 <= s[k] < 65536
  }

  lemma {:induction false} ZeroTail(s: seq<int>, i: nat)
    requires i <= |s| && forall k :: i <= k < |s| ==> s[k] == 0
    ensures Val(s, i) == 0
    decreases |s| - i
  {
    if i < |s| {
      ZeroTail(s, i + 1);
    }
  }

  /** The field element sixteen limbs denote. */
  function Element(s: seq<int>): (r: int)
    requires |s| == 16
    ensures IsElement(r)
  {
    Value(s) % P
  }

  lemma {:induction false} WAdd(m: nat, n: nat)
    ensures W(m + n) == W(m) * W(n)
  {
    if m > 0 {
      WAdd(m - 1, n);
      assert W(m + n) == 65536 * W(m - 1 + n);
      MulAssociates(65536, W(m - 1), W(n));
    }
  }

  /** 2^256 is congruent to 38. */
  lemma TopWeight()
    ensures W(16) == 2 * P + 38
  {
    assert W(2) == 0x1_0000_0000;
    WAdd(2, 2);
    WAdd(4, 4);
    WAdd(8, 8);
  }

  /** Changing one limb changes the value by the change times the weight of the limb. */
  lemma {:induction false} ValAddAt(s: seq<int>, k: nat, d: int, i: nat)
    requires i <= |s| && k < |s|
    ensures Val(s[k := s[k] + d], i) == Val(s, i) + if i <= k then W(k - i) * d else 0
    decreases |s| - i
  {
    if i < |s| {
      ValAddAt(s, k, d, i + 1);
      if i < k {
        MulAssociates(65536, W(k - i - 1), d);
      } else if i == k {
        assert W(k - i) == 1;
      }
    }
  }

  // ----- Carry propagation -----

  /** The carry into limb i when limbs 0 to i - 1 are reduced to digits in turn. */
  function CarryInto(s: seq<int>, i: nat): int
    requires i <= |s|
  {
    if i == 0 then 0 else (s[i - 1] + CarryInto(s, i - 1)) / 65536
  }

  function DigitAt(s: seq<int>, i: nat): (r: int)
    requires i < |s|
    ensures 0 <= r < 65536
  {
    (s[i] + CarryInto(s, i)) % 65536
  }

  function Digits(s: seq<int>): (d: seq<int>)
    ensures |d| == |s| && forall k :: 0 <= k < |s| ==> d[k] == DigitAt(s, k)
  {
    seq(|s|, i requires 0 <= i < |s| => DigitAt(s, i))
  }

  /** Limbs after one carry pass; the carry out of the top re-enters limb 0 as 38 times itself. */
  function Carried(s: seq<int>): (r: seq<int>)
    requires |s| > 0
    ensures |r| == |s|
  {
    var d := Digits(s);
    d[0 := d[0] + 38 * CarryInto(s, |s|)]
  }

  lemma {:induction false} DigitsValue(s: seq<int>, q: int, i: nat)
    requires i <= |s| && q == CarryInto(s, |s|)
    ensures Val(Digits(s), i) + W(|s| - i) * q == Val(s, i) + CarryInto(s, i)
    decreases |s| - i
  {
    if i < |s| {
      DigitsValue(s, q, i + 1);
      MulAssociates(65536, W(|s| - i - 1), q);
      CarryDivides(s, i);
    } else {
      assert W(0) == 1;
    }
  }

  lemma CarryDivides(s: seq<int>, i: nat)
    requires i < |s|
    ensures s[i] + CarryInto(s, i) == DigitAt(s, i) + 65536 * CarryInto(s, i + 1)
  {
  }

  /** A carry pass changes the value by a multiple of 2^256 - 38, hence not its residue. */
  lemma CarriedValue(s: seq<int>)
    requires |s| == 16
    ensures Value(Carried(s)) == Value(s) - P * (2 * CarryInto(s, |s|))
    ensures Element(Carried(s)) == Element(s)
  {
    var q := CarryInto(s, |s|);
    CarriedSum(s, q);
    TopWeight();
    SameResidue(Value(Carried(s)), Value(s), q, W(16), P);
  }

  lemma CarriedSum(s: seq<int>, q: int)
    requires |s| > 0 && q == CarryInto(s, |s|)
    ensures Value(Carried(s)) + W(|s|) * q == Value(s) + 38 * q
  {
    DigitsValue(s, q, 0);
    TailSame(Carried(s), Digits(s), 1);
  }

  lemma {:induction false} TailSame(s: seq<int>, s': seq<int>, i: nat)
    requires |s| == |s'| && i <= |s| && forall k :: i <= k < |s| ==> s[k] == s'[k]
    ensures Val(s, i) == Val(s', i)
    decreases |s| - i
  {
    if i < |s| {
      TailSame(s, s', i + 1);
    }
  }

  /** Numbers that agree once the weight w is traded for 38 have the same residue. */
  lemma SameResidue(x: int, y: int, q: int, w: int, m: int)
    requires m > 0 && w == 2 * m + 38 && x + w * q == y + 38 * q
    ensures x == y - m * (2 * q) && x % m == y % m
  {
    AddMultiple(y, -2 * q, m);
  }

  /** Limbs bounded by m produce carries bounded by c as soon as m + c <= 65536 c. */
  lemma {:induction false} CarryBound(s: seq<int>, m: int, c: int, i: nat)
    requires i <= |s| && Within(s, m) && m + c <= 65536 * c && 0 <= c
    ensures -c <= CarryInto(s, i) <= c
  {
    if i > 0 {
      CarryBound(s, m, c, i - 1);
    }
  }

  /** Once limbs 1 and up are digits, the carry shrinks to at most one from the third limb on. */
  lemma {:induction false} CarrySettles(s: seq<int>, i: nat)
    requires 3 <= i <= |s|
    requires -0x8000_0000_0000 <= s[0] <= 0x8000_0000_0000
    requires forall k :: 1 <= k < |s| ==> 0 <= s[k] < 65536
    ensures -1 <= CarryInto(s, i) <= 1
  {
    if i > 3 {
      CarrySettles(s, i - 1);
    } else {
      assert CarryInto(s, 1) == s[0] / 65536;
      assert CarryInto(s, 2) == (s[1] + CarryInto(s, 1)) / 65536;
    }
  }

  /** Two carry passes reduce any limbs up to 2^47. */
  lemma TwoCarriesReduce(s: seq<int>)
    requires |s| == 16 && Within(s, 0x8000_0000_0000)
    ensures Within(Carried(s), 0x40_0000_0000)
    ensures Reduced(Carried(Carried(s)))
  {
    CarryBound(s, 0x8000_0000_0000, 0x8000_8001, |s|);
    CarrySettles(Carried(s), |s|);
  }

  // ----- Reduction to digits -----

  /** One carry pass turns the output of a multiplication into digits; further passes change nothing. */
  lemma ReducedCarriesToNormal(s: seq<int>)
    requires Reduced(s)
    ensures Normal(Carried(s))
  {
    if CarryInto(s, 1) == 0 {
      NoCarry(s, |s|);
    } else if CarryInto(s, 1) == 1 {
      CarryAbove(s, |s|);
    } else {
      BorrowAbove(s, |s|);
    }
  }

  lemma {:induction false} NoCarry(s: seq<int>, i: nat)
    requires 1 <= i <= |s| && CarryInto(s, 1) == 0
    requires forall k :: 1 <= k < |s| ==> 0 <= s[k] < 65536
    ensures CarryInto(s, i) == 0
  {
    if i > 1 {
      NoCarry(s, i - 1);
    }
  }

  lemma {:induction false} CarryAbove(s: seq<int>, i: nat)
    requires 1 <= i <= |s| && CarryInto(s, 1) == 1
    requires forall k :: 1 <= k < |s| ==> 0 <= s[k] < 65536
    ensures 0 <= CarryInto(s, i) <= 1
  {
    if i > 1 {
      CarryAbove(s, i - 1);
    }
  }

  lemma {:induction false} BorrowAbove(s: seq<int>, i: nat)
    requires 1 <= i <= |s| && CarryInto(s, 1) == -1
    requires forall k :: 1 <= k < |s| ==> 0 <= s[k] < 65536
    ensures -1 <= CarryInto(s, i) <= 0
  {
    if i > 1 {
      BorrowAbove(s, i - 1);
    }
  }

  lemma NormalCarriedUnchanged(s: seq<int>)
    requires Normal(s)
    ensures Carried(s) == s
  {
    forall i | 0 <= i <= 16 ensures CarryInto(s, i) == 0 {
      if i > 0 {
        NoCarry(s, i);
      }
    }
    assert forall i :: 0 <= i < 16 ==> DigitAt(s, i) == s[i];
  }

  lemma {:induction false} DigitsBound(s: seq<int>, i: nat)
    requires i <= |s| && forall k :: 0 <= k < |s| ==> 0 <= s[k] < 65536
    ensures 0 <= Val(s, i) < W(|s| - i)
    decreases |s| - i
  {
    if i < |s| {
      DigitsBound(s, i + 1);
    }
  }

  // ----- Products -----

  /** The 31-limb product folded into 16 limbs: limb i + 16 counts 38 times in limb i. */
  function Folded(t: seq<int>): (r: seq<int>)
    requires |t| == 31
    ensures |r| == 16
  {
    seq(16, i requires 0 <= i < 16 => if i < 15 then t[i] + 38 * t[i + 16] else t[i])
  }

  lemma {:induction false} FoldedSuffix(t: seq<int>, hi: int, i: nat)
    requires |t| == 31 && i <= 15 && hi == Val(t, 16)
    ensures Val(Folded(t), i) + W(16 - i) * hi == Val(t, i) + 38 * Val(t, 16 + i)
    decreases 15 - i
  {
    if i < 15 {
      FoldedSuffix(t, hi, i + 1);
      MulAssociates(65536, W(15 - i), hi);
    } else {
      LastFolded(t, Folded(t), i);
    }
  }

  lemma LastFolded(t: seq<int>, f: seq<int>, i: nat)
    requires |t| == 2 * i + 1 && |f| == i + 1 && f[i] == t[i]
    ensures Val(f, i) + W(1) * Val(t, i + 1) == Val(t, i) && Val(t, i + 1 + i) == 0
  {
    assert W(1) == 65536 * W(0);
  }

  lemma FoldedValue(t: seq<int>)
    requires |t| == 31
    ensures Element(Folded(t)) == Value(t) % P
  {
    FoldedSuffix(t, Val(t, 16), 0);
    TopWeight();
    SameResidue(Value(Folded(t)), Value(t), Val(t, 16), W(16), P);
  }
}
