/** The base32 and base64 encodings of RFC 4648 (sections 4 and 6) as regroupings of one bit string. */
module Rfc4648 {
  import opened Arith

  type Bits = seq<bool>

  /** The n low bits of x, most significant first. */
  function BitsOf(x: int, n: nat): (r: Bits)
    ensures |r| == n
    decreases n
  {
    if n == 0 then [] else BitsOf(x / 2, n - 1) + [x % 2 == 1]
  }

  function Number(b: Bits): (r: nat)
    ensures r < Pow2(|b|)
  {
    if b == [] then 0 else 2 * Number(b[..|b| - 1]) + if b[|b| - 1] then 1 else 0
  }

  /** Every octet contributes its eight bits, the first octet first. */
  function OctetBits(s: seq<int>): (r: Bits)
    ensures |r| == 8 * |s|
  {
    if s == [] then [] else OctetBits(s[..|s| - 1]) + BitsOf(s[|s| - 1], 8)
  }

  /** The values of consecutive groups of w bits; a short final group is filled with zero bits on the right. */
  function Groups(b: Bits, w: nat): (r: seq<int>)
    requires w > 0
    ensures forall k :: 0 <= k < |r| ==> 0 <= r[k] < Pow2(w)
  {
    if b == [] then []
    else if |b| < w then LastGroupRange(b, w); [Number(b) * Pow2(w - |b|)]
    else [Number(b[..w])] + Groups(b[w..], w)
  }

  lemma LastGroupRange(b: Bits, w: nat)
    requires |b| <= w
    ensures 0 <= Number(b) * Pow2(w - |b|) < Pow2(w)
  {
    Pow2Add(|b|, w - |b|);
    ProductLess(Number(b), Pow2(|b|), Pow2(w - |b|));
  }

  lemma ProductLess(x: nat, y: nat, z: nat)
    requires x < y && z > 0
    ensures 0 <= x * z < y * z
  {
    assert y * z == x * z + (y - x) * z;
    assert (y - x) * z > 0;
  }

  /** The bits carried by a string of w-bit digits. */
  function DigitBits(d: seq<int>, w: nat): (r: Bits)
    ensures |r| == w * |d|
  {
    if d == [] then [] else BitsOf(d[0], w) + DigitBits(d[1..], w)
  }

  /** Whole octets read off a bit string; bits beyond the last whole octet are dropped. */
  function Octets(b: Bits): seq<int> {
    if |b| < 8 then [] else [Number(b[..8])] + Octets(b[8..])
  }

  // ----- Bits and numbers -----

  lemma {:induction false} NumberOfBits(x: int, n: nat)
    ensures Number(BitsOf(x, n)) == x % Pow2(n)
    decreases n
  {
    if n > 0 {
      NumberOfBits(x / 2, n - 1);
      assert BitsOf(x, n)[..n - 1] == BitsOf(x / 2, n - 1);
      ModSplit(x, Pow2(n - 1));
    }
  }

  lemma {:induction false} BitsOfNumber(b: Bits)
    ensures BitsOf(Number(b), |b|) == b
  {
    if b != [] {
      BitsOfNumber(b[..|b| - 1]);
      assert b == b[..|b| - 1] + [b[|b| - 1]];
    }
  }

  lemma {:induction false} NumberConcat(a: Bits, b: Bits)
    ensures Number(a + b) == Number(a) * Pow2(|b|) + Number(b)
  {
    if b == [] {
      assert a + b == a;
    } else {
      var b' := b[..|b| - 1];
      assert (a + b)[..|a + b| - 1] == a + b';
      NumberConcat(a, b');
      MulAssociates(2, Number(a), Pow2(|b'|));
      MulAssociates(Number(a), 2, Pow2(|b'|));
    }
  }

  lemma {:induction false} OctetBitsConcat(s: seq<int>, t: seq<int>)
    ensures OctetBits(s + t) == OctetBits(s) + OctetBits(t)
  {
    hide BitsOf;
    if t == [] {
      assert s + t == s;
    } else {
      var t' := t[..|t| - 1];
      assert (s + t)[..|s + t| - 1] == s + t';
      OctetBitsConcat(s, t');
    }
  }

  // ----- Decoding recovers the octets -----

  /** Digits carry the bits they were cut from, followed by fewer than w zero bits. */
  lemma {:induction false} DigitsCarryBits(b: Bits, w: nat)
    requires w > 0
    ensures |DigitBits(Groups(b, w), w)| < |b| + w
    ensures b <= DigitBits(Groups(b, w), w)
    decreases |b|
  {
    if b == [] {
    } else if |b| < w {
      ShortGroupBits(b, w);
    } else {
      var d := Groups(b, w);
      DigitsCarryBits(b[w..], w);
      BitsOfNumber(b[..w]);
      assert d[1..] == Groups(b[w..], w);
      assert b == b[..w] + b[w..];
    }
  }

  lemma ShortGroupBits(b: Bits, w: nat)
    requires 0 < |b| < w
    ensures DigitBits(Groups(b, w), w) == BitsOf(Number(b) * Pow2(w - |b|), w)
    ensures b <= DigitBits(Groups(b, w), w)
  {
    ShiftedBits(Number(b), |b|, w - |b|);
    BitsOfNumber(b);
    assert Groups(b, w)[1..] == [];
  }

  lemma {:induction false} ShiftedBits(x: nat, n: nat, k: nat)
    ensures BitsOf(x, n) <= BitsOf(x * Pow2(k), n + k)
  {
    if k > 0 {
      assert x * Pow2(k) == 2 * (x * Pow2(k - 1));
      ShiftedBits(x, n, k - 1);
    } else {
      assert x * Pow2(0) == x;
    }
  }

  lemma {:induction false} OctetsOfBits(s: seq<int>, extra: Bits)
    requires IsBytes(s)
    requires |extra| < 8
    ensures Octets(OctetBits(s) + extra) == s
  {
    hide BitsOf, Number, OctetBits;
    if s != [] {
      FirstOctet(s, extra);
      OctetsOfBits(s[1..], extra);
      assert s == [s[0]] + s[1..];
    }
  }

  lemma FirstOctet(s: seq<int>, extra: Bits)
    requires s != [] && 0 <= s[0] < 256
    ensures var b := OctetBits(s) + extra; Number(b[..8]) == s[0] && b[8..] == OctetBits(s[1..]) + extra
  {
    hide BitsOf, Number, OctetBits;
    SplitOffOctet(s);
    OctetNumber(s[0]);
    Reassociate(BitsOf(s[0], 8), OctetBits(s[1..]), extra);
  }

  lemma OctetNumber(x: int)
    requires 0 <= x < 256
    ensures Number(BitsOf(x, 8)) == x
  {
    hide BitsOf, Number;
    NumberOfBits(x, 8);
    assert Pow2(8) == 256;
  }

  lemma SplitOffOctet(s: seq<int>)
    requires s != []
    ensures OctetBits(s) == BitsOf(s[0], 8) + OctetBits(s[1..])
  {
    hide BitsOf;
    assert s == [s[0]] + s[1..];
    OctetBitsConcat([s[0]], s[1..]);
    assert OctetBits([s[0]]) == OctetBits([]) + BitsOf(s[0], 8);
  }

  lemma Reassociate(a: Bits, b: Bits, c: Bits)
    ensures (a + b + c)[..|a|] == a && (a + b + c)[|a|..] == b + c
  {
  }

  /** Decoding the digits of an encoded octet string gives the octets back, for any width up to eight bits. */
  lemma DecodeEncode(s: seq<int>, w: nat)
    requires IsBytes(s)
    requires 0 < w <= 8
    ensures Octets(DigitBits(Groups(OctetBits(s), w), w)) == s
  {
    hide OctetBits, DigitBits, Groups, Octets;
    var b := OctetBits(s);
    DigitsCarryBits(b, w);
    var d := DigitBits(Groups(b, w), w);
    assert d == b + d[|b|..];
    OctetsOfBits(s, d[|b|..]);
  }
}
