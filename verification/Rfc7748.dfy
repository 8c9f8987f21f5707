/** The X25519 function of RFC 7748, section 5, on integers: the reference the limb code is proved against. */
module Rfc7748 {
  import opened Arith

  /** 2^255 - 19 */
  const P: int := 0x7fff_ffff_ffff_ffff_ffff_ffff_ffff_ffff_ffff_ffff_ffff_ffff_ffff_ffff_ffff_ffed

  const A24: int := 121665

  predicate IsElement(x: int) {
    0 <= x < P
  }

  function FAdd(x: int, y: int): (r: int)
    ensures IsElement(r)
  {
    (x + y) % P
  }

  function FSub(x: int, y: int): (r: int)
    ensures IsElement(r)
  {
    (x - y) % P
  }

  function FMul(x: int, y: int): (r: int)
    ensures IsElement(r)
  {
    (x * y) % P
  }

  function FPow(x: int, n: nat): (r: int)
    ensures IsElement(r)
  {
    Pow(x, n) % P
  }

  function LittleEndian(s: seq<int>): int {
    if s == [] then 0 else s[0] + 256 * LittleEndian(s[1..])
  }

  /** The three low bits and the top bit cleared, bit 254 set. */
  function Clamped(k: seq<int>): (r: seq<int>)
    requires |k| == 32
    ensures |r| == 32
  {
    k[0 := k[0] - k[0] % 8][31 := k[31] % 64 + 64]
  }

  function DecodeScalar(k: seq<int>): int
    requires |k| == 32
  {
    LittleEndian(Clamped(k))
  }

  datatype Ladder = Ladder(x2: int, z2: int, x3: int, z3: int, swap: bool)

  function CSwap(swap: bool, st: Ladder): Ladder {
    if swap then st.(x2 := st.x3, x3 := st.x2, z2 := st.z3, z3 := st.z2) else st
  }

  function Bit(k: int, t: nat): bool {
    (k / Pow2(t)) % 2 == 1
  }

  /** The arithmetic of one ladder iteration, after the conditional swap. */
  function DoubleAndAdd(u: int, st: Ladder): Ladder {
    var a := FAdd(st.x2, st.z2);
    var aa := FMul(a, a);
    var b := FSub(st.x2, st.z2);
    var bb := FMul(b, b);
    var e := FSub(aa, bb);
    var c := FAdd(st.x3, st.z3);
    var d := FSub(st.x3, st.z3);
    var da := FMul(d, a);
    var cb := FMul(c, b);
    st.(x3 := FMul(FAdd(da, cb), FAdd(da, cb)),
        z3 := FMul(u, FMul(FSub(da, cb), FSub(da, cb))),
        x2 := FMul(aa, bb),
        z2 := FMul(e, FAdd(aa, FMul(A24, e))))
  }

  /** One iteration for bit t: the swap flag is exclusive-or'ed with the bit and left pending. */
  function LadderStep(k: int, u: int, t: nat, st: Ladder): Ladder {
    var kt := Bit(k, t);
    DoubleAndAdd(u, CSwap(st.swap != kt, st)).(swap := kt)
  }

  /** Iterations for bits 254 down to t. */
  function LadderFrom(k: int, u: int, t: nat): Ladder
    requires t <= 255
    decreases 255 - t
  {
    if t == 255 then Ladder(1, 0, u, 1, false)
    else LadderStep(k, u, t, LadderFrom(k, u, t + 1))
  }

  function X25519(k: int, u: int): (r: int)
    ensures IsElement(r)
  {
    var st := LadderFrom(k, u, 0);
    var res := CSwap(st.swap, st);
    FMul(res.x2, FPow(res.z2, P - 2))
  }

  // ----- Settled ladder states -----

  /** A ladder state with its pending swap carried out. */
  ghost function Settled(st: Ladder): Ladder {
    CSwap(st.swap, st).(swap := false)
  }

  /** Swapping before and after the arithmetic is the deferred swap of the standard. */
  lemma SettledStep(k: int, u: int, t: nat, st: Ladder)
    ensures Settled(LadderStep(k, u, t, st)) == CSwap(Bit(k, t), DoubleAndAdd(u, CSwap(Bit(k, t), Settled(st))))
  {
    hide FMul, FAdd, FSub, Bit;
  }

  lemma SettledQuotient(k: int, u: int)
    ensures var st := Settled(LadderFrom(k, u, 0)); X25519(k, u) == FMul(st.x2, FPow(st.z2, P - 2))
  {
    hide LadderFrom, FMul, FPow;
  }

  // ----- Scalars -----

  /** Decoding keeps bits 3 to 253 of the key as they are, clears the lower ones and sets bit 254. */
  lemma DecodedScalar(k: seq<int>)
    requires |k| == 32 && IsBytes(k)
    ensures var n := LittleEndian(k); DecodeScalar(k) == Pow2(254) + n % Pow2(254) - n % 8
  {
    hide Pow2, LittleEndian, Clamped;
    var c := Clamped(k);
    LowEnds(k, c);
    LowAndTop(k);
    LowAndTop(c);
    TopPowers();
    ClampArithmetic(LittleEndian(k), LittleEndian(k[..31]), k[31], k[0], Pow2(248), Pow2(254));
  }

  /** A number of 32 bytes is its 31 low bytes and its top byte; its remainder by eight is that of its first byte. */
  lemma LowAndTop(k: seq<int>)
    requires |k| == 32 && IsBytes(k)
    ensures LittleEndian(k) == LittleEndian(k[..31]) + Pow2(248) * k[31] && 0 <= LittleEndian(k[..31]) < Pow2(248)
    ensures LittleEndian(k) % 8 == k[0] % 8
  {
    hide Pow2;
    LittleEndianSplit(k, 31);
    LittleEndianBound(k[..31]);
    assert k[31..] == [k[31]];
    assert LittleEndian([k[31]]) == k[31] + 256 * LittleEndian([]);
    AddMultiple(k[0], 32 * LittleEndian(k[1..]), 8);
  }

  lemma LowEnds(k: seq<int>, c: seq<int>)
    requires |k| == 32 && IsBytes(k) && c == Clamped(k)
    ensures IsBytes(c) && c[31] == k[31] % 64 + 64
    ensures LittleEndian(c[..31]) == LittleEndian(k[..31]) - k[0] % 8
  {
    assert c[..31][1..] == k[..31][1..];
  }

  lemma ClampArithmetic(n: int, low: int, top: int, first: int, w: int, m: int)
    requires w > 0 && 0 <= low < w && 0 <= top && n == low + w * top && n % 8 == first % 8 && m == w * 64
    ensures low - first % 8 + w * (top % 64 + 64) == m + n % m - n % 8
  {
    var q, r := top / 64, top % 64;
    assert w * top == (w * 64) * q + w * r;
    assert w * r <= w * 63 by { MulBetween(w, r, 0, 63); }
    DivModUnique(n, w * 64, q, low + w * r);
    assert w * (r + 64) == w * r + w * 64;
  }

  /** A decoded scalar is a multiple of eight whose highest bit is bit 254. */
  lemma DecodedScalarShape(k: seq<int>)
    requires |k| == 32 && IsBytes(k)
    ensures DecodeScalar(k) % 8 == 0
    ensures Pow2(254) <= DecodeScalar(k) < Pow2(255)
  {
    ShapeFromEnds(Clamped(k));
  }

  lemma ShapeFromEnds(c: seq<int>)
    requires IsBytes(c) && |c| == 32 && c[0] % 8 == 0 && 64 <= c[31] < 128
    ensures LittleEndian(c) % 8 == 0
    ensures Pow2(254) <= LittleEndian(c) < Pow2(255)
  {
    MultipleOf8(c);
    TopByte(c, 31);
    TopPowers();
    hide Pow2, LittleEndian;
    MulBetween(Pow2(248), c[31], 64, 127);
  }

  lemma MultipleOf8(c: seq<int>)
    requires |c| > 0 && c[0] % 8 == 0
    ensures LittleEndian(c) % 8 == 0
  {
    AddMultiple(c[0], 32 * LittleEndian(c[1..]), 8);
  }

  lemma TopPowers()
    ensures Pow2(254) == Pow2(248) * 64 && Pow2(255) == Pow2(248) * 128
  {
    Pow2Add(248, 6);
    Pow2Add(248, 7);
    Pow2At6And7();
  }

  lemma TopByte(c: seq<int>, n: nat)
    requires IsBytes(c) && |c| == n + 1
    ensures Pow2(8 * n) * c[n] <= LittleEndian(c) < Pow2(8 * n) * c[n] + Pow2(8 * n)
  {
    LittleEndianSplit(c, n);
    LittleEndianBound(c[..n]);
    assert c[n..] == [c[n]];
    assert LittleEndian([c[n]]) == c[n] + 256 * LittleEndian([]);
  }

  lemma Pow2At6And7()
    ensures Pow2(3) == 8 && Pow2(6) == 64 && Pow2(7) == 128 && Pow2(8) == 256
  {
    assert Pow2(4) == 16;
  }

  lemma {:induction false} LittleEndianBound(s: seq<int>)
    requires IsBytes(s)
    ensures 0 <= LittleEndian(s) < Pow2(8 * |s|)
  {
    if s != [] {
      LittleEndianBound(s[1..]);
      Pow2Add(8, 8 * |s| - 8);
      Pow2At6And7();
    }
  }

  lemma {:induction false} LittleEndianSplit(s: seq<int>, n: nat)
    requires n <= |s|
    ensures LittleEndian(s) == LittleEndian(s[..n]) + Pow2(8 * n) * LittleEndian(s[n..])
    decreases n
  {
    if n == 0 {
      assert s[..n] == [] && s[n..] == s;
    } else {
      LittleEndianSplit(s[1..], n - 1);
      assert s[..n][1..] == s[1..][..n - 1] && s[1..][n - 1..] == s[n..];
      assert Pow2(8 * n) == 256 * Pow2(8 * n - 8) by {
        Pow2Add(8, 8 * n - 8);
        Pow2At6And7();
      }
      MulAssociates(256, Pow2(8 * n - 8), LittleEndian(s[n..]));
    }
  }

  /** The little-endian form of a number in a given number of bytes is unique. */
  lemma {:induction false} LittleEndianInjective(s: seq<int>, s': seq<int>)
    requires IsBytes(s) && IsBytes(s') && |s| == |s'| && LittleEndian(s) == LittleEndian(s')
    ensures s == s'
  {
    if s != [] {
      LittleEndianInjective(s[1..], s'[1..]);
      assert s == [s[0]] + s[1..] && s' == [s'[0]] + s'[1..];
    }
  }

  /** Bit t of a little-endian number is bit t % 8 of byte t / 8. */
  lemma BitOfByte(s: seq<int>, t: nat)
    requires IsBytes(s) && t < 8 * |s|
    ensures Bit(LittleEndian(s), t) <==> (s[t / 8] / Pow2(t % 8)) % 2 == 1
  {
    var q, d := t / 8, Pow2(t % 8);
    ShiftToByte(s, q, Pow2(8 * q), d);
    Pow2Add(8 * q, t % 8);
    BitOfLowByte(s[q], LittleEndian(s[q..][1..]), t % 8);
  }

  lemma ShiftToByte(s: seq<int>, q: nat, w: nat, d: int)
    requires IsBytes(s) && q < |s| && d > 0 && w == Pow2(8 * q)
    ensures LittleEndian(s) / (w * d) == LittleEndian(s[q..]) / d
  {
    SplitAtByte(s, q, w);
    LittleEndianBound(s[..q]);
    ShiftLow(LittleEndian(s), LittleEndian(s[..q]), w, LittleEndian(s[q..]), d);
  }

  lemma SplitAtByte(s: seq<int>, q: nat, w: nat)
    requires q <= |s| && w == Pow2(8 * q)
    ensures LittleEndian(s) == LittleEndian(s[..q]) + w * LittleEndian(s[q..])
  {
    LittleEndianSplit(s, q);
  }

  lemma BitOfLowByte(x: int, tail: int, r: nat)
    requires r < 8
    ensures ((x + 256 * tail) / Pow2(r)) % 2 == (x / Pow2(r)) % 2
  {
    var d, m := Pow2(r), Pow2(7 - r);
    assert 256 == d * (2 * m) by {
      Pow2Add(r, 8 - r);
      Pow2At6And7();
      assert Pow2(8 - r) == 2 * m;
    }
    MulAssociates(d, 2 * m, tail);
    MulAssociates(2, m, tail);
    DivAddMultiple(x, 2 * (m * tail), d);
    AddMultiple(x / d, m * tail, 2);
  }

  lemma ShiftLow(x: int, lo: nat, w: int, hi: int, d: int)
    requires w > 0 && d > 0 && lo < w && x == lo + w * hi
    ensures x / (w * d) == hi / d
  {
    var q, r := hi / d, hi % d;
    assert w * hi == (w * d) * q + w * r;
    assert w * r <= w * (d - 1);
    DivModUnique(x, w * d, q, w * r + lo);
  }

  lemma DivAddMultiple(x: int, k: int, d: int)
    requires d > 0
    ensures (x + d * k) / d == x / d + k
  {
    DivModUnique(x + d * k, d, x / d + k, x % d);
  }
}
