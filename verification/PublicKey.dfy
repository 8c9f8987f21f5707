/** `Wireguard.generatePublicKey`: the Montgomery ladder over limb arrays computes X25519 with base point 9. */
module PublicKey {
  import opened Arith
  import opened JsNumber
  import opened Rfc7748
  import opened Limbs
  import opened Field

  const BASE_POINT: int := 9

  ghost function Fe(o: array<int>): int
    requires o.Length == 16
    reads o
  {
    Element(o[..])
  }

  /** The ladder state held by the four working arrays: a is x2, c is z2, b is x3 and d is z3. */
  ghost function State(a: array<int>, b: array<int>, c: array<int>, d: array<int>): Ladder
    requires a.Length == 16 && b.Length == 16 && c.Length == 16 && d.Length == 16
    reads a, b, c, d
  {
    Ladder(Fe(a), Fe(c), Fe(b), Fe(d), false)
  }

  ghost predicate Working(a: array<int>, b: array<int>, c: array<int>, d: array<int>)
    reads a, b, c, d
  {
    Reduced(a[..]) && Reduced(b[..]) && Reduced(c[..]) && Reduced(d[..])
  }

  predicate Distinct(a: array<int>, b: array<int>, c: array<int>, d: array<int>, e: array<int>, f: array<int>) {
    && e.Length == 16 && f.Length == 16
    && a != b && a != c && a != d && a != e && a != f && b != c && b != d && b != e && b != f
    && c != d && c != e && c != f && d != e && d != f && e != f
  }

  /** The eighteen field operations of one iteration, each writing one of six arrays in place. */
  method LadderRound(a: array<int>, b: array<int>, c: array<int>, d: array<int>, e: array<int>, f: array<int>,
                     k121665: array<int>, k9: array<int>)
    requires Distinct(a, b, c, d, e, f) && Working(a, b, c, d)
    requires k121665 !in {a, b, c, d, e, f} && k9 !in {a, b, c, d, e, f}
    requires Reduced(k121665[..]) && Fe(k121665) == A24 && Reduced(k9[..]) && Fe(k9) == BASE_POINT
    modifies a, b, c, d, e, f
    ensures Working(a, b, c, d)
    ensures State(a, b, c, d) == DoubleAndAdd(BASE_POINT, old(State(a, b, c, d)))
  {
    hide FMul, FAdd, FSub, Element;
    ghost var st := State(a, b, c, d);
    SumsAndSquares(a, b, c, d, e, f);
    CrossProducts(a, b, c, d, e, f);
    NextPoints(a, b, c, d, e, f, k121665, k9);
    ghost var sum, dif := FAdd(st.x2, st.z2), FSub(st.x2, st.z2);
    SecondZ(FSub(FMul(sum, sum), FMul(dif, dif)), FMul(sum, sum));
    ThirdPoint(BASE_POINT, FMul(FSub(st.x3, st.z3), sum), FMul(FAdd(st.x3, st.z3), dif));
  }

  method SumsAndSquares(a: array<int>, b: array<int>, c: array<int>, d: array<int>, e: array<int>, f: array<int>)
    requires Distinct(a, b, c, d, e, f) && Working(a, b, c, d)
    modifies a, b, c, d, e, f
    ensures Loose(a[..]) && Loose(b[..]) && Loose(c[..]) && Loose(e[..]) && Reduced(d[..]) && Reduced(f[..])
    ensures Fe(e) == old(FAdd(Fe(a), Fe(c))) && Fe(a) == old(FSub(Fe(a), Fe(c)))
    ensures Fe(c) == old(FAdd(Fe(b), Fe(d))) && Fe(b) == old(FSub(Fe(b), Fe(d)))
    ensures Fe(d) == FMul(Fe(e), Fe(e)) && Fe(f) == FMul(Fe(a), Fe(a))
  {
    Add(e, a, c);
    Subtract(a, a, c);
    Add(c, b, d);
    Subtract(b, b, d);
    MultMod(d, e, e);
    MultMod(f, a, a);
  }

  method CrossProducts(a: array<int>, b: array<int>, c: array<int>, d: array<int>, e: array<int>, f: array<int>)
    requires Distinct(a, b, c, d, e, f)
    requires Loose(a[..]) && Loose(b[..]) && Loose(c[..]) && Loose(e[..]) && Reduced(d[..]) && Reduced(f[..])
    modifies a, b, c, e
    ensures Loose(c[..]) && Loose(e[..]) && Reduced(b[..])
    ensures var cb, da := old(FMul(Fe(c), Fe(a))), old(FMul(Fe(b), Fe(e)));
            && Fe(e) == FAdd(cb, da)
            && Fe(b) == FMul(FSub(cb, da), FSub(cb, da))
    ensures Fe(c) == FSub(Fe(d), Fe(f))
  {
    MultMod(a, c, a);
    MultMod(c, b, e);
    Add(e, a, c);
    Subtract(a, a, c);
    MultMod(b, a, a);
    Subtract(c, d, f);
  }

  method NextPoints(a: array<int>, b: array<int>, c: array<int>, d: array<int>, e: array<int>, f: array<int>,
                    k121665: array<int>, k9: array<int>)
    requires Distinct(a, b, c, d, e, f) && k121665 !in {a, b, c, d} && k9 !in {a, b, c, d} && a.Length == 16
    requires Loose(c[..]) && Loose(e[..]) && Reduced(b[..]) && Reduced(d[..]) && Reduced(f[..])
    requires Reduced(k121665[..]) && Reduced(k9[..])
    modifies a, b, c, d
    ensures Working(a, b, c, d)
    ensures Fe(a) == old(FMul(Fe(d), Fe(f)))
    ensures Fe(c) == old(FMul(Fe(c), FAdd(FMul(Fe(c), Fe(k121665)), Fe(d))))
    ensures Fe(b) == old(FMul(Fe(e), Fe(e)))
    ensures Fe(d) == old(FMul(Fe(b), Fe(k9)))
  {
    MultMod(a, c, k121665);
    Add(a, a, d);
    MultMod(c, c, a);
    MultMod(a, d, f);
    MultMod(d, b, k9);
    MultMod(b, e, e);
  }

  /** The order of factors does not matter. */
  lemma SecondZ(e: int, aa: int)
    ensures FMul(e, FAdd(aa, FMul(A24, e))) == FMul(e, FAdd(FMul(e, A24), aa))
  {
    assert FMul(A24, e) == FMul(e, A24);
  }

  /** Nor do the order of the cross products and the sign of their difference. */
  lemma ThirdPoint(u: int, da: int, cb: int)
    ensures FAdd(da, cb) == FAdd(cb, da)
    ensures FMul(u, FMul(FSub(da, cb), FSub(da, cb))) == FMul(FMul(FSub(cb, da), FSub(cb, da)), u)
  {
    SquareOfNegated(da, cb);
    assert FMul(u, FMul(FSub(cb, da), FSub(cb, da))) == FMul(FMul(FSub(cb, da), FSub(cb, da)), u);
  }

  lemma SquareOfNegated(x: int, y: int)
    ensures FMul(FSub(x, y), FSub(x, y)) == FMul(FSub(y, x), FSub(y, x))
  {
    ModMul(x - y, x - y, P);
    ModMul(y - x, y - x, P);
    assert (x - y) * (x - y) == (y - x) * (y - x);
  }

  /** A constant of at most two limbs as a field element. */
  method Constant(init: seq<int>, ghost x: int, ghost y: int) returns (r: array<int>)
    requires init == [x, y] || (init == [x] && y == 0) || (init == [] && x == y == 0)
    requires 0 <= x < 65536 && 0 <= y < 65536
    ensures fresh(r) && r.Length == 16 && Reduced(r[..]) && Fe(r) == x + 65536 * y
  {
    r := Gf(init);
    SmallConstant(r[..], x, y);
  }

  lemma SmallConstant(s: seq<int>, x: int, y: int)
    requires |s| == 16 && s[0] == x && s[1] == y && 0 <= x < 65536 && 0 <= y < 65536
    requires forall k :: 2 <= k < 16 ==> s[k] == 0
    ensures Reduced(s) && Element(s) == x + 65536 * y
  {
    ZeroTail(s, 2);
    assert Val(s, 1) == y + 65536 * Val(s, 2);
  }

  /** Makes the bytes a scalar whose low three bits are clear and whose highest bit is bit 254. */
  method Clamp(z: array<int>)
    requires z.Length == 32 && IsBytes(z[..])
    modifies z
    ensures IsBytes(z[..]) && z[..] == Clamped(old(z[..]))
  {
    hide BitAnd, BitOr;
    ClampBits(z[31], z[0]);
    z[31] := ToUint8(BitOr(BitAnd(z[31], 127), 64));
    z[0] := ToUint8(BitAnd(z[0], 248));
  }

  lemma ClampBits(hi: int, lo: int)
    requires 0 <= hi < 256 && 0 <= lo < 256
    ensures BitOr(BitAnd(hi, 127), 64) == hi % 64 + 64
    ensures BitAnd(lo, 248) == lo - lo % 8
  {
    SetHighBits(hi);
    ClearLowBits(lo);
  }

  lemma SetHighBits(x: int)
    requires 0 <= x < 256
    ensures BitOr(BitAnd(x, 127), 64) == x % 64 + 64
  {
    hide And, Or, Pow2;
    Pow2Values();
    AndMask(x, 7);
    OrTopBit(x % 128, 6);
    assert x % 128 % 64 == x % 64;
  }

  lemma ClearLowBits(x: int)
    requires 0 <= x < 256
    ensures BitAnd(x, 248) == x - x % 8
  {
    hide And, Or;
    Pow2Values();
    AndShifted3(x, 31);
    AndMask(x / 8, 5);
  }

  /** The bit the ladder reads from the scalar bytes. */
  lemma ScalarBit(z: seq<int>, i: nat)
    requires |z| == 32 && IsBytes(z) && i < 255
    ensures UShr(i, 3) == i / 8 && BitAnd(i, 7) == i % 8
    ensures BitAnd(UShr(z[i / 8], i % 8), 1) == if Bit(LittleEndian(z), i) then 1 else 0
  {
    hide And, Pow2, Bit, LittleEndian;
    Pow2Values();
    AndMask(i, 3);
    var x := z[i / 8] / Pow2(i % 8);
    QuotientRange(z[i / 8], Pow2(i % 8));
    AndMask(x, 1);
    BitOfByte(z, i);
  }

  /** Bytes missing from a short array read as zero; a key of 32 bytes is read as it is. */
  function Padded(s: seq<int>): (r: seq<int>)
    ensures |r| == 32 && (|s| == 32 ==> r == s)
  {
    seq(32, i requires 0 <= i < 32 => if i < |s| then s[i] else 0)
  }

  method GeneratePublicKey(privateKey: array<int>) returns (z: array<int>)
    requires IsBytes(privateKey[..])
    ensures fresh(z) && z.Length == 32 && IsBytes(z[..])
    ensures LittleEndian(z[..]) == X25519(DecodeScalar(Padded(privateKey[..])), 9)
    ensures privateKey.Length == 32 ==>
              var n := LittleEndian(privateKey[..]);
              LittleEndian(z[..]) == X25519(Pow2(254) + n % Pow2(254) - n % 8, 9)
  {
    hide Pow2, DecodeScalar, Element, X25519, LittleEndian, Reduced, IsBytes, Clamped, Padded;
    z := new int[32](_ => 0);
    CopyKey(z, privateKey);
    Clamp(z);
    var a, b, c, d, e, f, k121665, k9 := WorkingArrays();
    LadderAndPack(z, a, b, c, d, e, f, k121665, k9);
    ScalarOfKey(privateKey[..]);
  }

  lemma ScalarOfKey(key: seq<int>)
    requires IsBytes(key)
    ensures LittleEndian(Clamped(Padded(key))) == DecodeScalar(Padded(key))
    ensures |key| == 32 ==>
              var n := LittleEndian(key); DecodeScalar(Padded(key)) == Pow2(254) + n % Pow2(254) - n % 8
  {
    hide LittleEndian, Pow2, Clamped;
    if |key| == 32 {
      DecodedScalar(key);
    }
  }

  method WorkingArrays() returns (a: array<int>, b: array<int>, c: array<int>, d: array<int>, e: array<int>, f: array<int>,
                                  k121665: array<int>, k9: array<int>)
    ensures fresh({a, b, c, d, e, f, k121665, k9})
    ensures a.Length == 16 && b.Length == 16 && c.Length == 16 && d.Length == 16
    ensures Distinct(a, b, c, d, e, f) && Working(a, b, c, d)
    ensures k121665 !in {a, b, c, d, e, f} && k9 !in {a, b, c, d, e, f} && k121665.Length == 16 && k9.Length == 16
    ensures Reduced(k121665[..]) && Fe(k121665) == A24 && Reduced(k9[..]) && Fe(k9) == BASE_POINT
    ensures State(a, b, c, d) == Ladder(1, 0, BASE_POINT, 1, false)
  {
    hide Element, Reduced;
    a := Constant([1], 1, 0);
    b := Constant([9], 9, 0);
    c := Constant([], 0, 0);
    d := Constant([1], 1, 0);
    e := Constant([], 0, 0);
    f := Constant([], 0, 0);
    k121665 := Constant([0xdb41, 1], 0xdb41, 1);
    k9 := Constant([9], 9, 0);
  }

  /** The ladder on the scalar in z, the final division, and the result written back to z. */
  method LadderAndPack(z: array<int>, a: array<int>, b: array<int>, c: array<int>, d: array<int>, e: array<int>,
                       f: array<int>, k121665: array<int>, k9: array<int>)
    requires z.Length == 32 && IsBytes(z[..]) && z !in {a, b, c, d, e, f}
    requires a.Length == 16 && b.Length == 16 && c.Length == 16 && d.Length == 16
    requires Distinct(a, b, c, d, e, f) && Working(a, b, c, d)
    requires k121665 !in {a, b, c, d, e, f} && k9 !in {a, b, c, d, e, f} && k121665.Length == 16 && k9.Length == 16
    requires Reduced(k121665[..]) && Fe(k121665) == A24 && Reduced(k9[..]) && Fe(k9) == BASE_POINT
    requires State(a, b, c, d) == Ladder(1, 0, BASE_POINT, 1, false)
    modifies z, a, b, c, d, e, f
    ensures IsBytes(z[..]) && LittleEndian(z[..]) == X25519(old(LittleEndian(z[..])), BASE_POINT)
  {
    hide Element, X25519, LittleEndian, Reduced, IsBytes, LadderFrom, FMul, FPow, Settled;
    LadderLoop(z, a, b, c, d, e, f, k121665, k9);
    FinishKey(z, a, c);
    SettledQuotient(old(LittleEndian(z[..])), BASE_POINT);
  }

  method CopyKey(z: array<int>, privateKey: array<int>)
    requires z.Length == 32 && z != privateKey && IsBytes(privateKey[..])
    modifies z
    ensures z[..] == Padded(privateKey[..]) && IsBytes(z[..])
  {
    for i := 0 to 32
      invariant forall j :: 0 <= j < i ==> z[j] == Padded(privateKey[..])[j]
    {
      z[i] := ToUint8(if i < privateKey.Length then privateKey[i] else 0);
    }
  }

  /** The division x2 / z2 and the encoding of the quotient. */
  method FinishKey(z: array<int>, a: array<int>, c: array<int>)
    requires a != c && z != a && z != c && z.Length == 32 && a.Length == 16 && c.Length == 16 && Reduced(a[..]) && Reduced(c[..])
    modifies z, a, c
    ensures IsBytes(z[..])
    ensures LittleEndian(z[..]) == FMul(old(Fe(a)), FPow(old(Fe(c)), P - 2))
  {
    Invert(c, c);
    MultMod(a, a, c);
    Pack(z, a);
  }

  /** The 255 iterations, from bit 254 down to bit 0. */
  method LadderLoop(z: array<int>, a: array<int>, b: array<int>, c: array<int>, d: array<int>, e: array<int>, f: array<int>,
                    k121665: array<int>, k9: array<int>)
    requires z.Length == 32 && IsBytes(z[..]) && z !in {a, b, c, d, e, f}
    requires a.Length == 16 && b.Length == 16 && c.Length == 16 && d.Length == 16
    requires Distinct(a, b, c, d, e, f) && Working(a, b, c, d)
    requires k121665 !in {a, b, c, d, e, f} && k9 !in {a, b, c, d, e, f} && k121665.Length == 16 && k9.Length == 16
    requires Reduced(k121665[..]) && Fe(k121665) == A24 && Reduced(k9[..]) && Fe(k9) == BASE_POINT
    requires State(a, b, c, d) == Ladder(1, 0, BASE_POINT, 1, false)
    modifies a, b, c, d, e, f
    ensures Working(a, b, c, d)
    ensures State(a, b, c, d) == Settled(LadderFrom(LittleEndian(z[..]), BASE_POINT, 0))
  {
    hide Element, LittleEndian, DoubleAndAdd, Bit, BitAnd, UShr, Pow2;
    ghost var k := LittleEndian(z[..]);
    var i := 254;
    while i >= 0
      invariant -1 <= i <= 254 && z[..] == old(z[..])
      invariant Working(a, b, c, d)
      invariant Fe(k121665) == A24 && Fe(k9) == BASE_POINT
      invariant Reduced(k121665[..]) && Reduced(k9[..])
      invariant State(a, b, c, d) == Settled(LadderFrom(k, BASE_POINT, i + 1))
    {
      ScalarBit(z[..], i);
      var r := BitAnd(UShr(z[UShr(i, 3)], BitAnd(i, 7)), 1);
      SwapPoints(a, b, c, d, r);
      LadderRound(a, b, c, d, e, f, k121665, k9);
      SwapPoints(a, b, c, d, r);
      SettledStep(k, BASE_POINT, i, LadderFrom(k, BASE_POINT, i + 1));
      i := i - 1;
    }
  }

  method SwapPoints(a: array<int>, b: array<int>, c: array<int>, d: array<int>, r: int)
    requires a != b && a != c && a != d && b != c && b != d && c != d && (r == 0 || r == 1)
    requires Working(a, b, c, d)
    modifies a, b, c, d
    ensures Working(a, b, c, d)
    ensures State(a, b, c, d) == Rfc7748.CSwap(r == 1, old(State(a, b, c, d)))
  {
    Field.CSwap(a, b, r);
    Field.CSwap(c, d, r);
  }
}
