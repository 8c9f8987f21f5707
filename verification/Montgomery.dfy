/** What the ladder of RFC 7748, section 5, computes: multiples of a point on the curve y^2 = x^3 + 486662 x^2 + x, by
    their projective x coordinates and the doubling and differential addition formulas of Montgomery. */
module Montgomery {
  import opened Arith
  import opened Rfc7748

  /** A point by its coordinate x / z; z is 0 at infinity. */
  datatype Point = Point(x: int, z: int)

  /** Twice a point. */
  function Double(p: Point): Point {
    var d := p.x * p.x - p.z * p.z;
    Point(d * d % P, 4 * (p.x * p.z) * (p.x * p.x + 486662 * (p.x * p.z) + p.z * p.z) % P)
  }

  /** The sum of two points whose difference has coordinate u. */
  function DifferentialAdd(u: int, p: Point, q: Point): Point {
    var s, d := p.x * q.x - p.z * q.z, q.x * p.z - q.z * p.x;
    Point(4 * (s * s) % P, u * (4 * (d * d)) % P)
  }

  /** n times the point u by the binary digits of n, written with the given number of digits. */
  function Multiple(u: int, n: nat, digits: nat): Point
    decreases digits
  {
    if digits == 0 then if n == 0 then Point(1, 0) else Point(u, 1)
    else if n % 2 == 0 then Double(Multiple(u, n / 2, digits - 1))
    else DifferentialAdd(u, Multiple(u, n / 2, digits - 1), Multiple(u, n / 2 + 1, digits - 1))
  }

  // ----- The arithmetic of one round -----

  lemma AddMod(x: int, y: int)
    ensures FAdd(x % P, y % P) == (x + y) % P && FSub(x % P, y % P) == (x - y) % P
  {
    ModAdd(x, y, P);
    ModSub(x, y, P);
  }

  lemma MulMod(x: int, y: int)
    ensures FMul(x % P, y % P) == (x * y) % P && FMul(x, y % P) == (x * y) % P && FMul(x % P, y) == (x * y) % P
  {
    RemainderFactors(x, y, P);
  }

  lemma RemainderFactors(x: int, y: int, m: int)
    requires m > 0
    ensures ((x % m) * (y % m)) % m == (x * y) % m && (x * (y % m)) % m == (x * y) % m && ((x % m) * y) % m == (x * y) % m
  {
    ModMul(x, y, m);
    ModMul(x, y % m, m);
    ModMul(x % m, y, m);
    Twofold(x, m);
    Twofold(y, m);
  }

  lemma Twofold(x: int, m: int)
    requires m > 0
    ensures x % m % m == x % m
  {
    DivModUnique(x % m, m, 0, x % m);
  }

  /** The round doubles the first point. */
  lemma RoundDoubles(u: int, st: Ladder)
    ensures var v, p := DoubleAndAdd(u, st), Double(Point(st.x2, st.z2)); v.x2 == p.x && v.z2 == p.z
  {
    hide FAdd, FSub, FMul;
    var x, z := st.x2, st.z2;
    Sums(x, z);
    var s, d := (x + z) * (x + z), (x - z) * (x - z);
    MulMod(x + z, x + z);
    MulMod(x - z, x - z);
    MulMod(s, d);
    AddMod(s, d);
    MulMod(A24, s - d);
    AddMod(s, A24 * (s - d));
    MulMod(s - d, s + A24 * (s - d));
    DoubleIdentity(x, z, s, d);
  }

  lemma Sums(x: int, z: int)
    ensures FAdd(x, z) == (x + z) % P && FSub(x, z) == (x - z) % P
  {
  }

  lemma DoubleIdentity(x: int, z: int, s: int, d: int)
    requires s == (x + z) * (x + z) && d == (x - z) * (x - z)
    ensures s * d == (x * x - z * z) * (x * x - z * z)
    ensures s - d == 4 * (x * z) && s + A24 * (s - d) == x * x + 486662 * (x * z) + z * z
  {
    assert (x + z) * (x - z) == x * x - z * z;
    SquareOfProduct(x + z, x - z);
    assert s == x * x + 2 * (x * z) + z * z;
    assert d == x * x - 2 * (x * z) + z * z;
  }

  lemma SquareOfProduct(a: int, b: int)
    ensures (a * a) * (b * b) == (a * b) * (a * b)
  {
    assert (a * a) * (b * b) == a * (a * (b * b));
    assert a * (b * b) == (a * b) * b;
    assert a * ((a * b) * b) == (a * b) * (a * b);
  }

  /** The round adds the two points. */
  lemma RoundAdds(u: int, st: Ladder)
    ensures var v, p := DoubleAndAdd(u, st), DifferentialAdd(u, Point(st.x2, st.z2), Point(st.x3, st.z3));
            v.x3 == p.x && v.z3 == p.z
  {
    hide FAdd, FSub, FMul;
    var x, z, x', z' := st.x2, st.z2, st.x3, st.z3;
    Sums(x, z);
    Sums(x', z');
    var da, cb := (x' - z') * (x + z), (x' + z') * (x - z);
    MulMod(x' - z', x + z);
    MulMod(x' + z', x - z);
    AddMod(da, cb);
    MulMod(da + cb, da + cb);
    MulMod(da - cb, da - cb);
    MulMod(u, (da - cb) * (da - cb));
    AddIdentity(x, z, x', z', da, cb);
  }

  lemma AddIdentity(x: int, z: int, x': int, z': int, da: int, cb: int)
    requires da == (x' - z') * (x + z) && cb == (x' + z') * (x - z)
    ensures (da + cb) * (da + cb) == 4 * ((x * x' - z * z') * (x * x' - z * z'))
    ensures (da - cb) * (da - cb) == 4 * ((x' * z - z' * x) * (x' * z - z' * x))
  {
    assert da == x' * x + x' * z - z' * x - z' * z;
    assert cb == x' * x - x' * z + z' * x - z' * z;
    Twice(da + cb, x * x' - z * z');
    Twice(da - cb, x' * z - z' * x);
  }

  lemma Twice(a: int, b: int)
    requires a == 2 * b
    ensures a * a == 4 * (b * b)
  {
  }

  // ----- The ladder -----

  ghost function PairOf(p: Point, q: Point): Ladder {
    Ladder(p.x, p.z, q.x, q.z, false)
  }

  /** Before bit t is taken, the ladder holds the multiples by the bits taken so far and by one more. */
  lemma {:induction false} LadderHolds(k: nat, u: int, t: nat)
    requires t <= 255 && k < Pow2(255)
    ensures var n := Taken(k, t);
            Settled(LadderFrom(k, u, t)) == PairOf(Multiple(u, n, 255 - t), Multiple(u, n + 1, 255 - t))
    decreases 255 - t
  {
    hide Pow2, Multiple, DoubleAndAdd, Bit, LadderStep, Taken;
    if t == 255 {
      NothingTaken(k, u);
    } else {
      LadderHolds(k, u, t + 1);
      SettledStep(k, u, t, LadderFrom(k, u, t + 1));
      NextBit(k, t);
      RoundMultiplies(u, Taken(k, t + 1), 254 - t, Bit(k, t));
    }
  }

  /** The binary digits of k from digit t up. */
  ghost function Taken(k: nat, t: nat): nat {
    QuotientRange(k, Pow2(t));
    k / Pow2(t)
  }

  lemma NothingTaken(k: nat, u: int)
    requires k < Pow2(255)
    ensures Taken(k, 255) == 0 && Multiple(u, 0, 0) == Point(1, 0) && Multiple(u, 1, 0) == Point(u, 1)
  {
    hide Pow2;
    DivModUnique(k, Pow2(255), 0, k);
  }

  lemma NextBit(k: nat, t: nat)
    ensures Taken(k, t) == 2 * Taken(k, t + 1) + if Bit(k, t) then 1 else 0
  {
    var w := Pow2(t);
    assert Pow2(t + 1) == 2 * w;
    hide Pow2;
    var n := k / w;
    assert k == w * n + k % w;
    HalfOf(k, w, n, k % w);
  }

  lemma HalfOf(k: int, w: int, n: int, r: int)
    requires w > 0 && 0 <= r < w && k == w * n + r
    ensures k / (2 * w) == n / 2
  {
    var q, b := n / 2, n % 2;
    assert w * n == (2 * w) * q + w * b;
    assert 0 <= w * b <= w by { MulBetween(w, b, 0, 1); }
    DivModUnique(k, 2 * w, q, w * b + r);
  }

  /** One round takes the multiples by n and n + 1 to those by 2 n + b and 2 n + b + 1. */
  lemma RoundMultiplies(u: int, n: nat, digits: nat, b: bool)
    ensures var st := PairOf(Multiple(u, n, digits), Multiple(u, n + 1, digits));
            var m := 2 * n + if b then 1 else 0;
            CSwap(b, DoubleAndAdd(u, CSwap(b, st))) == PairOf(Multiple(u, m, digits + 1), Multiple(u, m + 1, digits + 1))
  {
    hide DoubleAndAdd, Double, DifferentialAdd;
    var p, q := Multiple(u, n, digits), Multiple(u, n + 1, digits);
    EvenAndOdd(u, n, digits);
    EvenAndOdd(u, n + 1, digits);
    var st := CSwap(b, PairOf(p, q));
    RoundDoubles(u, st);
    RoundAdds(u, st);
    RoundFlag(u, st);
    AddCommutes(u, p, q);
  }

  lemma RoundFlag(u: int, st: Ladder)
    ensures DoubleAndAdd(u, st).swap == st.swap
  {
  }

  lemma EvenAndOdd(u: int, n: nat, digits: nat)
    ensures Multiple(u, 2 * n, digits + 1) == Double(Multiple(u, n, digits))
    ensures Multiple(u, 2 * n + 1, digits + 1) == DifferentialAdd(u, Multiple(u, n, digits), Multiple(u, n + 1, digits))
  {
    hide Double, DifferentialAdd;
    assert (2 * n + 1) / 2 == n && (2 * n + 1) % 2 == 1;
  }

  lemma AddCommutes(u: int, p: Point, q: Point)
    ensures DifferentialAdd(u, p, q) == DifferentialAdd(u, q, p)
  {
    var d, d' := q.x * p.z - q.z * p.x, p.x * q.z - p.z * q.x;
    assert d' == -d;
    assert d' * d' == d * d;
    assert p.x * q.x - p.z * q.z == q.x * p.x - q.z * p.z;
  }

  /** X25519 is the coordinate x / z of the multiple, the quotient taken as a power of z. */
  lemma LadderMultiplies(k: nat, u: int)
    requires k < Pow2(255)
    ensures var m := Multiple(u, k, 255); X25519(k, u) == FMul(m.x, FPow(m.z, P - 2))
  {
    hide Multiple, LadderFrom, FMul, FPow, X25519, Pow2, Taken;
    LadderHolds(k, u, 0);
    SettledQuotient(k, u);
    AllTaken(k);
  }

  lemma AllTaken(k: nat)
    ensures Taken(k, 0) == k
  {
  }
}
