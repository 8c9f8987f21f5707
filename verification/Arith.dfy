/** Integer arithmetic shared by the numeric modules: powers, quotients and congruences. */
module Arith {
  /** A sequence of octets. */
  predicate IsBytes(s: seq<int>) {
    forall k :: 0 <= k < |s| ==> 0 <= s[k] < 256
  }

  function Pow2(n: nat): (r: nat)
    ensures r > 0
  {
    if n == 0 then 1 else 2 * Pow2(n - 1)
  }

  function Pow(x: int, n: nat): int {
    if n == 0 then 1 else x * Pow(x, n - 1)
  }

  lemma Pow2Add(m: nat, n: nat)
    ensures Pow2(m + n) == Pow2(m) * Pow2(n)
  {
    if m > 0 {
      Pow2Add(m - 1, n);
      assert Pow2(m + n) == 2 * Pow2(m - 1 + n);
    }
  }

  lemma ModSplit(x: int, m: nat)
    requires m > 0
    ensures x % (2 * m) == 2 * ((x / 2) % m) + x % 2
    ensures x / (2 * m) == (x / 2) / m
  {
    var h := x / 2;
    assert x == 2 * (m * (h / m) + h % m) + x % 2;
    assert x == (2 * m) * (h / m) + (2 * (h % m) + x % 2);
    DivModUnique(x, 2 * m, h / m, 2 * (h % m) + x % 2);
  }

  lemma DivModUnique(x: int, d: int, q: int, r: int)
    requires d > 0 && 0 <= r < d && x == d * q + r
    ensures x / d == q && x % d == r
  {
    var q', r' := x / d, x % d;
    assert d * (q - q') == r' - r;
    MultipleApart(d, q - q');
  }

  lemma MultipleApart(d: int, k: int)
    requires d > 0
    ensures k >= 1 ==> d * k >= d
    ensures k <= -1 ==> d * k <= -d
  {
  }

  lemma AddMultiple(x: int, k: int, m: int)
    requires m > 0
    ensures (x + m * k) % m == x % m
  {
    assert x + m * k == m * (x / m + k) + x % m;
    DivModUnique(x + m * k, m, x / m + k, x % m);
  }

  lemma ModAdd(x: int, y: int, m: int)
    requires m > 0
    ensures (x % m + y % m) % m == (x + y) % m
  {
    assert x + y == (x % m + y % m) + m * (x / m + y / m);
    AddMultiple(x % m + y % m, x / m + y / m, m);
  }

  lemma ModSub(x: int, y: int, m: int)
    requires m > 0
    ensures (x % m - y % m) % m == (x - y) % m
  {
    assert x - y == (x % m - y % m) + m * (x / m - y / m);
    AddMultiple(x % m - y % m, x / m - y / m, m);
  }

  lemma ModMul(x: int, y: int, m: int)
    requires m > 0
    ensures ((x % m) * (y % m)) % m == (x * y) % m
  {
    var qx, rx, qy, ry := x / m, x % m, y / m, y % m;
    assert x * y == (m * qx + rx) * (m * qy + ry);
    assert (m * qx + rx) * (m * qy + ry) == rx * ry + m * (qx * (m * qy + ry) + rx * qy);
    AddMultiple(rx * ry, qx * (m * qy + ry) + rx * qy, m);
  }

  lemma {:induction false} PowAdd(x: int, m: nat, n: nat)
    ensures Pow(x, m + n) == Pow(x, m) * Pow(x, n)
  {
    if m > 0 {
      PowAdd(x, m - 1, n);
      assert Pow(x, m + n) == x * Pow(x, m - 1 + n);
      assert x * (Pow(x, m - 1) * Pow(x, n)) == (x * Pow(x, m - 1)) * Pow(x, n);
    }
  }

  lemma QuotientRange(x: nat, d: int)
    requires d > 0
    ensures 0 <= x / d <= x
  {
    var q, r := x / d, x % d;
    assert x == d * q + r;
    QuotientBound(q, d, r);
  }

  lemma QuotientBound(q: int, d: int, r: int)
    requires 0 <= r < d && d * q + r >= 0
    ensures 0 <= q <= d * q + r
  {
    assert q < 0 ==> d * (-1 - q) >= 0;
    assert d * (-1 - q) == -d - d * q;
    assert q >= 0 ==> (d - 1) * q >= 0;
    assert (d - 1) * q == d * q - q;
  }

  lemma MulAssociates(x: int, y: int, z: int)
    ensures x * (y * z) == (x * y) * z
  {
  }

  lemma MulBetween(w: int, x: int, lo: int, hi: int)
    requires w >= 0 && lo <= x <= hi
    ensures w * lo <= w * x <= w * hi
  {
  }
}
