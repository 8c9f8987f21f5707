/** Decimal text of integers, as `strconv.Itoa`, `strconv.FormatInt` and `%d` print it. */
module Decimal {
  function Digit(d: int): (r: char)
    requires 0 <= d < 10
    ensures IsDigit(r)
  {
    '0' + d as char
  }

  predicate IsDigit(c: char) {
    '0' <= c <= '9'
  }

  function OfNat(n: nat): (r: string)
    ensures r != "" && forall k :: 0 <= k < |r| ==> IsDigit(r[k])
  {
    if n < 10 then [Digit(n)] else OfNat(n / 10) + [Digit(n % 10)]
  }

  function OfInt(n: int): (r: string)
    ensures r != "" && forall k :: 0 <= k < |r| ==> IsDigit(r[k]) || (k == 0 && r[k] == '-')
  {
    if n < 0 then "-" + OfNat(-n) else OfNat(n)
  }

  /** The number a string of digits denotes. */
  function ToNat(s: string): nat
    requires forall k :: 0 <= k < |s| ==> IsDigit(s[k])
  {
    if s == "" then 0
    else
      assert IsDigit(s[|s| - 1]);
      10 * ToNat(s[..|s| - 1]) + (s[|s| - 1] - '0') as int
  }

  lemma {:induction false} NatRoundTrip(n: nat)
    ensures ToNat(OfNat(n)) == n
  {
    if n >= 10 {
      NatRoundTrip(n / 10);
      assert OfNat(n)[..|OfNat(n)| - 1] == OfNat(n / 10);
    }
  }

  lemma NatInjective(m: nat, n: nat)
    requires OfNat(m) == OfNat(n)
    ensures m == n
  {
    NatRoundTrip(m);
    NatRoundTrip(n);
  }

  lemma IntInjective(m: int, n: int)
    requires OfInt(m) == OfInt(n)
    ensures m == n
  {
    SignShown(m);
    SignShown(n);
    if m < 0 {
      assert OfInt(m)[1..] == OfNat(-m) && OfInt(n)[1..] == OfNat(-n);
      NatInjective(-m, -n);
    } else {
      NatInjective(m, n);
    }
  }

  lemma SignShown(n: int)
    ensures n < 0 <==> OfInt(n)[0] == '-'
  {
  }
}
