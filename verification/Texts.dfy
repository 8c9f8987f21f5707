/** Facts about texts that several components use. */
module Texts {
  /** A hexadecimal digit in lower case. */
  function HexDigit(n: int): char
    requires 0 <= n < 16
  {
    if n < 10 then '0' + n as char else 'a' + (n - 10) as char
  }

  lemma SameTail(p: string, r: string, r': string)
    requires p + r == p + r'
    ensures r == r'
  {
    assert r == (p + r)[|p|..] && r' == (p + r')[|p|..];
  }

  lemma Reassociate(p: string, q: string, r: string)
    ensures p + q + r == p + (q + r)
  {
  }
}
