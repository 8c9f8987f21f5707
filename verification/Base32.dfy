/** `RandomUtil.randomBase32String` on the bytes it draws: a shift register that is never masked. */
module Base32 {
  import opened Arith
  import opened JsNumber
  import opened Rfc4648

  const BASE32_CHARS: string := "ABCDEFGHIJKLMNOPQRSTUVWXYZ234567"

  function CharOf(d: int): char {
    if 0 <= d < 32 then BASE32_CHARS[d] else '='
  }

  function Text(d: seq<int>): (r: string)
    ensures |r| == |d| && forall k :: 0 <= k < |d| ==> r[k] == CharOf(d[k])
  {
    seq(|d|, k requires 0 <= k < |d| => CharOf(d[k]))
  }

  function DigitOf(c: char): int {
    if 'A' <= c <= 'Z' then c as int - 'A' as int
    else if '2' <= c <= '7' then c as int - '2' as int + 26
    else 0
  }

  function DigitsOf(t: string): (r: seq<int>)
    ensures |r| == |t| && forall k :: 0 <= k < |t| ==> r[k] == DigitOf(t[k])
  {
    seq(|t|, k requires 0 <= k < |t| => DigitOf(t[k]))
  }

  /** Unpadded base32 of an octet string. */
  function Encode(s: seq<int>): string {
    Text(Groups(OctetBits(s), 5))
  }

  function Decode(t: string): seq<int> {
    Octets(DigitBits(DigitsOf(t), 5))
  }

  lemma RoundTrip(s: seq<int>)
    requires IsBytes(s)
    ensures Decode(Encode(s)) == s
  {
    hide Groups, OctetBits, Octets, DigitBits, DigitOf, CharOf;
    var d := Groups(OctetBits(s), 5);
    assert Pow2(5) == 32;
    forall k | 0 <= k < |d| ensures DigitOf(CharOf(d[k])) == d[k] {
      DigitOfChar(d[k]);
    }
    assert DigitsOf(Text(d)) == d;
    DecodeEncode(s, 5);
  }

  lemma DigitOfChar(d: int)
    requires 0 <= d < 32
    ensures DigitOf(CharOf(d)) == d
  {
  }

  /** The register agrees with the bits not yet emitted on its low bits; higher bits are whatever was shifted out. */
  ghost predicate Holds(buffer: int, bits: nat, pending: Bits) {
    IsInt32(buffer) && |pending| == bits && Number(pending) == buffer % Pow2(bits)
  }

  method Base32String(bytes: array<int>) returns (result: string)
    requires IsBytes(bytes[..])
    ensures result == Encode(bytes[..])
  {
    hide BitsOf, Number, OctetBits, BitAnd, BitOr, Shl, UShr, Pow2, Groups, Text, Holds;
    ghost var s := bytes[..];
    ghost var digits: seq<int>, pending: Bits := [], [];
    result := "";
    var bits: nat := 0;
    var buffer := 0;
    assert s[0..] == s;
    assert [] + OctetBits(s) == OctetBits(s);
    EmptyHolds();
    assert Text([]) == "" by { TextAppend([], 0); }
    for i := 0 to bytes.Length
      invariant bits < 5 && Holds(buffer, bits, pending)
      invariant Groups(OctetBits(s), 5) == digits + Groups(pending + OctetBits(s[i..]), 5)
      invariant result == Text(digits)
    {
      ghost var rest := OctetBits(s[i + 1..]);
      ShiftIn(buffer, bits, pending, bytes[i]);
      NextOctet(s, i, pending);
      buffer := BitOr(Shl(buffer, 8), bytes[i]);
      bits := bits + 8;
      pending := pending + BitsOf(s[i], 8);
      while bits >= 5
        invariant bits < 13 && Holds(buffer, bits, pending)
        invariant Groups(OctetBits(s), 5) == digits + Groups(pending + rest, 5)
        invariant result == Text(digits)
      {
        TakeDigit(buffer, bits, pending);
        TakeGroup(pending, rest);
        bits := bits - 5;
        var digit := BitAnd(UShr(buffer, bits), 0x1F);
        TextAppend(digits, digit);
        result := result + [BASE32_CHARS[digit]];
        digits := digits + [digit];
        pending := pending[5..];
      }
    }
    assert s[bytes.Length..] == [];
    LastDigit(buffer, bits, pending);
    assert pending + OctetBits([]) == pending by { assert OctetBits([]) == []; }
    if bits > 0 {
      TextAppend(digits, BitAnd(Shl(buffer, 5 - bits), 0x1F));
      result := result + [BASE32_CHARS[BitAnd(Shl(buffer, 5 - bits), 0x1F)]];
    }
  }

  lemma TextAppend(d: seq<int>, x: int)
    requires 0 <= x < 32
    ensures Text(d + [x]) == Text(d) + [BASE32_CHARS[x]]
  {
  }

  lemma EmptyHolds()
    ensures Holds(0, 0, [])
  {
  }

  lemma NextOctet(s: seq<int>, i: nat, pending: Bits)
    requires i < |s|
    ensures pending + OctetBits(s[i..]) == pending + BitsOf(s[i], 8) + OctetBits(s[i + 1..])
  {
    hide BitsOf, OctetBits;
    SplitOffOctet(s[i..]);
    assert s[i..][1..] == s[i + 1..];
  }

  lemma TakeGroup(pending: Bits, rest: Bits)
    requires |pending| >= 5
    ensures Groups(pending + rest, 5) == [Number(pending[..5])] + Groups(pending[5..] + rest, 5)
  {
    hide Number;
    assert (pending + rest)[..5] == pending[..5];
    assert (pending + rest)[5..] == pending[5..] + rest;
  }

  // ----- The register -----

  /** Numbers that agree modulo 2^32 agree modulo any smaller power of two. */
  lemma LowBitsAgree(x: int, y: int, n: nat)
    requires (x - y) % TWO_32 == 0 && n <= 32
    ensures x % Pow2(n) == y % Pow2(n)
  {
    var k := (x - y) / TWO_32;
    Pow2Values();
    Pow2Add(n, 32 - n);
    MultipleOfFactor(x, y, k, Pow2(n), Pow2(32 - n));
  }

  lemma MultipleOfFactor(x: int, y: int, k: int, m: int, m': int)
    requires m > 0 && x - y == k * (m * m')
    ensures x % m == y % m
  {
    assert k * (m * m') == m * (k * m');
    AddMultiple(y, k * m', m);
  }

  /** Shifting an octet in appends its bits, although the sum wraps at 32 bits. */
  lemma ShiftIn(buffer: int, bits: nat, pending: Bits, x: int)
    requires bits < 5 && Holds(buffer, bits, pending) && 0 <= x < 256
    ensures Holds(BitOr(Shl(buffer, 8), x), bits + 8, pending + BitsOf(x, 8))
  {
    hide Number, BitsOf, BitOr, Shl;
    ShiftedOr(buffer, x);
    var b := BitOr(Shl(buffer, 8), x);
    LowBitsAgree(b, 256 * buffer + x, bits + 8);
    Pow2Add(bits, 8);
    Pow2Values();
    ScaledRemainder(buffer, x, 256, Pow2(bits));
    NumberConcat(pending, BitsOf(x, 8));
    OctetNumber(x);
  }

  lemma ShiftedOr(buffer: int, x: int)
    requires IsInt32(buffer) && 0 <= x < 256
    ensures IsInt32(BitOr(Shl(buffer, 8), x))
    ensures (BitOr(Shl(buffer, 8), x) - (256 * buffer + x)) % TWO_32 == 0
  {
    hide Or, Pow2;
    Pow2Values();
    var y := ToInt32(buffer * 256);
    var k := Wrapped(buffer, y);
    OrDisjoint(k, x, 8);
    SumInRange(k, x);
  }

  lemma Wrapped(buffer: int, y: int) returns (k: int)
    requires (buffer * 256 - y) % TWO_32 == 0
    ensures y == k * 256
  {
    k := buffer - 0x100_0000 * ((buffer * 256 - y) / TWO_32);
  }

  /** An octet below a multiple of 256 never carries out of 32 bits. */
  lemma SumInRange(k: int, x: int)
    requires IsInt32(k * 256) && 0 <= x < 256
    ensures IsInt32(k * 256 + x)
  {
  }

  lemma ScaledRemainder(x: int, y: int, c: int, m: int)
    requires 0 <= y < c && m > 0
    ensures (c * x + y) % (m * c) == (x % m) * c + y
  {
    var q, r := x / m, x % m;
    assert c * x == (m * c) * q + r * c;
    RemainderFits(r, m, c);
    DivModUnique(c * x + y, m * c, q, r * c + y);
  }

  lemma RemainderFits(r: nat, m: nat, c: nat)
    requires r < m && 0 < c
    ensures 0 <= r * c && r * c + c <= m * c
  {
    assert m * c == r * c + c + (m - 1 - r) * c;
    assert (m - 1 - r) * c >= 0;
  }

  /** The five bits above the kept ones are the next group; what is kept stays right. */
  lemma TakeDigit(buffer: int, bits: nat, pending: Bits)
    requires 5 <= bits < 13 && Holds(buffer, bits, pending)
    ensures BitAnd(UShr(buffer, bits - 5), 0x1F) == Number(pending[..5])
    ensures 0 <= Number(pending[..5]) < 32
    ensures |pending| == bits && Holds(buffer, bits - 5, pending[5..])
  {
    hide Number, BitAnd;
    var n := bits - 5;
    var hi, lo := Number(pending[..5]), Number(pending[5..]);
    assert pending == pending[..5] + pending[5..];
    NumberConcat(pending[..5], pending[5..]);
    Pow2Add(n, 5);
    Pow2Values();
    SplitRegister(buffer, Pow2(n), hi, lo);
    WindowDigit(buffer, n, hi);
  }

  lemma SplitRegister(x: int, m: int, hi: int, lo: int)
    requires m > 0 && 0 <= lo < m && 0 <= hi < 32 && x % (m * 32) == hi * m + lo
    ensures x % m == lo && (x / m) % 32 == hi
  {
    var q := x / (m * 32);
    assert x == (m * 32) * q + hi * m + lo;
    assert x == m * (32 * q + hi) + lo;
    DivModUnique(x, m, 32 * q + hi, lo);
    AddMultiple(hi, q, 32);
  }

  lemma WindowDigit(buffer: int, n: nat, hi: int)
    requires n < 8 && IsInt32(buffer) && (buffer / Pow2(n)) % 32 == hi
    ensures BitAnd(UShr(buffer, n), 0x1F) == hi
  {
    hide BitAnd;
    WindowUnsigned(buffer, n, Pow2(n));
    MaskDigit(UShr(buffer, n));
  }

  /** Masking with 31 is the remainder by 32 of any integer, converted to 32 bits or not. */
  lemma MaskDigit(x: int)
    ensures BitAnd(x, 0x1F) == x % 32
  {
    hide And;
    Pow2Values();
    AndMask(ToInt32(x), 5);
    LowBitsAgree(x, ToInt32(x), 5);
  }

  lemma WindowUnsigned(buffer: int, n: nat, p: int)
    requires n < 8 && IsInt32(buffer) && p == Pow2(n)
    ensures (ToUint32(buffer) / p) % 32 == (buffer / p) % 32
  {
    hide Pow2;
    FactorsOfTwo32(n);
    WindowWraps(buffer, p, Pow2(27 - n), if buffer < 0 then 1 else 0);
  }

  lemma FactorsOfTwo32(n: nat)
    requires n <= 27
    ensures Pow2(n) * (Pow2(27 - n) * 32) == TWO_32
  {
    Pow2Values();
    Pow2Add(n, 32 - n);
    Pow2Add(27 - n, 5);
  }

  lemma WindowWraps(x: int, p: int, m: int, k: int)
    requires p > 0
    ensures ((x + (p * (m * 32)) * k) / p) % 32 == (x / p) % 32
  {
    assert (p * (m * 32)) * k == p * (32 * (m * k));
    DivModUnique(x + p * (32 * (m * k)), p, x / p + 32 * (m * k), x % p);
    AddMultiple(x / p, m * k, 32);
  }

  /** The bits left at the end fill the last digit from the left. */
  lemma LastDigit(buffer: int, bits: nat, pending: Bits)
    requires bits < 5 && Holds(buffer, bits, pending)
    ensures bits == 0 ==> Groups(pending, 5) == []
    ensures bits > 0 ==> Groups(pending, 5) == [BitAnd(Shl(buffer, 5 - bits), 0x1F)]
    ensures bits > 0 ==> 0 <= BitAnd(Shl(buffer, 5 - bits), 0x1F) < 32
  {
    hide Number, BitAnd, Shl, Pow2;
    if bits > 0 {
      LastGroupRange(pending, 5);
      LastDigitValue(buffer, bits, Pow2(bits), Pow2(5 - bits));
      Pow2Values();
    }
  }

  lemma LastDigitValue(buffer: int, bits: nat, m: int, c: int)
    requires 0 < bits < 5 && IsInt32(buffer) && m == Pow2(bits) && c == Pow2(5 - bits)
    ensures BitAnd(Shl(buffer, 5 - bits), 0x1F) == (buffer % m) * c
  {
    hide BitAnd, Pow2;
    Pow2Values();
    MaskDigit(Shl(buffer, 5 - bits));
    LowBitsAgree(buffer * c, Shl(buffer, 5 - bits), 5);
    Pow2Add(bits, 5 - bits);
    ScaledRemainder(buffer, 0, c, m);
  }

  /** The first two test vectors of section 10 of RFC 4648. */
  lemma TestVectors()
    ensures Encode([0x66]) == "MY" && Encode([0x66, 0x6f]) == "MZXQ"
  {
    hide Groups, OctetBits, CharOf;
    VectorBits();
    var f: Bits := [false, true, true, false, false, true, true, false];
    var o: Bits := [false, true, true, false, true, true, true, true];
    FiveBits(f[..5], 12, f[5..]);
    assert f == f[..5] + f[5..];
    LastBits(f[5..], 6, 4);
    assert f + o == f[..5] + (f[5..] + o);
    FiveBits(f[..5], 12, f[5..] + o);
    assert f[5..] + o == (f[5..] + o[..2]) + o[2..];
    FiveBits(f[5..] + o[..2], 25, o[2..]);
    assert o[2..] == o[2..7] + o[7..];
    FiveBits(o[2..7], 23, o[7..]);
    LastBits(o[7..], 1, 16);
    Letters();
  }

  lemma VectorBits()
    ensures OctetBits([0x66]) == [false, true, true, false, false, true, true, false]
    ensures OctetBits([0x66, 0x6f])
            == [false, true, true, false, false, true, true, false] + [false, true, true, false, true, true, true, true]
  {
    OctetF();
    OctetO();
    hide BitsOf;
    var s := [0x66, 0x6f];
    assert [0x66][..0] == [] && s[..1] == [0x66];
    assert OctetBits([0x66]) == [] + BitsOf(0x66, 8);
    assert OctetBits(s) == OctetBits(s[..1]) + BitsOf(0x6f, 8);
  }

  lemma OctetF()
    ensures BitsOf(0x66, 8) == [false, true, true, false, false, true, true, false]
  {
  }

  lemma OctetO()
    ensures BitsOf(0x6f, 8) == [false, true, true, false, true, true, true, true]
  {
  }

  lemma FiveBits(g: Bits, n: nat, rest: Bits)
    requires |g| == 5
    requires n == (if g[0] then 16 else 0) + (if g[1] then 8 else 0) + (if g[2] then 4 else 0) + (if g[3] then 2 else 0)
                  + if g[4] then 1 else 0
    ensures Groups(g + rest, 5) == [n] + Groups(rest, 5)
  {
    hide Number, Groups;
    TakeGroup(g, rest);
    assert g[..5] == g && g[5..] + rest == rest;
    NumberStep(g, 0);
    NumberStep(g, 1);
    NumberStep(g, 2);
    NumberStep(g, 3);
    NumberStep(g, 4);
  }

  lemma NumberStep(g: Bits, k: nat)
    requires k < |g|
    ensures Number(g[..k + 1]) == 2 * Number(g[..k]) + if g[k] then 1 else 0
    ensures k == 0 ==> Number(g[..k]) == 0
  {
    assert g[..k + 1][..k] == g[..k];
  }

  lemma LastBits(g: Bits, n: nat, w: nat)
    requires (|g| == 3 && n == (if g[0] then 4 else 0) + (if g[1] then 2 else 0) + (if g[2] then 1 else 0) && w == 4)
             || (|g| == 1 && n == (if g[0] then 1 else 0) && w == 16)
    ensures Groups(g, 5) == [n * w]
  {
    assert Pow2(2) == 4 && Pow2(4) == 16;
    hide Number;
    NumberStep(g, 0);
    if |g| == 3 {
      NumberStep(g, 1);
      NumberStep(g, 2);
      assert g[..3] == g;
    } else {
      assert g[..1] == g;
    }
  }

  lemma Letters()
    ensures CharOf(12) == 'M' && CharOf(24) == 'Y' && CharOf(25) == 'Z' && CharOf(23) == 'X' && CharOf(16) == 'Q'
  {
  }
}
