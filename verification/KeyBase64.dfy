/** `Wireguard.encodeBase64` and `keyToBase64`: base64 without table lookups, over possibly short byte views. */
module KeyBase64 {
  import opened Arith
  import opened JsNumber
  import opened Rfc4648

  /** Table 1 of RFC 4648, as character codes. */
  function Alphabet(d: int): int
    requires 0 <= d < 64
  {
    if d < 26 then 'A' as int + d
    else if d < 52 then 'a' as int + (d - 26)
    else if d < 62 then '0' as int + (d - 52)
    else if d == 62 then '+' as int
    else '/' as int
  }

  const PAD: int := 61

  function Codes(d: seq<int>): (r: seq<int>)
    requires forall k :: 0 <= k < |d| ==> 0 <= d[k] < 64
    ensures |r| == |d| && forall k :: 0 <= k < |d| ==> r[k] == Alphabet(d[k])
  {
    seq(|d|, k requires 0 <= k < |d| => Alphabet(d[k]))
  }

  function Sextets(s: seq<int>): (r: seq<int>)
    ensures forall k :: 0 <= k < |r| ==> 0 <= r[k] < 64
  {
    assert Pow2(6) == 64;
    Groups(OctetBits(s), 6)
  }

  /** Base64 with padding to a multiple of four characters. */
  function Encode(s: seq<int>): seq<int> {
    Codes(Sextets(s)) + seq((3 - |s| % 3) % 3, _ => PAD)
  }

  // ----- One group of three octets -----

  /** Element k of a byte view; past its end the view reads as undefined, which the operators take for zero. */
  function At(src: seq<int>, k: nat): (r: int)
    ensures IsBytes(src) ==> 0 <= r < 256
  {
    if k < |src| then src[k] else 0
  }

  function Triple(a: int, b: int, c: int): (r: seq<int>)
    requires 0 <= a < 256 && 0 <= b < 256 && 0 <= c < 256
    ensures |r| == 4 && forall k :: 0 <= k < 4 ==> 0 <= r[k] < 64
  {
    [a / 4, a % 4 * 16 + b / 16, b % 16 * 4 + c / 64, c % 64]
  }

  lemma InputDigits(a: int, b: int, c: int)
    requires 0 <= a < 256 && 0 <= b < 256 && 0 <= c < 256
    ensures [BitAnd(Shr(a, 2), 63), BitAnd(BitOr(Shl(a, 4), Shr(b, 4)), 63),
             BitAnd(BitOr(Shl(b, 2), Shr(c, 6)), 63), BitAnd(c, 63)] == Triple(a, b, c)
  {
    hide BitAnd, BitOr, Shl, Shr, Pow2, Triple;
    Pow2Values();
    ShiftRight(a, 2);
    Mask63(a / 4);
    SecondDigit(a, b);
    ThirdDigit(b, c);
    Mask63(c);
    SameFour(BitAnd(Shr(a, 2), 63), BitAnd(BitOr(Shl(a, 4), Shr(b, 4)), 63),
             BitAnd(BitOr(Shl(b, 2), Shr(c, 6)), 63), BitAnd(c, 63), a, b, c);
  }

  lemma SecondDigit(a: int, b: int)
    requires 0 <= a < 256 && 0 <= b < 256
    ensures BitAnd(BitOr(Shl(a, 4), Shr(b, 4)), 63) == a % 4 * 16 + b / 16
  {
    hide BitAnd, BitOr, Shl, Shr, Pow2;
    Pow2Values();
    ShiftRight(b, 4);
    JoinDigits(a, b / 16, 4);
    Mask63(16 * a + b / 16);
    LowDigits(a, b / 16, 16, 4);
  }

  lemma ThirdDigit(b: int, c: int)
    requires 0 <= b < 256 && 0 <= c < 256
    ensures BitAnd(BitOr(Shl(b, 2), Shr(c, 6)), 63) == b % 16 * 4 + c / 64
  {
    hide BitAnd, BitOr, Shl, Shr, Pow2;
    Pow2Values();
    ShiftRight(c, 6);
    JoinDigits(b, c / 64, 2);
    Mask63(4 * b + c / 64);
    LowDigits(b, c / 64, 4, 16);
  }

  lemma LowDigits(x: int, y: int, m: int, n: int)
    requires (m == 16 && n == 4) || (m == 4 && n == 16)
    requires 0 <= y < m
    ensures (m * x + y) % 64 == x % n * m + y
  {
    DivModUnique(m * x + y, 64, x / n, x % n * m + y);
  }

  lemma ShiftRight(x: int, k: nat)
    requires 0 <= x < 256 && k < 32
    ensures Shr(x, k) == x / Pow2(k)
  {
  }

  lemma Mask63(x: int)
    requires 0 <= x < 0x1_0000
    ensures BitAnd(x, 63) == x % 64
  {
    hide And;
    Pow2Values();
    AndMask(x, 6);
  }

  lemma JoinDigits(x: int, y: int, k: nat)
    requires 0 <= x < 256 && k <= 4 && 0 <= y < Pow2(k)
    ensures BitOr(Shl(x, k), y) == Pow2(k) * x + y
  {
    hide Or, Pow2;
    PowBound(k);
    ShiftInRange(x, Pow2(k));
    OrDisjoint(x, y, k);
  }

  lemma ShiftInRange(x: int, p: int)
    requires 0 <= x < 256 && 1 <= p <= 16
    ensures 0 <= x * p <= 4080
  {
    assert x * p <= 255 * p;
  }

  lemma PowBound(k: nat)
    requires k <= 4
    ensures Pow2(k) <= 16
  {
    Pow2Values();
    Pow2Add(k, 4 - k);
  }

  /** The branch-free character arithmetic. */
  function CodeOf(x: int): int
    requires 0 <= x < 64
  {
    x + 65 + BitAnd(Shr(25 - x, 8), 6) - BitAnd(Shr(51 - x, 8), 75) - BitAnd(Shr(61 - x, 8), 15)
    + BitAnd(Shr(62 - x, 8), 3)
  }

  lemma CodeIsAlphabet(x: int)
    requires 0 <= x < 64
    ensures CodeOf(x) == Alphabet(x)
  {
    hide BitAnd;
    Select(25 - x, 6);
    Select(51 - x, 75);
    Select(61 - x, 15);
    Select(62 - x, 3);
  }

  /** The sign of a small number selects all bits of a mask or none. */
  lemma Select(x: int, mask: int)
    requires -256 <= x < 256 && 0 <= mask < 256
    ensures BitAnd(Shr(x, 8), mask) == if x < 0 then mask else 0
  {
    Pow2Values();
    assert And(-1, mask) == mask && And(0, mask) == 0;
  }

  /** Writes the four characters of a group at an offset; stores past the end of the array are ignored. */
  method EncodeBase64(dest: array<int>, offset: nat, src: seq<int>)
    requires IsBytes(src)
    modifies dest
    ensures forall k :: 0 <= k < dest.Length ==>
              dest[k] == if offset <= k < offset + 4
                         then Alphabet(Triple(At(src, 0), At(src, 1), At(src, 2))[k - offset])
                         else old(dest[k])
  {
    hide BitAnd, BitOr, Shl, Shr, Alphabet, CodeOf, Triple;
    var a, b, c := At(src, 0), At(src, 1), At(src, 2);
    var input := [BitAnd(Shr(a, 2), 63), BitAnd(BitOr(Shl(a, 4), Shr(b, 4)), 63),
                  BitAnd(BitOr(Shl(b, 2), Shr(c, 6)), 63), BitAnd(c, 63)];
    InputDigits(a, b, c);
    for i := 0 to 4
      invariant forall k :: 0 <= k < dest.Length ==>
                  dest[k] == if offset <= k < offset + i then Alphabet(input[k - offset]) else old(dest[k])
    {
      CodeIsAlphabet(input[i]);
      if offset + i < dest.Length {
        dest[offset + i] := CodeOf(input[i]);
      }
    }
  }

  // ----- The groups of a bit string -----

  lemma OctetHalves(x: int, k: nat)
    requires 0 <= x < 256 && k <= 8
    ensures Number(BitsOf(x, 8)[..k]) == x / Pow2(8 - k) && Number(BitsOf(x, 8)[k..]) == x % Pow2(8 - k)
  {
    hide BitsOf, Number, Pow2;
    var b := BitsOf(x, 8);
    assert b == b[..k] + b[k..];
    NumberConcat(b[..k], b[k..]);
    OctetNumber(x);
    DivModUnique(x, Pow2(8 - k), Number(b[..k]), Number(b[k..]));
  }

  /** Three octets make four sextets. */
  lemma TripleSextets(s: seq<int>)
    requires |s| >= 3 && IsBytes(s)
    ensures Sextets(s) == Triple(s[0], s[1], s[2]) + Sextets(s[3..])
  {
    hide BitsOf, Number, OctetBits, Groups;
    var a, b, c := BitsOf(s[0], 8), BitsOf(s[1], 8), BitsOf(s[2], 8);
    var rest := OctetBits(s[3..]);
    SplitOffOctet(s);
    SplitOffOctet(s[1..]);
    SplitOffOctet(s[2..]);
    assert s[1..][1..] == s[2..] && s[2..][1..] == s[3..];
    assert OctetBits(s) == a[..6] + (a[6..] + b[..4] + (b[4..] + c[..2] + (c[2..] + rest)));
    TakeSextet(a[..6], a[6..] + b[..4] + (b[4..] + c[..2] + (c[2..] + rest)));
    TakeSextet(a[6..] + b[..4], b[4..] + c[..2] + (c[2..] + rest));
    TakeSextet(b[4..] + c[..2], c[2..] + rest);
    TakeSextet(c[2..], rest);
    TripleNumbers(s[0], s[1], s[2]);
  }

  lemma TakeSextet(g: Bits, rest: Bits)
    requires |g| == 6
    ensures Groups(g + rest, 6) == [Number(g)] + Groups(rest, 6)
  {
    hide Number;
    assert (g + rest)[..6] == g && (g + rest)[6..] == rest;
  }

  lemma TripleNumbers(a: int, b: int, c: int)
    requires 0 <= a < 256 && 0 <= b < 256 && 0 <= c < 256
    ensures var x, y, z := BitsOf(a, 8), BitsOf(b, 8), BitsOf(c, 8);
            [Number(x[..6]), Number(x[6..] + y[..4]), Number(y[4..] + z[..2]), Number(z[2..])] == Triple(a, b, c)
  {
    hide BitsOf, Number, Pow2, Triple;
    Pow2Values();
    var x, y, z := BitsOf(a, 8), BitsOf(b, 8), BitsOf(c, 8);
    OctetHalves(a, 6);
    OctetHalves(c, 2);
    JoinedHalves(a, 6, b, 4);
    JoinedHalves(b, 4, c, 2);
    SameFour(Number(x[..6]), Number(x[6..] + y[..4]), Number(y[4..] + z[..2]), Number(z[2..]), a, b, c);
  }

  /** The end of one octet and the start of the next as one number. */
  lemma JoinedHalves(a: int, k: nat, b: int, l: nat)
    requires 0 <= a < 256 && 0 <= b < 256 && k <= 8 && l <= 8
    ensures Number(BitsOf(a, 8)[k..] + BitsOf(b, 8)[..l]) == a % Pow2(8 - k) * Pow2(l) + b / Pow2(8 - l)
  {
    hide BitsOf, Number, Pow2;
    OctetHalves(a, k);
    OctetHalves(b, l);
    NumberConcat(BitsOf(a, 8)[k..], BitsOf(b, 8)[..l]);
  }

  lemma SameFour(p: int, q: int, r: int, s: int, a: int, b: int, c: int)
    requires 0 <= a < 256 && 0 <= b < 256 && 0 <= c < 256
    requires p == a / 4 && q == a % 4 * 16 + b / 16 && r == b % 16 * 4 + c / 64 && s == c % 64
    ensures [p, q, r, s] == Triple(a, b, c)
  {
  }

  /** Two octets make three sextets, the last one holding four bits. */
  lemma PairSextets(s: seq<int>)
    requires |s| == 2 && IsBytes(s)
    ensures Sextets(s) == Triple(s[0], s[1], 0)[..3]
  {
    hide BitsOf, Number, OctetBits, Groups;
    var a, b := BitsOf(s[0], 8), BitsOf(s[1], 8);
    SplitOffOctet(s);
    SplitOffOctet(s[1..]);
    assert OctetBits(s[1..][1..]) == [] by { assert |OctetBits(s[1..][1..])| == 0; }
    assert OctetBits(s) == a[..6] + (a[6..] + b[..4] + b[4..]);
    TakeSextet(a[..6], a[6..] + b[..4] + b[4..]);
    TakeSextet(a[6..] + b[..4], b[4..]);
    LastSextet(b[4..]);
    TripleNumbers(s[0], s[1], 0);
    OctetHalves(s[1], 4);
    Pow2Values();
  }

  lemma LastSextet(g: Bits)
    requires |g| == 4
    ensures Groups(g, 6) == [Number(g) * 4]
  {
    hide Number;
    Pow2Values();
  }

  // ----- Keys -----

  /** The first 33 bytes of a key, zero where it is shorter. */
  function Padded(key: seq<int>): (r: seq<int>)
    ensures |r| == 33 && (IsBytes(key) ==> IsBytes(r))
    ensures forall k :: 0 <= k < 33 ==> r[k] == At(key, k)
  {
    seq(33, k requires 0 <= k < 33 => At(key, k))
  }

  /** Forty-three characters of the first 33 bytes and one padding character, whatever the length of the key. */
  method KeyToBase64(key: seq<int>) returns (base64: array<int>)
    requires IsBytes(key)
    ensures base64.Length == 44 && |Sextets(Padded(key))| == 44
    ensures base64[..] == Codes(Sextets(Padded(key)))[..43] + [PAD]
  {
    hide Sextets, Alphabet, Triple, At, IsBytes, Padded, Codes, Encoded;
    base64 := new int[44](_ => 0);
    ghost var p, digits: seq<int> := Padded(key), [];
    assert p[0..] == p && [] + Sextets(p) == Sextets(p);
    NothingEncoded(base64[..]);
    var i := 0;
    while 3 * i < 32
      invariant 0 <= i <= 11 && |digits| == 4 * i
      invariant Sextets(p) == digits + Sextets(p[3 * i..])
      invariant Encoded(base64[..], digits)
    {
      ghost var before := base64[..];
      var src := if 3 * i < |key| then key[3 * i..] else [];
      ghost var t := KeyGroup(key, i, src);
      EncodeBase64(base64, i * 4, src);
      EncodedMore(before, base64[..], digits, t);
      Regroup(digits, t, Sextets(p[3 * (i + 1)..]));
      digits := digits + t;
      i := i + 1;
    }
    assert i == 11 && p[33..] == [] && digits + [] == digits;
    NoSextets();
    AtIsByte(key, i * 3);
    ghost var codes := base64[..];
    EncodeBase64(base64, i * 4, [At(key, i * 3), At(key, i * 3 + 1), 0]);
    assert base64[..] == codes;
    base64[43] := PAD;
    assert base64[..] == codes[43 := PAD];
    CodesPadded(codes, digits);
  }

  /** The first characters are those of the digits. */
  ghost predicate Encoded(codes: seq<int>, d: seq<int>) {
    |d| <= |codes| && forall k :: 0 <= k < |d| ==> 0 <= d[k] < 64 && codes[k] == Alphabet(d[k])
  }

  lemma NothingEncoded(codes: seq<int>)
    ensures Encoded(codes, [])
  {
  }

  lemma EncodedMore(before: seq<int>, after: seq<int>, d: seq<int>, t: seq<int>)
    requires Encoded(before, d) && |after| == |before| && |t| == 4 && |d| + 4 <= |after|
    requires forall k :: 0 <= k < 4 ==> 0 <= t[k] < 64
    requires forall k :: 0 <= k < |after| ==> after[k] == if |d| <= k < |d| + 4 then Alphabet(t[k - |d|]) else before[k]
    ensures Encoded(after, d + t)
  {
    hide Alphabet;
  }

  lemma Regroup(a: seq<int>, b: seq<int>, c: seq<int>)
    ensures a + (b + c) == a + b + c
  {
  }

  lemma CodesPadded(codes: seq<int>, d: seq<int>)
    requires |codes| == |d| == 44 && Encoded(codes, d)
    ensures codes[43 := PAD] == Codes(d)[..43] + [PAD]
  {
    hide Alphabet;
  }

  /** The next group of a key, missing octets being zero, contributes its four sextets. */
  lemma KeyGroup(key: seq<int>, i: nat, src: seq<int>) returns (t: seq<int>)
    requires i <= 10 && IsBytes(key) && src == if 3 * i < |key| then key[3 * i..] else []
    ensures IsBytes(src) && t == Triple(At(src, 0), At(src, 1), At(src, 2))
    ensures |t| == 4 && forall k :: 0 <= k < 4 ==> 0 <= t[k] < 64
    ensures Sextets(Padded(key)[3 * i..]) == t + Sextets(Padded(key)[3 * (i + 1)..])
  {
    hide Sextets, Triple;
    var p := Padded(key);
    t := Triple(p[3 * i], p[3 * i + 1], p[3 * i + 2]);
    TripleSextets(p[3 * i..]);
    assert p[3 * i..][3..] == p[3 * (i + 1)..];
  }

  lemma AtIsByte(key: seq<int>, k: nat)
    requires IsBytes(key)
    ensures IsBytes([At(key, k), At(key, k + 1), 0])
  {
  }

  lemma NoSextets()
    ensures Sextets([]) == []
  {
  }

  /** For a 32-byte key that is its base64 encoding, final short group included. */
  lemma KeyEncoding(key: seq<int>)
    requires |key| == 32 && IsBytes(key)
    ensures |Sextets(Padded(key))| == 44
    ensures Codes(Sextets(Padded(key)))[..43] + [PAD] == Encode(key)
  {
    hide Sextets, Alphabet, Triple;
    assert Padded(key) == key + [0];
    assert key[0..] == key && Padded(key)[0..] == Padded(key);
    TailEncoding(key, Padded(key), 0);
  }

  lemma {:induction false} TailEncoding(key: seq<int>, p: seq<int>, i: nat)
    requires |key| == 32 && IsBytes(key) && p == key + [0] && i <= 10
    ensures |Sextets(p[3 * i..])| == 44 - 4 * i
    ensures Sextets(p[3 * i..])[..43 - 4 * i] == Sextets(key[3 * i..])
    decreases 10 - i
  {
    hide Sextets, Triple;
    TripleSextets(p[3 * i..]);
    assert p[3 * i..][3..] == p[3 * (i + 1)..];
    if i < 10 {
      TailEncoding(key, p, i + 1);
      TripleSextets(key[3 * i..]);
      assert key[3 * i..][3..] == key[3 * (i + 1)..];
    } else {
      PairSextets(key[30..]);
      assert p[33..] == [];
      NoSextets();
    }
  }

  // ----- Decoding -----

  /** The digit a character code stands for. */
  function DigitOf(c: int): int {
    if 'A' as int <= c <= 'Z' as int then c - 'A' as int
    else if 'a' as int <= c <= 'z' as int then c - 'a' as int + 26
    else if '0' as int <= c <= '9' as int then c - '0' as int + 52
    else if c == '+' as int then 62
    else 63
  }

  function DigitsOf(t: seq<int>): (r: seq<int>)
    ensures |r| == |t| && forall k :: 0 <= k < |t| ==> r[k] == DigitOf(t[k])
  {
    seq(|t|, k requires 0 <= k < |t| => DigitOf(t[k]))
  }

  function Unpadded(t: seq<int>): seq<int> {
    if t != [] && t[|t| - 1] == PAD then Unpadded(t[..|t| - 1]) else t
  }

  function Decode(t: seq<int>): seq<int> {
    Octets(DigitBits(DigitsOf(Unpadded(t)), 6))
  }

  lemma DigitOfAlphabet(d: int)
    requires 0 <= d < 64
    ensures DigitOf(Alphabet(d)) == d && Alphabet(d) != PAD
  {
  }

  lemma {:induction false} PaddingDropped(t: seq<int>, pads: seq<int>)
    requires (t == [] || t[|t| - 1] != PAD) && forall k :: 0 <= k < |pads| ==> pads[k] == PAD
    ensures Unpadded(t + pads) == t
    decreases |pads|
  {
    if pads == [] {
      assert t + pads == t;
    } else {
      assert (t + pads)[..|t + pads| - 1] == t + pads[..|pads| - 1];
      PaddingDropped(t, pads[..|pads| - 1]);
    }
  }

  /** The encoding of any octets, keys among them, decodes to the octets. */
  lemma KeyRoundTrip(key: seq<int>)
    requires IsBytes(key)
    ensures Decode(Encode(key)) == key
  {
    hide Alphabet, DigitOf, Sextets, Octets, DigitBits, Unpadded;
    var d := Sextets(key);
    var t, pads := Codes(d), seq((3 - |key| % 3) % 3, _ => PAD);
    forall k | 0 <= k < |d| ensures DigitOf(t[k]) == d[k] && t[k] != PAD {
      DigitOfAlphabet(d[k]);
    }
    PaddingDropped(t, pads);
    assert DigitsOf(t) == d;
    SextetsDecode(key);
  }

  lemma SextetsDecode(key: seq<int>)
    requires IsBytes(key)
    ensures Octets(DigitBits(Sextets(key), 6)) == key
  {
    DecodeEncode(key, 6);
  }

  /** Three test vectors of section 10 of RFC 4648: "f", "fo" and "foo". */
  lemma TestVectors()
    ensures Encode([0x66]) == ['Z' as int, 'g' as int, '=' as int, '=' as int]
    ensures Encode([0x66, 0x6f]) == ['Z' as int, 'm' as int, '8' as int, '=' as int]
    ensures Encode([0x66, 0x6f, 0x6f]) == ['Z' as int, 'm' as int, '9' as int, 'v' as int]
  {
    hide Sextets;
    OneSextet();
    PairSextets([0x66, 0x6f]);
    TripleSextets([0x66, 0x6f, 0x6f]);
    assert [0x66, 0x6f, 0x6f][3..] == [];
    NoSextets();
    assert Triple(0x66, 0x6f, 0)[..3] == [25, 38, 60];
    assert Triple(0x66, 0x6f, 0x6f) + [] == [25, 38, 61, 47];
    Pads();
  }

  lemma Pads()
    ensures seq(0, _ => PAD) == [] && seq(1, _ => PAD) == ['=' as int] && seq(2, _ => PAD) == ['=' as int, '=' as int]
  {
  }

  lemma OneSextet()
    ensures Sextets([0x66]) == [25, 32]
  {
    hide Number, OctetBits, Groups;
    var g := BitsOf(0x66, 8);
    assert OctetBits([0x66]) == g by { OneOctet(0x66); }
    assert g == g[..6] + g[6..];
    TakeSextet(g[..6], g[6..]);
    TwoBits(g[6..]);
    OctetHalves(0x66, 6);
    Pow2Values();
  }

  lemma OneOctet(x: int)
    ensures OctetBits([x]) == BitsOf(x, 8)
  {
    assert [x][..0] == [];
  }

  lemma TwoBits(g: Bits)
    requires |g| == 2
    ensures Groups(g, 6) == [Number(g) * 16]
  {
    hide Number;
    Pow2Values();
  }
}
