/** `utf8.Valid` on byte strings, held in strings of characters below 256, and the encoding it recognises: section 3 of
    RFC 3629. */
module Unicode {
  /** `utf8.Valid`: the well-formed byte sequences of the Unicode standard (table 3-7). */
  predicate Utf8(s: string) {
    s == "" ||
    var n := RuneLength(s);
    n > 0 && Utf8(s[n..])
  }

  function RuneLength(s: string): (n: nat)
    ensures n <= |s|
  {
    if s == "" then 0
    else
      var a := s[0] as int;
      if a < 0x80 then 1
      else if 0xC2 <= a <= 0xDF then if Continues(s, 1, 0x80, 0xBF) then 2 else 0
      else if 0xE0 <= a <= 0xEF then
        var lo := if a == 0xE0 then 0xA0 else 0x80;
        var hi := if a == 0xED then 0x9F else 0xBF;
        if Continues(s, 1, lo, hi) && Continues(s, 2, 0x80, 0xBF) then 3 else 0
      else if 0xF0 <= a <= 0xF4 then
        var lo := if a == 0xF0 then 0x90 else 0x80;
        var hi := if a == 0xF4 then 0x8F else 0xBF;
        if Continues(s, 1, lo, hi) && Continues(s, 2, 0x80, 0xBF) && Continues(s, 3, 0x80, 0xBF) then 4 else 0
      else 0
  }

  predicate Continues(s: string, i: nat, lo: int, hi: int) {
    i < |s| && lo <= s[i] as int <= hi
  }

  // ----- The encoding -----

  /** A code point that is no surrogate. */
  predicate IsScalar(r: int) {
    0 <= r < 0xD800 || 0xE000 <= r < 0x110000
  }

  function Encode(r: int): (s: string)
    requires IsScalar(r)
    ensures 1 <= |s| <= 4
  {
    if r < 0x80 then [r as char]
    else if r < 0x800 then [(0xC0 + r / 64) as char, (0x80 + r % 64) as char]
    else if r < 0x10000 then [(0xE0 + r / 4096) as char, (0x80 + r / 64 % 64) as char, (0x80 + r % 64) as char]
    else
      [(0xF0 + r / 262144) as char, (0x80 + r / 4096 % 64) as char, (0x80 + r / 64 % 64) as char, (0x80 + r % 64) as char]
  }

  predicate AreScalars(runes: seq<int>) {
    forall k :: 0 <= k < |runes| ==> IsScalar(runes[k])
  }

  function EncodeAll(runes: seq<int>): string
    requires AreScalars(runes)
  {
    if runes == [] then "" else Encode(runes[0]) + EncodeAll(runes[1..])
  }

  /** What the table lets pass at the start of a text is the encoding of a scalar value. */
  lemma RuneTaken(s: string) returns (r: int)
    requires RuneLength(s) > 0
    ensures IsScalar(r) && s[..RuneLength(s)] == Encode(r)
  {
    var a := s[0] as int;
    if a < 0x80 {
      r := a;
    } else if a <= 0xDF {
      r := (a - 0xC0) * 64 + (s[1] as int - 0x80);
    } else if a <= 0xEF {
      r := ThreeTaken(s);
    } else {
      r := FourTaken(s);
    }
  }

  lemma ThreeTaken(s: string) returns (r: int)
    requires RuneLength(s) == 3
    ensures IsScalar(r) && s[..3] == Encode(r)
  {
    var a, b, c := s[0] as int - 0xE0, s[1] as int - 0x80, s[2] as int - 0x80;
    r := ThreeBytes(a, b, c);
    assert 0x800 <= r < 0x10000 && IsScalar(r);
  }

  lemma FourTaken(s: string) returns (r: int)
    requires RuneLength(s) == 4
    ensures IsScalar(r) && s[..4] == Encode(r)
  {
    var a, b, c, d := s[0] as int - 0xF0, s[1] as int - 0x80, s[2] as int - 0x80, s[3] as int - 0x80;
    r := FourBytes(a, b, c, d);
    assert 0x10000 <= r < 0x110000;
  }

  lemma ThreeBytes(a: int, b: int, c: int) returns (r: int)
    requires 0 <= a < 16 && 0 <= b < 64 && 0 <= c < 64
    ensures r == a * 4096 + b * 64 + c && r / 4096 == a && r / 64 % 64 == b && r % 64 == c
  {
    r := a * 4096 + b * 64 + c;
  }

  lemma FourBytes(a: int, b: int, c: int, d: int) returns (r: int)
    requires 0 <= a < 8 && 0 <= b < 64 && 0 <= c < 64 && 0 <= d < 64
    ensures r == a * 262144 + b * 4096 + c * 64 + d
    ensures r / 262144 == a && r / 4096 % 64 == b && r / 64 % 64 == c && r % 64 == d
  {
    var x := ThreeBytes(a, b, c);
    r := x * 64 + d;
    assert r / 64 == x && r % 64 == d;
    assert r / 4096 == x / 64 && r / 262144 == x / 4096;
  }

  lemma RuneDigits(r: int)
    requires IsScalar(r)
    ensures 0 <= r % 64 < 64 && 0 <= r / 64 % 64 < 64 && 0 <= r / 4096 % 64 < 64
    ensures 0x800 <= r < 0x10000 ==>
              var a, b := r / 4096, r / 64 % 64; 0 <= a < 16 && (a == 0 ==> b >= 32) && (a == 13 ==> b < 32)
    ensures 0x10000 <= r ==>
              var a, b := r / 262144, r / 4096 % 64; 0 <= a < 5 && (a == 0 ==> b >= 16) && (a == 4 ==> b < 16)
  {
  }

  /** The encoding of a scalar value passes, whatever follows it. */
  lemma RunePasses(r: int, t: string)
    requires IsScalar(r)
    ensures RuneLength(Encode(r) + t) == |Encode(r)|
  {
    var e, s := Encode(r), Encode(r) + t;
    RuneDigits(r);
    assert s[0] == e[0] && (|e| > 1 ==> s[1] == e[1]) && (|e| > 2 ==> s[2] == e[2]) && (|e| > 3 ==> s[3] == e[3]);
    if r >= 0x800 {
      BytesPass(r, s, if r < 0x10000 then r / 4096 else r / 262144, if r < 0x10000 then r / 64 % 64 else r / 4096 % 64);
    }
  }

  lemma BytesPass(r: int, s: string, a: int, b: int)
    requires r >= 0x800 && |s| >= 3 && Continues(s, 2, 0x80, 0xBF) && s[1] as int == 0x80 + b && 0 <= b < 64
    requires if r < 0x10000 then s[0] as int == 0xE0 + a && 0 <= a < 16 && (a == 0 ==> b >= 32) && (a == 13 ==> b < 32)
             else s[0] as int == 0xF0 + a && 0 <= a < 5 && (a == 0 ==> b >= 16) && (a == 4 ==> b < 16)
                  && Continues(s, 3, 0x80, 0xBF)
    ensures RuneLength(s) == if r < 0x10000 then 3 else 4
  {
  }

  /** The valid texts are exactly the encodings of sequences of scalar values. */
  lemma Utf8Exactly(s: string)
    ensures Utf8(s) <==> exists runes :: AreScalars(runes) && s == EncodeAll(runes)
  {
    if Utf8(s) {
      var runes := Decoded(s);
    }
    if runes :| AreScalars(runes) && s == EncodeAll(runes) {
      EncodedPasses(runes);
    }
  }

  lemma {:induction false} Decoded(s: string) returns (runes: seq<int>)
    requires Utf8(s)
    ensures AreScalars(runes) && s == EncodeAll(runes)
    decreases |s|
  {
    hide RuneLength, Encode;
    if s == "" {
      runes := [];
    } else {
      var n := RuneLength(s);
      var r := RuneTaken(s);
      var rest := Decoded(s[n..]);
      runes := [r] + rest;
      assert runes[1..] == rest && s == s[..n] + s[n..];
    }
  }

  lemma {:induction false} EncodedPasses(runes: seq<int>)
    requires AreScalars(runes)
    ensures Utf8(EncodeAll(runes))
    decreases |runes|
  {
    hide RuneLength, Encode;
    if runes != [] {
      var t := EncodeAll(runes[1..]);
      EncodedPasses(runes[1..]);
      RunePasses(runes[0], t);
      assert EncodeAll(runes)[|Encode(runes[0])|..] == t;
    }
  }
}
