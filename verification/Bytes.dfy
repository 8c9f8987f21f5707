/** Text as Go holds it: a sequence of bytes, with white space recognised in its UTF-8 encoding. */
module Bytes {
  import opened Unicode

  type Byte = b: int | 0 <= b < 256 witness 0
  type Text = seq<Byte>

  const NEWLINE: Byte := 10
  const RETURN: Byte := 13

  predicate AsciiSpace(b: Byte) {
    9 <= b <= 13 || b == 32
  }

  /** The encodings of the white space runes beyond ASCII. */
  predicate WideSpace2(a: Byte, b: Byte) {
    a == 0xC2 && (b == 0x85 || b == 0xA0)
  }

  predicate WideSpace3(a: Byte, b: Byte, c: Byte) {
    || (a == 0xE1 && b == 0x9A && c == 0x80)
    || (a == 0xE2 && b == 0x80 && (0x80 <= c <= 0x8A || c == 0xA8 || c == 0xA9 || c == 0xAF))
    || (a == 0xE2 && b == 0x81 && c == 0x9F)
    || (a == 0xE3 && b == 0x80 && c == 0x80)
  }

  /** The length of the white space rune s starts with, 0 if there is none. */
  function SpaceAtFront(s: Text): (n: nat)
    ensures n <= |s|
  {
    if |s| >= 1 && AsciiSpace(s[0]) then 1
    else if |s| >= 2 && WideSpace2(s[0], s[1]) then 2
    else if |s| >= 3 && WideSpace3(s[0], s[1], s[2]) then 3
    else 0
  }

  function SpaceAtBack(s: Text): (n: nat)
    ensures n <= |s|
  {
    var k := |s|;
    if k >= 1 && AsciiSpace(s[k - 1]) then 1
    else if k >= 2 && WideSpace2(s[k - 2], s[k - 1]) then 2
    else if k >= 3 && WideSpace3(s[k - 3], s[k - 2], s[k - 1]) then 3
    else 0
  }

  function TrimLeft(s: Text): Text {
    if SpaceAtFront(s) == 0 then s else TrimLeft(s[SpaceAtFront(s)..])
  }

  function TrimRight(s: Text): Text {
    if SpaceAtBack(s) == 0 then s else TrimRight(s[..|s| - SpaceAtBack(s)])
  }

  /** `strings.TrimSpace`. */
  function TrimSpace(s: Text): Text {
    TrimRight(TrimLeft(s))
  }

  /** `strings.TrimRight(s, "\r")`. */
  function TrimReturns(s: Text): Text {
    if s != [] && s[|s| - 1] == RETURN then TrimReturns(s[..|s| - 1]) else s
  }

  // ----- What trimming leaves -----

  predicate AllSpace(s: Text) {
    s == [] || (SpaceAtFront(s) > 0 && AllSpace(s[SpaceAtFront(s)..]))
  }

  lemma {:induction false} AllSpaceConcat(a: Text, b: Text)
    requires AllSpace(a) && AllSpace(b)
    ensures AllSpace(a + b)
  {
    if a == [] {
      assert a + b == b;
    } else {
      var n := SpaceAtFront(a);
      assert SpaceAtFront(a + b) == n;
      assert (a + b)[n..] == a[n..] + b;
      AllSpaceConcat(a[n..], b);
    }
  }

  lemma OneSpaceFront(s: Text)
    requires SpaceAtFront(s) > 0
    ensures AllSpace(s[..SpaceAtFront(s)])
  {
    var n := SpaceAtFront(s);
    assert SpaceAtFront(s[..n]) == n && s[..n][n..] == [];
  }

  lemma OneSpaceBack(s: Text)
    requires SpaceAtBack(s) > 0
    ensures AllSpace(s[|s| - SpaceAtBack(s)..])
  {
    var n := SpaceAtBack(s);
    var t := s[|s| - n..];
    assert SpaceAtFront(t) == n && t[n..] == [];
  }

  lemma Regroup(s: Text, k: nat, a: Text, b: Text)
    requires k <= |s|
    ensures s[k..] == a + b ==> s == (s[..k] + a) + b
    ensures s[..k] == a + b ==> s == a + (b + s[k..])
  {
    assert s == s[..k] + s[k..];
    if s[k..] == a + b {
      assert s[..k] + (a + b) == (s[..k] + a) + b;
    }
    if s[..k] == a + b {
      assert (a + b) + s[k..] == a + (b + s[k..]);
    }
  }

  lemma {:induction false} TrimLeftSplits(s: Text) returns (pre: Text)
    ensures s == pre + TrimLeft(s) && AllSpace(pre) && SpaceAtFront(TrimLeft(s)) == 0
  {
    hide SpaceAtFront;
    var n := SpaceAtFront(s);
    if n == 0 {
      pre := [];
    } else {
      var rest := TrimLeftSplits(s[n..]);
      pre := s[..n] + rest;
      Regroup(s, n, rest, TrimLeft(s));
      OneSpaceFront(s);
      AllSpaceConcat(s[..n], rest);
    }
  }

  lemma {:induction false} TrimRightSplits(s: Text) returns (post: Text)
    ensures s == TrimRight(s) + post && AllSpace(post) && SpaceAtBack(TrimRight(s)) == 0
  {
    hide SpaceAtBack, SpaceAtFront;
    var k := |s| - SpaceAtBack(s);
    if k == |s| {
      post := [];
    } else {
      var rest := TrimRightSplits(s[..k]);
      post := rest + s[k..];
      Regroup(s, k, TrimRight(s), rest);
      OneSpaceBack(s);
      AllSpaceConcat(rest, s[k..]);
    }
  }

  /** Cutting white space off the end never makes the front white space. */
  lemma FrontStays(t: Text, post: Text)
    requires SpaceAtFront(t + post) == 0
    ensures SpaceAtFront(t) == 0
  {
  }

  /** Trimming cuts white space, all of it and nothing else, off both ends. */
  lemma TrimMeaning(s: Text) returns (pre: Text, post: Text)
    ensures s == pre + TrimSpace(s) + post && AllSpace(pre) && AllSpace(post)
    ensures SpaceAtFront(TrimSpace(s)) == 0 && SpaceAtBack(TrimSpace(s)) == 0
  {
    hide SpaceAtFront, SpaceAtBack, AllSpace, TrimLeft, TrimRight;
    pre := TrimLeftSplits(s);
    post := TrimRightSplits(TrimLeft(s));
    assert pre + (TrimSpace(s) + post) == pre + TrimSpace(s) + post;
    FrontStays(TrimSpace(s), post);
  }

  // ----- Carriage returns before a newline are white space anyway -----

  lemma {:induction false} TrimLeftBeforeReturn(s: Text)
    ensures TrimLeft(s + [RETURN]) == if TrimLeft(s) == [] then [] else TrimLeft(s) + [RETURN]
    decreases |s|
  {
    var n := SpaceAtFront(s);
    if s == [] {
      assert s + [RETURN] == [RETURN];
      assert SpaceAtFront([RETURN]) == 1 && [RETURN][1..] == [];
    } else {
      assert SpaceAtFront(s + [RETURN]) == n;
      if n > 0 {
        assert (s + [RETURN])[n..] == s[n..] + [RETURN];
        TrimLeftBeforeReturn(s[n..]);
      }
    }
  }

  lemma {:induction false} ReturnsAbsorbed(s: Text)
    ensures TrimSpace(TrimReturns(s)) == TrimSpace(s)
    decreases |s|
  {
    if s != [] && s[|s| - 1] == RETURN {
      var t := s[..|s| - 1];
      assert s == t + [RETURN];
      ReturnsAbsorbed(t);
      TrimLeftBeforeReturn(t);
      var l := TrimLeft(t);
      if l != [] {
        assert SpaceAtBack(l + [RETURN]) == 1 && (l + [RETURN])[..|l|] == l;
      }
    }
  }

  // ----- Which runes are white space -----

  /** `unicode.IsSpace`, as the Unicode standard lists the property White_Space. */
  predicate IsSpace(r: int) {
    || 9 <= r <= 13 || r == 32 || r == 0x85 || r == 0xA0 || r == 0x1680 || 0x2000 <= r <= 0x200A
    || r == 0x2028 || r == 0x2029 || r == 0x202F || r == 0x205F || r == 0x3000
  }

  /** The bytes that encode a rune. */
  function RuneBytes(r: int): (s: seq<int>)
    requires IsScalar(r)
    ensures |s| == |Encode(r)|
  {
    seq(|Encode(r)|, k requires 0 <= k < |Encode(r)| => Encode(r)[k] as int)
  }

  /** White space at the front is the encoding of a white space rune, and its length that of the encoding. */
  lemma SpaceExactly(s: Text)
    ensures SpaceAtFront(s) > 0 <==> exists r :: IsSpace(r) && RuneBytes(r) <= s
  {
    if SpaceAtFront(s) > 0 {
      var r := SpaceRune(s);
    }
    if r :| IsSpace(r) && RuneBytes(r) <= s {
      RuneIsSpace(s, r);
    }
  }

  lemma SpaceRune(s: Text) returns (r: int)
    requires SpaceAtFront(s) > 0
    ensures IsSpace(r) && RuneBytes(r) <= s && |RuneBytes(r)| == SpaceAtFront(s)
  {
    if SpaceAtFront(s) == 1 {
      r := s[0];
    } else if SpaceAtFront(s) == 2 {
      r := s[1];
    } else {
      r := ThreeBytes(s[0] - 0xE0, s[1] - 0x80, s[2] - 0x80);
    }
    assert RuneBytes(r) == s[..SpaceAtFront(s)];
  }

  lemma RuneIsSpace(s: Text, r: int)
    requires IsSpace(r) && RuneBytes(r) <= s
    ensures SpaceAtFront(s) > 0
  {
    var e := RuneBytes(r);
    assert s[0] == e[0] && (|e| > 1 ==> s[1] == e[1]) && (|e| > 2 ==> s[2] == e[2]);
    if r >= 0x800 {
      WideRune(r);
    } else if r >= 0x80 {
      assert e == [0xC2, r];
    }
  }

  lemma WideRune(r: int)
    requires IsSpace(r) && r >= 0x800
    ensures |RuneBytes(r)| == 3
    ensures var e := RuneBytes(r); e[0] > 32 && e[0] != 0xC2 && WideSpace3(e[0], e[1], e[2])
  {
    var e := RuneBytes(r);
    assert e == [0xE0 + r / 4096, 0x80 + r / 64 % 64, 0x80 + r % 64];
  }
}
