/** JSON values and their canonical text, as `canonicalJSON` in internal/xray/hot_diff.go renders them. */
module Json {
  import opened Texts

  /** A decoded value; numbers keep their digits, objects have lost the order of their keys. */
  datatype Json =
    | Null
    | Bool(value: bool)
    | Number(digits: string)
    | Str(text: string)
    | Arr(elems: seq<Json>)
    | Obj(fields: map<string, Json>)

  // ----- Strings -----

  /** The escape of one character: short forms, six-character forms for other control and HTML characters. */
  function EscapeChar(c: char): (r: string)
    ensures |r| == 1 || |r| == 2 || |r| == 6
  {
    if c == '"' then ['\\', '"']
    else if c == '\\' then ['\\', '\\']
    else if c == '\U{8}' then ['\\', 'b']
    else if c == '\U{c}' then ['\\', 'f']
    else if c == '\n' then ['\\', 'n']
    else if c == '\r' then ['\\', 'r']
    else if c == '\t' then ['\\', 't']
    else if c < ' ' || c == '<' || c == '>' || c == '&' then
      ['\\', 'u', '0', '0', HexDigit(c as int / 16 % 16), HexDigit(c as int % 16)]
    else if c == '\U{2028}' then ['\\', 'u', '2', '0', '2', '8']
    else if c == '\U{2029}' then ['\\', 'u', '2', '0', '2', '9']
    else [c]
  }

  function Escape(s: string): string {
    if s == "" then "" else EscapeChar(s[0]) + Escape(s[1..])
  }

  function Quote(s: string): string {
    "\"" + Escape(s) + "\""
  }

  // ----- Keys in byte order -----

  predicate Before(a: string, b: string) {
    if b == "" then false
    else if a == "" then true
    else a[0] < b[0] || (a[0] == b[0] && Before(a[1..], b[1..]))
  }

  lemma {:induction false} BeforeTotal(a: string, b: string)
    ensures a == b || Before(a, b) || Before(b, a)
    ensures !(Before(a, b) && Before(b, a)) && !Before(a, a)
  {
    if a != "" && b != "" {
      BeforeTotal(a[1..], b[1..]);
      assert a == [a[0]] + a[1..] && b == [b[0]] + b[1..];
    }
    BeforeIrreflexive(a);
  }

  lemma {:induction false} BeforeIrreflexive(a: string)
    ensures !Before(a, a)
  {
    if a != "" {
      BeforeIrreflexive(a[1..]);
    }
  }

  lemma {:induction false} BeforeTransitive(a: string, b: string, c: string)
    requires Before(a, b) && Before(b, c)
    ensures Before(a, c)
  {
    if a != "" && a[0] == b[0] == c[0] {
      BeforeTransitive(a[1..], b[1..], c[1..]);
    }
  }

  predicate IsFirst(k: string, keys: set<string>) {
    k in keys && forall k' :: k' in keys && k' != k ==> Before(k, k')
  }

  lemma {:induction false} FirstExists(keys: set<string>)
    requires keys != {}
    ensures exists k :: IsFirst(k, keys)
  {
    var x :| x in keys;
    var rest := keys - {x};
    if rest == {} {
      assert keys == {x};
      assert IsFirst(x, keys);
    } else {
      FirstExists(rest);
      var y :| IsFirst(y, rest);
      BeforeTotal(x, y);
      if Before(x, y) {
        forall k | k in keys && k != x ensures Before(x, k) {
          if k != y {
            BeforeTransitive(x, y, k);
          }
        }
        assert IsFirst(x, keys);
      } else {
        assert IsFirst(y, keys);
      }
    }
  }

  lemma FirstUnique(keys: set<string>, k: string, k': string)
    requires IsFirst(k, keys) && IsFirst(k', keys)
    ensures k == k'
  {
    BeforeTotal(k, k');
  }

  /** The keys of an object in ascending order. */
  function SortedKeys(keys: set<string>): (r: seq<string>)
    ensures forall k :: k in r <==> k in keys
    decreases |keys|
  {
    if keys == {} then []
    else
      assert exists k :: k in keys && IsFirst(k, keys) by { FirstExists(keys); }
      assert forall k, k' | IsFirst(k, keys) && IsFirst(k', keys) :: k == k' by {
        forall k, k' | IsFirst(k, keys) && IsFirst(k', keys) ensures k == k' {
          FirstUnique(keys, k, k');
        }
      }
      var k :| k in keys && IsFirst(k, keys);
      [k] + SortedKeys(keys - {k})
  }

  /** That order is strictly ascending, so each key is rendered once. */
  lemma {:induction false} SortedKeysAscend(keys: set<string>, i: nat, j: nat)
    requires i < j < |SortedKeys(keys)|
    ensures Before(SortedKeys(keys)[i], SortedKeys(keys)[j])
    decreases |keys|
  {
    var r := SortedKeys(keys);
    var rest := SortedKeys(keys - {r[0]});
    assert r == [r[0]] + rest && IsFirst(r[0], keys);
    if i > 0 {
      SortedKeysAscend(keys - {r[0]}, i - 1, j - 1);
    } else {
      assert r[j] == rest[j - 1];
      assert rest[j - 1] in rest;
    }
  }

  // ----- Values -----

  function Render(v: Json): string
    decreases v, 1, 0
  {
    match v
    case Null => "null"
    case Bool(b) => if b then "true" else "false"
    case Number(d) => d
    case Str(s) => Quote(s)
    case Arr(es) => "[" + RenderElems(es) + "]"
    case Obj(m) => "{" + RenderFields(v, SortedKeys(m.Keys)) + "}"
  }

  function RenderElems(es: seq<Json>): string
    decreases es, 0, 0
  {
    if es == [] then ""
    else if |es| == 1 then Render(es[0])
    else Render(es[0]) + "," + RenderElems(es[1..])
  }

  function RenderFields(v: Json, keys: seq<string>): string
    requires v.Obj? && forall k :: k in keys ==> k in v.fields
    decreases v, 0, |keys|
  {
    if keys == [] then ""
    else
      var field := Quote(keys[0]) + ":" + Render(v.fields[keys[0]]);
      if |keys| == 1 then field else field + "," + RenderFields(v, keys[1..])
  }

  predicate IsNumberChar(c: char) {
    '0' <= c <= '9' || c == '-' || c == '+' || c == '.' || c == 'e' || c == 'E'
  }

  /** What decoding guarantees of number literals: they are made of number characters and start like a number. */
  ghost predicate WellFormed(v: Json) {
    match v
    case Number(d) => d != "" && (d[0] == '-' || '0' <= d[0] <= '9') && forall k :: 0 <= k < |d| ==> IsNumberChar(d[k])
    case Arr(es) => forall k :: 0 <= k < |es| ==> WellFormed(es[k])
    case Obj(m) => forall k :: k in m ==> WellFormed(m[k])
    case _ => true
  }

  // ----- The text determines the value -----

  /** Text that may follow a value. */
  predicate Follows(r: string) {
    r == "" || r[0] in {',', ']', '}'}
  }

  /** The first two characters of an escape tell its length. */
  lemma EscapeLength(c: char)
    ensures var x := EscapeChar(c); |x| == if x[0] != '\\' then 1 else if x[1] == 'u' then 6 else 2
  {
  }

  lemma EscapeCharInjective(c: char, c': char)
    requires EscapeChar(c) == EscapeChar(c')
    ensures c == c'
  {
    hide HexDigit;
    var x, y := EscapeChar(c), EscapeChar(c');
    if |x| == 6 {
      assert x[2] == y[2] && x[4] == y[4] && x[5] == y[5];
      HexInjective(c as int / 16 % 16, c' as int / 16 % 16);
      HexInjective(c as int % 16, c' as int % 16);
    } else {
      assert x[0] == y[0] && x[|x| - 1] == y[|x| - 1];
    }
  }

  lemma HexInjective(d: int, d': int)
    requires 0 <= d < 16 && 0 <= d' < 16
    ensures HexDigit(d) == HexDigit(d') ==> d == d'
  {
  }

  lemma EscapeCharPrefixFree(c: char, t: string, c': char, t': string)
    requires EscapeChar(c) + t == EscapeChar(c') + t'
    ensures c == c' && t == t'
  {
    hide EscapeChar;
    var x, y, z := EscapeChar(c), EscapeChar(c'), EscapeChar(c) + t;
    EscapeLength(c);
    EscapeLength(c');
    assert x[0] == z[0] && y[0] == z[0];
    if z[0] == '\\' {
      assert x[1] == z[1] && y[1] == z[1];
    }
    assert |x| == |y|;
    assert x == z[..|x|] && y == z[..|y|];
    EscapeCharInjective(c, c');
    assert t == z[|x|..] && t' == z[|y|..];
  }

  /** An escaped string ends at the first quote that its characters did not produce. */
  lemma {:induction false} EscapeUnique(s: string, q: string, s': string, q': string)
    requires q != "" && q[0] == '"' && q' != "" && q'[0] == '"'
    requires Escape(s) + q == Escape(s') + q'
    ensures s == s' && q == q'
  {
    hide EscapeChar;
    EscapeFirst(s, q);
    EscapeFirst(s', q');
    if s != "" && s' != "" {
      EscapeCharPrefixFree(s[0], Escape(s[1..]) + q, s'[0], Escape(s'[1..]) + q');
      EscapeUnique(s[1..], q, s'[1..], q');
      assert s == [s[0]] + s[1..] && s' == [s'[0]] + s'[1..];
    }
  }

  lemma EscapeFirst(s: string, q: string)
    requires q != "" && q[0] == '"'
    ensures s == "" ==> Escape(s) + q == q
    ensures s != "" ==> Escape(s) + q == EscapeChar(s[0]) + (Escape(s[1..]) + q)
    ensures s != "" ==> (Escape(s) + q)[0] != '"'
  {
    hide EscapeChar;
    if s != "" {
      EscapeNotQuote(s[0]);
      Reassociate(EscapeChar(s[0]), Escape(s[1..]), q);
    } else {
      assert "" + q == q;
    }
  }

  lemma EscapeNotQuote(c: char)
    ensures EscapeChar(c)[0] != '"'
  {
  }

  lemma QuoteUnique(s: string, r: string, s': string, r': string)
    requires Quote(s) + r == Quote(s') + r'
    ensures s == s' && r == r'
  {
    hide Escape;
    assert (Quote(s) + r)[1..] == Escape(s) + ("\"" + r);
    assert (Quote(s') + r')[1..] == Escape(s') + ("\"" + r');
    EscapeUnique(s, "\"" + r, s', "\"" + r');
    assert r == ("\"" + r)[1..] && r' == ("\"" + r')[1..];
  }

  /** The longest run of number characters is the number. */
  lemma NumberUnique(d: string, r: string, d': string, r': string)
    requires d + r == d' + r' && Follows(r) && Follows(r')
    requires forall k :: 0 <= k < |d| ==> IsNumberChar(d[k])
    requires forall k :: 0 <= k < |d'| ==> IsNumberChar(d'[k])
    ensures d == d' && r == r'
  {
    if |d| < |d'| {
      ShorterContinues(d, r, d', r');
    } else if |d'| < |d| {
      ShorterContinues(d', r', d, r);
    }
    assert d == (d + r)[..|d|] && d' == (d' + r')[..|d'|];
    assert r == (d + r)[|d|..] && r' == (d' + r')[|d'|..];
  }

  lemma ShorterContinues(d: string, r: string, d': string, r': string)
    requires d + r == d' + r' && |d| < |d'|
    ensures r != "" && r[0] == d'[|d|]
  {
    assert (d' + r')[|d|] == d'[|d|];
    assert |r| == |r'| + |d'| - |d|;
  }

  /** The first character of a rendering tells which kind of value it is. */
  function Kind(v: Json): int {
    match v
    case Null => 0
    case Bool(b) => if b then 1 else 2
    case Number(_) => 3
    case Str(_) => 4
    case Arr(_) => 5
    case Obj(_) => 6
  }

  function KindOfChar(c: char): int {
    if c == 'n' then 0 else if c == 't' then 1 else if c == 'f' then 2
    else if c == '"' then 4 else if c == '[' then 5 else if c == '{' then 6 else 3
  }

  lemma FirstChar(v: Json, r: string)
    requires WellFormed(v)
    ensures Render(v) != "" && (Render(v) + r)[0] == Render(v)[0] && Kind(v) == KindOfChar(Render(v)[0])
    ensures !Follows(Render(v))
  {
  }

  /** A rendering followed by a delimiter or nothing determines both the value and what follows. */
  lemma {:induction false} RenderUnique(v: Json, r: string, v': Json, r': string)
    requires WellFormed(v) && WellFormed(v') && Follows(r) && Follows(r')
    requires Render(v) + r == Render(v') + r'
    ensures v == v' && r == r'
    decreases v, 1, 0
  {
    hide RenderElems, RenderFields, Quote, SortedKeys, IsNumberChar;
    FirstChar(v, r);
    FirstChar(v', r');
    match v
    case Number(d) => NumberUnique(d, r, v'.digits, r');
    case Str(s) => QuoteUnique(s, r, v'.text, r');
    case Arr(_) => ArrUnique(v, r, v', r');
    case Obj(_) => ObjUnique(v, r, v', r');
    case _ => SameTail(Render(v), r, r');
  }

  lemma {:induction false} ArrUnique(v: Json, r: string, v': Json, r': string)
    requires v.Arr? && v'.Arr? && WellFormed(v) && WellFormed(v')
    requires Render(v) + r == Render(v') + r'
    ensures v == v' && r == r'
    decreases v, 0, 0
  {
    hide RenderElems;
    assert (Render(v) + r)[1..] == RenderElems(v.elems) + ("]" + r);
    assert (Render(v') + r')[1..] == RenderElems(v'.elems) + ("]" + r');
    ElemsUnique(v.elems, "]" + r, v'.elems, "]" + r');
    SameTail("]", r, r');
  }

  lemma {:induction false} ElemsUnique(es: seq<Json>, q: string, es': seq<Json>, q': string)
    requires forall k :: 0 <= k < |es| ==> WellFormed(es[k])
    requires forall k :: 0 <= k < |es'| ==> WellFormed(es'[k])
    requires q != "" && q[0] == ']' && q' != "" && q'[0] == ']'
    requires RenderElems(es) + q == RenderElems(es') + q'
    ensures es == es' && q == q'
    decreases es, 0, 0
  {
    hide WellFormed, Render, RenderElems;
    ElemsFirst(es, q);
    ElemsFirst(es', q');
    if es != [] && es' != [] {
      var t, t' := ElemsRest(es, q), ElemsRest(es', q');
      RenderUnique(es[0], t, es'[0], t');
      if |es| > 1 && |es'| > 1 {
        SameTail(",", RenderElems(es[1..]) + q, RenderElems(es'[1..]) + q');
        ElemsUnique(es[1..], q, es'[1..], q');
        assert es == [es[0]] + es[1..] && es' == [es'[0]] + es'[1..];
      }
    }
  }

  ghost function ElemsRest(es: seq<Json>, q: string): string
    requires es != []
  {
    if |es| == 1 then q else "," + (RenderElems(es[1..]) + q)
  }

  lemma ElemsFirst(es: seq<Json>, q: string)
    requires q != "" && q[0] == ']' && (es != [] ==> WellFormed(es[0]))
    ensures es == [] ==> RenderElems(es) + q == q
    ensures es != [] ==> RenderElems(es) + q == Render(es[0]) + ElemsRest(es, q)
    ensures es != [] ==> (RenderElems(es) + q)[0] !in {',', ']', '}'}
  {
    if es != [] {
      FirstChar(es[0], ElemsRest(es, q));
    }
  }

  lemma {:induction false} ObjUnique(v: Json, r: string, v': Json, r': string)
    requires v.Obj? && v'.Obj? && WellFormed(v) && WellFormed(v')
    requires Render(v) + r == Render(v') + r'
    ensures v == v' && r == r'
    decreases v, 0, |v.fields.Keys| + 1
  {
    hide RenderFields, SortedKeys;
    var ks, ks' := SortedKeys(v.fields.Keys), SortedKeys(v'.fields.Keys);
    assert (Render(v) + r)[1..] == RenderFields(v, ks) + ("}" + r);
    assert (Render(v') + r')[1..] == RenderFields(v', ks') + ("}" + r');
    SortedKeysCount(v.fields.Keys);
    FieldsUnique(v, ks, "}" + r, v', ks', "}" + r');
    SameTail("}", r, r');
    assert v.fields.Keys == v'.fields.Keys;
    assert v.fields == v'.fields;
  }

  lemma {:induction false} SortedKeysCount(keys: set<string>)
    ensures |SortedKeys(keys)| == |keys|
    decreases |keys|
  {
    if keys != {} {
      var k := SortedKeys(keys)[0];
      SortedKeysCount(keys - {k});
    }
  }

  lemma {:induction false} FieldsUnique(v: Json, ks: seq<string>, q: string, v': Json, ks': seq<string>, q': string)
    requires v.Obj? && v'.Obj? && WellFormed(v) && WellFormed(v')
    requires (forall k :: k in ks ==> k in v.fields) && (forall k :: k in ks' ==> k in v'.fields)
    requires q != "" && q[0] == '}' && q' != "" && q'[0] == '}'
    requires RenderFields(v, ks) + q == RenderFields(v', ks') + q'
    ensures ks == ks' && q == q'
    ensures forall k :: k in ks ==> v.fields[k] == v'.fields[k]
    decreases v, 0, |ks|
  {
    hide Quote, Render, RenderFields;
    FieldsFirst(v, ks, q);
    FieldsFirst(v', ks', q');
    if ks != [] && ks' != [] {
      var k, k' := ks[0], ks'[0];
      var t, t' := FieldsRest(v, ks, q), FieldsRest(v', ks', q');
      QuoteUnique(k, ":" + (Render(v.fields[k]) + t), k', ":" + (Render(v'.fields[k']) + t'));
      SameTail(":", Render(v.fields[k]) + t, Render(v'.fields[k']) + t');
      RenderUnique(v.fields[k], t, v'.fields[k'], t');
      if |ks| > 1 && |ks'| > 1 {
        SameTail(",", RenderFields(v, ks[1..]) + q, RenderFields(v', ks'[1..]) + q');
        FieldsUnique(v, ks[1..], q, v', ks'[1..], q');
        assert ks == [ks[0]] + ks[1..] && ks' == [ks'[0]] + ks'[1..];
      }
    }
  }

  ghost function FieldsRest(v: Json, ks: seq<string>, q: string): string
    requires v.Obj? && ks != [] && forall k :: k in ks ==> k in v.fields
  {
    if |ks| == 1 then q else "," + (RenderFields(v, ks[1..]) + q)
  }

  lemma FieldsFirst(v: Json, ks: seq<string>, q: string)
    requires v.Obj? && q != "" && forall k :: k in ks ==> k in v.fields
    ensures ks == [] ==> RenderFields(v, ks) + q == q
    ensures ks != [] ==>
              RenderFields(v, ks) + q == Quote(ks[0]) + (":" + (Render(v.fields[ks[0]]) + FieldsRest(v, ks, q)))
    ensures ks != [] ==> (RenderFields(v, ks) + q)[0] == '"'
  {
    hide Render, Quote;
    if ks != [] {
      QuoteFirst(ks[0]);
      Regroup(Quote(ks[0]), Render(v.fields[ks[0]]), RenderFields(v, ks[1..]), q);
    }
  }

  lemma Regroup(a: string, c: string, r: string, q: string)
    ensures (a + ":" + c) + q == a + (":" + (c + q))
    ensures (a + ":" + c + "," + r) + q == a + (":" + (c + ("," + (r + q))))
  {
    assert (a + ":" + c) + ("," + (r + q)) == a + (":" + (c + ("," + (r + q))));
    assert (a + ":" + c + "," + r) + q == (a + ":" + c) + ("," + (r + q));
  }

  lemma QuoteFirst(s: string)
    ensures Quote(s) != "" && Quote(s)[0] == '"'
  {
  }

  /** The canonical text is injective: equal texts come from equal values. */
  lemma RenderInjective(v: Json, v': Json)
    requires WellFormed(v) && WellFormed(v') && Render(v) == Render(v')
    ensures v == v'
  {
    assert Render(v) + "" == Render(v) && Render(v') + "" == Render(v');
    RenderUnique(v, "", v', "");
  }

  /** A rendered list: escapes, keywords and digits as they are. */
  lemma Rendered()
    ensures Render(Arr([Str("a<\n"), Number("1.0")])) == "[\"a\\u003c\\n\",1.0]"
    ensures Render(Bool(true)) == "true" && Render(Bool(false)) == "false" && Render(Null) == "null"
  {
    hide Quote;
    EscapedText();
    var es := [Str("a<\n"), Number("1.0")];
    assert es[1..] == [Number("1.0")];
    assert RenderElems(es) == Quote("a<\n") + "," + "1.0";
  }

  lemma EscapedText()
    ensures Quote("a<\n") == "\"a\\u003c\\n\""
  {
    var s := "a<\n";
    assert s[1..] == "<\n" && s[1..][1..] == "\n" && s[1..][1..][1..] == "";
    assert Escape("\n") == "\\n" + "";
    assert Escape("<\n") == "\\u003c" + Escape("\n");
    assert Escape(s) == "a" + Escape("<\n");
  }

  /** A rendered object: keys in ascending order. */
  lemma RenderedObject()
    ensures Render(Obj(map["b" := Null, "a" := Bool(false)])) == "{\"a\":false,\"b\":null}"
  {
    hide Quote, RenderFields, SortedKeys;
    assert "a"[0] != "b"[0];
    var v := Obj(map["b" := Null, "a" := Bool(false)]);
    TwoKeys();
    assert v.fields.Keys == {"a", "b"};
    OneLetter();
    FieldText(v, "a", Bool(false));
    FieldText(v, "b", Null);
    TwoFields(v, "a", "b");
  }

  lemma TwoFields(v: Json, k: string, k': string)
    requires v.Obj? && k in v.fields && k' in v.fields
    ensures RenderFields(v, [k, k']) == RenderFields(v, [k]) + "," + RenderFields(v, [k'])
  {
    hide Quote;
    assert [k, k'][1..] == [k'];
  }

  lemma FieldText(v: Json, k: string, x: Json)
    requires v.Obj? && k in v.fields && v.fields[k] == x
    ensures RenderFields(v, [k]) == Quote(k) + ":" + Render(x)
  {
    hide Quote;
  }

  lemma TwoKeys()
    ensures SortedKeys({"a", "b"}) == ["a", "b"]
  {
    assert "a"[0] < "b"[0];
    var keys := {"a", "b"};
    assert IsFirst("a", keys);
    FirstUnique(keys, "a", SortedKeys(keys)[0]);
    assert keys - {"a"} == {"b"} && {"b"} - {"b"} == {};
    assert SortedKeys({"b"})[0] == "b";
    assert SortedKeys({}) == [];
    assert SortedKeys({"b"}) == ["b"] + SortedKeys({});
    assert SortedKeys(keys) == ["a"] + SortedKeys({"b"});
  }

  lemma OneLetter()
    ensures Quote("a") == "\"a\"" && Quote("b") == "\"b\""
  {
    assert "a"[1..] == "" && "b"[1..] == "";
  }
}
