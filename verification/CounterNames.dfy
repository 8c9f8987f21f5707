/** The names of the Xray core's traffic counters and the two regular expressions `GetTraffic` (internal/xray/api.go)
    takes them apart with. Neither is anchored: the leftmost place of the name where one matches counts. */
module CounterNames {
  import opened Options
  import opened Texts

  datatype Dir = Uplink | Downlink

  datatype Counter = Inbound(tag: string, dir: Dir) | Outbound(tag: string, dir: Dir) | User(email: string, dir: Dir)

  function Label(c: Counter): string {
    match c case Inbound(tag, _) => tag case Outbound(tag, _) => tag case User(email, _) => email
  }

  function DirText(dir: Dir): string {
    if dir == Downlink then "downlink" else "uplink"
  }

  function Head(c: Counter): string {
    match c case Inbound(_, _) => "inbound>>>" case Outbound(_, _) => "outbound>>>" case User(_, _) => "user>>>"
  }

  function Tail(dir: Dir): string {
    ">>>traffic>>>" + DirText(dir)
  }

  /** How the core names a counter. */
  function Format(c: Counter): string {
    Head(c) + (Label(c) + Tail(c.dir))
  }

  // ----- The expressions -----

  /** What follows the prefix. */
  function After(prefix: string, s: string): Option<string> {
    if prefix <= s then Some(s[|prefix|..]) else None
  }

  /** How many characters precede the first `>`. */
  function Plain(s: string): (k: nat)
    ensures k <= |s| && '>' !in s[..k] && (k < |s| ==> s[k] == '>')
  {
    if s == "" || s[0] == '>' then 0 else 1 + Plain(s[1..])
  }

  /** `([^>]+)>>>traffic>>>(downlink|uplink)` at the start of the text. */
  function Labelled(s: string): Option<(string, Dir)> {
    var k := Plain(s);
    if k == 0 then None
    else
      match After(">>>traffic>>>", s[k..])
      case None => None
      case Some(t) =>
        if "downlink" <= t then Some((s[..k], Downlink)) else if "uplink" <= t then Some((s[..k], Uplink)) else None
  }

  function HandlerAt(s: string): Option<Counter> {
    match After("inbound>>>", s)
    case Some(t) => (match Labelled(t) case Some((tag, dir)) => Some(Inbound(tag, dir)) case None => None)
    case None =>
      match After("outbound>>>", s)
      case Some(t) => (match Labelled(t) case Some((tag, dir)) => Some(Outbound(tag, dir)) case None => None)
      case None => None
  }

  function UserAt(s: string): Option<Counter> {
    match After("user>>>", s)
    case Some(t) => (match Labelled(t) case Some((email, dir)) => Some(User(email, dir)) case None => None)
    case None => None
  }

  function FindHandler(s: string): Option<Counter> {
    if s == "" || HandlerAt(s).Some? then HandlerAt(s) else FindHandler(s[1..])
  }

  function FindUser(s: string): Option<Counter> {
    if s == "" || UserAt(s).Some? then UserAt(s) else FindUser(s[1..])
  }

  /** The counter the panel takes a name for. */
  function Meant(name: string): Option<Counter> {
    if FindHandler(name).Some? then FindHandler(name) else FindUser(name)
  }

  /** A label the expressions can capture whole. */
  predicate Clean(word: string) {
    word != "" && '>' !in word
  }

  // ----- What the expressions find -----

  lemma {:induction false} PlainConcat(p: string, t: string)
    requires '>' !in p
    ensures Plain(p + t) == |p| + Plain(t)
    decreases |p|
  {
    if p == "" {
      assert p + t == t;
    } else {
      assert (p + t)[1..] == p[1..] + t;
      PlainConcat(p[1..], t);
    }
  }

  /** What a text that starts with the prefix goes on with. */
  lemma Rest(p: string, s: string) returns (t: string)
    requires p <= s
    ensures s == p + t && After(p, s) == Some(t)
  {
    t := s[|p|..];
  }

  lemma LabelledReads(s: string, word: string, dir: Dir)
    ensures Labelled(s) == Some((word, dir)) <==> Clean(word) && word + Tail(dir) <= s
  {
    if Labelled(s) == Some((word, dir)) {
      LabelledTakes(s, word, dir);
    }
    if Clean(word) && word + Tail(dir) <= s {
      LabelledFinds(s, word, dir);
    }
  }

  lemma LabelledTakes(s: string, word: string, dir: Dir)
    requires Labelled(s) == Some((word, dir))
    ensures Clean(word) && word + Tail(dir) <= s
  {
    hide Plain, DirText, After;
    var rest := s[|word|..];
    var t := After(">>>traffic>>>", rest).value;
    AfterTaken(">>>traffic>>>", rest);
    DirTexts();
    var u := Rest(DirText(dir), t);
    assert s == word + rest && rest == Tail(dir) + u;
  }

  lemma AfterTaken(prefix: string, s: string)
    requires After(prefix, s).Some?
    ensures s == prefix + After(prefix, s).value
  {
  }

  lemma DirTexts()
    ensures DirText(Downlink) == "downlink" && DirText(Uplink) == "uplink"
  {
  }

  lemma LabelledFinds(s: string, word: string, dir: Dir)
    requires Clean(word) && word + Tail(dir) <= s
    ensures Labelled(s) == Some((word, dir))
  {
    hide Plain, After, DirText;
    var u := Rest(word + Tail(dir), s);
    var t := DirText(dir) + u;
    var rest := ">>>traffic>>>" + t;
    assert s == word + rest;
    WordAndRest(word, rest);
    HeadTaken(">>>traffic>>>", t);
    DirRead(dir, u);
  }

  lemma WordAndRest(word: string, rest: string)
    requires Clean(word) && rest != "" && rest[0] == '>'
    ensures var s := word + rest; Plain(s) == |word| && s[..|word|] == word && s[|word|..] == rest
  {
    PlainConcat(word, rest);
  }

  lemma HeadTaken(head: string, t: string)
    ensures After(head, head + t) == Some(t)
  {
  }

  lemma DirRead(dir: Dir, u: string)
    ensures "downlink" <= DirText(dir) + u <==> dir == Downlink
    ensures dir == Uplink ==> "uplink" <= DirText(dir) + u
  {
    assert dir == Uplink ==> (DirText(dir) + u)[0] == 'u';
  }

  /** A counter that can be captured is named at this place of the text. */
  predicate Named(s: string, i: nat, c: Counter) {
    i <= |s| && Clean(Label(c)) && Format(c) <= s[i..]
  }

  lemma HeadedReads(s: string, c: Counter, t: string)
    requires s == Head(c) + t
    ensures Labelled(t) == Some((Label(c), c.dir)) <==> Named(s, 0, c)
  {
    hide Labelled, Tail, Head, Clean;
    LabelledReads(t, Label(c), c.dir);
    assert s[0..] == s;
    if Format(c) <= s {
      var u := Rest(Format(c), s);
      assert Head(c) + t == Head(c) + (Label(c) + Tail(c.dir) + u);
      SameTail(Head(c), t, Label(c) + Tail(c.dir) + u);
    }
    if Label(c) + Tail(c.dir) <= t {
      var u := Rest(Label(c) + Tail(c.dir), t);
      assert s == Format(c) + u;
    }
  }

  lemma HeadNeeded(s: string, c: Counter)
    requires Named(s, 0, c)
    ensures Head(c) <= s && (!c.Inbound? ==> !("inbound>>>" <= s))
  {
    hide Clean, Tail;
    assert s[0..] == s;
    var u := Rest(Format(c), s);
    assert s == Head(c) + (Label(c) + Tail(c.dir) + u);
    assert s[0] == Head(c)[0];
  }

  /** At one place the expressions find what is named there. */
  lemma AtReads(s: string, c: Counter)
    ensures HandlerAt(s) == Some(c) <==> !c.User? && Named(s, 0, c)
    ensures UserAt(s) == Some(c) <==> c.User? && Named(s, 0, c)
  {
    hide Labelled, Named;
    if Head(c) <= s {
      var t := Rest(Head(c), s);
      HeadedReads(s, c, t);
    }
    if Named(s, 0, c) {
      HeadNeeded(s, c);
    }
  }

  /** What is found is named somewhere. */
  lemma {:induction false} HandlerFound(s: string) returns (i: nat)
    requires FindHandler(s).Some?
    ensures !FindHandler(s).value.User? && Named(s, i, FindHandler(s).value)
    decreases |s|
  {
    hide HandlerAt, Named;
    if s == "" || HandlerAt(s).Some? {
      i := 0;
      AtReads(s, HandlerAt(s).value);
    } else {
      i := HandlerFound(s[1..]);
      NamedLater(s, i, FindHandler(s).value);
      i := i + 1;
    }
  }

  lemma NamedLater(s: string, i: nat, c: Counter)
    requires s != ""
    ensures Named(s[1..], i, c) <==> Named(s, i + 1, c)
  {
    if i < |s| {
      assert s[1..][i..] == s[i + 1..];
    }
  }

  lemma {:induction false} UserFound(s: string) returns (i: nat)
    requires FindUser(s).Some?
    ensures FindUser(s).value.User? && Named(s, i, FindUser(s).value)
    decreases |s|
  {
    hide UserAt, Named;
    if s == "" || UserAt(s).Some? {
      i := 0;
      AtReads(s, UserAt(s).value);
    } else {
      i := UserFound(s[1..]);
      NamedLater(s, i, FindUser(s).value);
      i := i + 1;
    }
  }

  /** What is named somewhere is found, or something else is. */
  lemma {:induction false} NamedFound(s: string, i: nat, c: Counter)
    requires Named(s, i, c)
    ensures if c.User? then FindUser(s).Some? else FindHandler(s).Some?
    decreases |s|
  {
    hide UserAt, HandlerAt, Named;
    if i == 0 {
      AtReads(s, c);
    } else if s == "" {
      NotPast(s, i, c);
    } else {
      NamedLater(s, i - 1, c);
      NamedFound(s[1..], i - 1, c);
    }
  }

  lemma NotPast(s: string, i: nat, c: Counter)
    requires Named(s, i, c)
    ensures i < |s|
  {
  }

  /** Whatever a name is taken for is named in it, with a clean label; a handler, if one is named at all. */
  lemma MeantIsNamed(name: string) returns (i: nat)
    requires Meant(name).Some?
    ensures Named(name, i, Meant(name).value)
    ensures forall j, c :: Named(name, j, c) && !c.User? ==> !Meant(name).value.User?
  {
    hide FindHandler, FindUser, Named;
    if FindHandler(name).Some? {
      i := HandlerFound(name);
    } else {
      i := UserFound(name);
      forall j, c | Named(name, j, c) && !c.User? ensures false {
        NamedFound(name, j, c);
      }
    }
  }

  lemma MeantIsClean(name: string)
    ensures Meant(name).Some? ==> Clean(Label(Meant(name).value))
  {
    hide Meant;
    if Meant(name).Some? {
      var i := MeantIsNamed(name);
    }
  }

  // ----- What is named in a name -----

  /** The label starts like what follows the head of some name. */
  predicate Opens(word: string, w: string, dir: Dir) {
    Clean(w) && w + Tail(dir) <= word
  }

  /** The label ends with what precedes the tail of some name. */
  predicate Closes(word: string, i: nat, c: Counter) {
    i <= |word| && Clean(Label(c)) && word[i..] == Head(c) + Label(c)
  }

  /** A label in which another counter can be read. */
  ghost predicate Misleading(word: string) {
    || (exists w, dir :: Opens(word, w, dir))
    || (exists i, c :: Closes(word, i, c))
    || (exists i, c :: Named(word, i, c))
  }

  /** A tail does not straddle the end of what precedes a tail. */
  lemma NoStraddle(r: string, dir: Dir, dir': Dir)
    requires r != "" && Tail(dir') <= r + Tail(dir)
    ensures Tail(dir') <= r
  {
    hide Tail;
    var t, s := Tail(dir'), r + Tail(dir);
    TailChars(dir);
    TailChars(dir');
    assert forall k :: |r| <= k < |s| ==> s[k] == Tail(dir)[k - |r|];
    assert forall k :: 0 <= k < |t| ==> t[k] == s[k];
    assert s[..|r|] == r;
  }

  /** The only place of a tail where three arrows and a letter t follow is its start. */
  lemma TailChars(dir: Dir)
    ensures 19 <= |Tail(dir)| <= 21 && Tail(dir)[..4] == ">>>t"
    ensures Tail(dir)[0] == '>' && Tail(dir)[1] == '>' && Tail(dir)[2] == '>' && Tail(dir)[3] == 't'
    ensures forall k :: 0 < k < |Tail(dir)| ==> (Tail(dir)[k] == '>' <==> k in {1, 2, 10, 11, 12})
    ensures Tail(dir)[13] != 't'
  {
  }

  /** A captured word before a tail is all that precedes the tail, or has a tail of its own. */
  lemma WordEnds(m: string, dir: Dir, w: string, dir': Dir)
    requires Clean(w) && w + Tail(dir') <= m + Tail(dir)
    ensures (m == w && dir' == dir) || w + Tail(dir') <= m
  {
    hide Tail, Plain;
    var u := Rest(w + Tail(dir'), m + Tail(dir));
    var s, t := m + Tail(dir), Tail(dir') + u;
    assert s == w + t;
    TailChars(dir);
    TailChars(dir');
    WordAndRest(w, t);
    if '>' !in m {
      PlainConcat(m, Tail(dir));
      ArrowFirst(Tail(dir));
      assert m == w by { assert s[..|m|] == m; }
      SameTail(m, Tail(dir), Tail(dir') + u);
      SameDir(dir, dir', u);
    } else {
      PlainPrefix(m, Tail(dir));
      var r := m[|w|..];
      assert s[|w|..] == r + Tail(dir);
      assert m == w + r;
      SameTail(w, r + Tail(dir), Tail(dir') + u);
      NoStraddle(r, dir, dir');
      assert w + Tail(dir') <= w + r;
    }
  }

  lemma {:induction false} PlainPrefix(m: string, t: string)
    requires '>' in m
    ensures Plain(m + t) == Plain(m) < |m|
    decreases |m|
  {
    if m[0] != '>' {
      assert (m + t)[1..] == m[1..] + t;
      PlainPrefix(m[1..], t);
    }
  }

  lemma SameDir(dir: Dir, dir': Dir, u: string)
    requires Tail(dir) == Tail(dir') + u
    ensures dir == dir'
  {
    assert Tail(dir)[13] == Tail(dir')[13];
  }

  function Kind(c: Counter): string {
    match c case Inbound(_, _) => "inbound" case Outbound(_, _) => "outbound" case User(_, _) => "user"
  }

  lemma KindOfHead(c: Counter)
    ensures Head(c) == Kind(c) + ">>>" && '>' !in Kind(c) && 4 <= |Kind(c)| <= 8
  {
  }

  /** How a text goes on in which the counter is named. */
  lemma NamedRest(s: string, i: nat, c: Counter) returns (u: string)
    requires Named(s, i, c)
    ensures i <= |s| && Clean(Label(c))
    ensures s[i..] == Kind(c) + (">>>" + (Label(c) + (Tail(c.dir) + u))) && Plain(s[i..]) == |Kind(c)|
  {
    hide Plain, Tail, Head, Kind;
    u := Rest(Format(c), s[i..]);
    KindOfHead(c);
    var t := ">>>" + (Label(c) + (Tail(c.dir) + u));
    assert Kind(c) + ">>>" + (Label(c) + Tail(c.dir)) + u == Kind(c) + t;
    PlainConcat(Kind(c), t);
    ArrowFirst(t);
  }

  /** Nothing is named across the end of a head but the counter's own kind, at the start. */
  lemma NamedInHead(c: Counter, i: nat, k: Counter)
    requires Named(Format(c), i, k) && i < |Head(c)|
    ensures i == 0 && Head(k) == Head(c)
  {
    hide Plain, Tail, Head, Kind, Named;
    var s, t := Format(c), ">>>" + (Label(c) + Tail(c.dir));
    KindOfHead(c);
    KindOfHead(k);
    var u := NamedRest(s, i, k);
    assert s == Kind(c) + t;
    if i <= |Kind(c)| {
      var p := Kind(c)[i..];
      assert s[i..] == p + t;
      PlainConcat(p, t);
      ArrowFirst(t);
      assert p == s[i..][..|p|] == Kind(k);
      SuffixKind(c, i, k);
    } else {
      ArrowFirst(s[i..]);
    }
  }

  lemma SuffixKind(c: Counter, i: nat, k: Counter)
    requires i <= |Kind(c)| && Kind(c)[i..] == Kind(k)
    ensures i == 0 && Head(k) == Head(c)
  {
    assert |Kind(k)| == |Kind(c)| - i;
    assert Kind(k)[0] == Kind(c)[i];
  }

  /** What is named inside a label and its tail closes the label or is named inside it. */
  lemma NamedInLabel(word: string, dir: Dir, k: Counter)
    requires Named(word + Tail(dir), 0, k)
    ensures (Closes(word, 0, k) && k.dir == dir) || Named(word, 0, k)
  {
    hide Plain, Tail, Head, Kind, Named, Closes, Clean;
    assert (word + Tail(dir))[0..] == word + Tail(dir);
    var u := NamedRest(word + Tail(dir), 0, k);
    var t := Label(k) + (Tail(k.dir) + u);
    KindOfHead(k);
    BodyChars(Label(k), k.dir, u);
    HeadInside(word, dir, Kind(k), t);
    assert Kind(k) + (">>>" + t) == Head(k) + t;
    var m := AfterHead(word, Head(k), Tail(dir), t);
    assert t == Label(k) + Tail(k.dir) + u;
    WordEnds(m, dir, Label(k), k.dir);
    HeadThen(word, k, m);
  }

  lemma HeadThen(word: string, k: Counter, m: string)
    requires Clean(Label(k)) && word == Head(k) + m
    ensures m == Label(k) ==> Closes(word, 0, k)
    ensures Label(k) + Tail(k.dir) <= m ==> Named(word, 0, k)
  {
    hide Clean, Head, Tail;
    assert word[0..] == word;
    if Label(k) + Tail(k.dir) <= m {
      var v := Rest(Label(k) + Tail(k.dir), m);
      assert word == Format(k) + v;
    }
  }

  lemma BodyChars(w: string, dir: Dir, u: string)
    requires Clean(w)
    ensures var t := w + (Tail(dir) + u);
            t != "" && t[0] != '>' && Plain(t) == |w| && |w| + 4 <= |t| && t[|w| + 3] == 't'
  {
    hide Plain, Tail;
    TailChars(dir);
    WordAndRest(w, Tail(dir) + u);
  }

  lemma AfterHead(word: string, head: string, tail: string, t: string) returns (m: string)
    requires head <= word && word + tail == head + t
    ensures word == head + m && m + tail == t
  {
    m := word[|head|..];
    SameTail(head, m + tail, t);
  }

  /** A head before a captured word lies before the tail. */
  lemma HeadInside(word: string, dir: Dir, kind: string, t: string)
    requires '>' !in kind && word + Tail(dir) == kind + (">>>" + t) && t != "" && t[0] != '>'
    requires Plain(t) + 4 <= |t| && t[Plain(t) + 3] == 't'
    ensures kind + ">>>" <= word
  {
    hide Tail, Plain;
    TailChars(dir);
    if '>' in word {
      var r := FromArrow(word);
      var p := word[..|word| - |r|];
      Reassociate(p, r, Tail(dir));
      SameUpToArrow(p, r + Tail(dir), kind, ">>>" + t);
      ThreeArrows(r, dir, t);
      Reassociate(kind, ">>>", r[3..]);
    } else {
      SameUpToArrow(word, Tail(dir), kind, ">>>" + t);
      TailWord(dir, t);
    }
  }

  /** The text from its first arrow on. */
  lemma FromArrow(s: string) returns (r: string)
    requires '>' in s
    ensures r != "" && r[0] == '>' && |r| <= |s| && s == s[..|s| - |r|] + r && '>' !in s[..|s| - |r|]
  {
    r := s[Plain(s)..];
  }

  /** What precedes the first arrow of a text is determined. */
  lemma SameUpToArrow(p: string, r: string, p': string, r': string)
    requires '>' !in p && '>' !in p' && r != "" && r' != "" && r[0] == '>' == r'[0] && p + r == p' + r'
    ensures p == p' && r == r'
  {
    hide Plain;
    PlainConcat(p, r);
    PlainConcat(p', r');
    ArrowFirst(r);
    ArrowFirst(r');
    assert p == (p + r)[..|p|] && p' == (p' + r')[..|p'|];
    SameTail(p, r, r');
  }

  lemma ThreeArrows(r: string, dir: Dir, t: string)
    requires r != "" && r + Tail(dir) == ">>>" + t && t != "" && t[0] != '>'
    ensures ">>>" <= r && r == ">>>" + r[3..]
  {
    hide Tail;
    ArrowsAfter(r, dir);
    var s := ">>>" + t;
    assert s[3] == t[0];
    assert |r| >= 3 ==> r[..3] == (r + Tail(dir))[..3] == ">>>";
  }

  lemma ArrowsAfter(word: string, dir: Dir)
    ensures var s, n := word + Tail(dir), |word|; |s| > n + 3 && s[n] == '>' && s[n + 1] == '>' && s[n + 2] == '>'
  {
    hide Tail;
    TailChars(dir);
  }

  lemma TailParts(dir: Dir)
    ensures Tail(dir) == ">>>" + ("traffic" + (">>>" + DirText(dir)))
    ensures DirText(dir) != "" && DirText(dir)[0] != 't'
  {
  }

  lemma TailWord(dir: Dir, t: string)
    requires Tail(dir) == ">>>" + t
    ensures Plain(t) == 7 && |t| > 10 && t[10] != 't'
  {
    hide Plain, Tail, DirText;
    TailParts(dir);
    var rest := ">>>" + DirText(dir);
    SameTail(">>>", t, "traffic" + rest);
    PlainConcat("traffic", rest);
    ArrowFirst(rest);
  }

  lemma ArrowFirst(s: string)
    requires s != "" && s[0] == '>'
    ensures Plain(s) == 0
  {
  }

  /** Where a counter is named in the name of another: at the start, by the label's opening, or in its end or its midst. */
  lemma NamedInName(c: Counter, i: nat, k: Counter)
    requires Named(Format(c), i, k)
    ensures var j := i - |Head(c)|;
            || k == c
            || Opens(Label(c), Label(k), k.dir)
            || (j >= 0 && Closes(Label(c), j, k) && k.dir == c.dir)
            || (j >= 0 && Named(Label(c), j, k))
  {
    hide Tail, Head, Plain, Named;
    var n, word := |Head(c)|, Label(c);
    NamedClean(Format(c), i, k);
    if i < n {
      NamedInHead(c, i, k);
      NamedAtStart(c, k);
      WordEnds(word, c.dir, Label(k), k.dir);
      SameHead(c, k);
    } else {
      NamedAfterHead(c, i, k);
      NamedInLabel(word[i - n..], c.dir, k);
      NamedInSuffix(word, i - n, k);
    }
  }

  lemma NamedClean(s: string, i: nat, c: Counter)
    requires Named(s, i, c)
    ensures i <= |s| && Clean(Label(c))
  {
  }

  lemma NamedAtStart(c: Counter, k: Counter)
    requires Named(Format(c), 0, k) && Head(k) == Head(c)
    ensures Label(k) + Tail(k.dir) <= Label(c) + Tail(c.dir)
  {
    hide Tail, Head, Clean;
    assert Format(c)[0..] == Format(c);
    var u := Rest(Format(k), Format(c));
    assert Head(c) + (Label(c) + Tail(c.dir)) == Head(c) + (Label(k) + Tail(k.dir) + u);
    SameTail(Head(c), Label(c) + Tail(c.dir), Label(k) + Tail(k.dir) + u);
  }

  lemma SameHead(c: Counter, k: Counter)
    requires Head(k) == Head(c)
    ensures Label(k) == Label(c) && k.dir == c.dir ==> k == c
  {
    assert Head(c)[0] == Head(k)[0];
  }

  lemma NamedAfterHead(c: Counter, i: nat, k: Counter)
    requires Named(Format(c), i, k) && i >= |Head(c)|
    ensures i - |Head(c)| <= |Label(c)| && Named(Label(c)[i - |Head(c)|..] + Tail(c.dir), 0, k)
  {
    hide Tail, Head, Format, Named;
    var j := i - |Head(c)|;
    NamedLength(Format(c), i, k);
    TailChars(c.dir);
    NameParts(c);
    if j <= |Label(c)| {
      AfterCut(Head(c), Label(c), Tail(c.dir), j);
      NamedMoves(Format(c), i, Label(c)[j..] + Tail(c.dir), k);
    }
  }

  lemma NamedLength(s: string, i: nat, k: Counter)
    requires Named(s, i, k)
    ensures i + 27 <= |s|
  {
    hide Tail, Head;
    KindOfHead(k);
    TailChars(k.dir);
  }

  lemma NamedMoves(s: string, i: nat, t: string, k: Counter)
    requires Named(s, i, k) && s[i..] == t
    ensures Named(t, 0, k)
  {
    hide Format, Clean;
    assert t[0..] == t;
  }

  lemma AfterCut(head: string, word: string, tail: string, j: nat)
    requires j <= |word|
    ensures (head + (word + tail))[|head| + j..] == word[j..] + tail
  {
  }

  lemma NamedInSuffix(word: string, j: nat, k: Counter)
    requires j <= |word|
    ensures Closes(word[j..], 0, k) ==> Closes(word, j, k)
    ensures Named(word[j..], 0, k) ==> Named(word, j, k)
  {
    hide Clean, Head, Tail;
    assert word[j..][0..] == word[j..];
  }

  /** In a clean label nothing can be read. */
  lemma CleanIsHonest(word: string, w: string, dir: Dir, i: nat, k: Counter)
    requires Opens(word, w, dir) || Closes(word, i, k) || Named(word, i, k)
    ensures '>' in word
  {
    hide Opens, Closes, Named, Kind;
    if Opens(word, w, dir) {
      OpensArrows(word, w, dir);
    } else {
      KindArrows(word, i, k);
    }
  }

  function WithLabel(c: Counter, w: string, dir: Dir): (k: Counter)
    ensures Label(k) == w && k.dir == dir && Head(k) == Head(c)
  {
    match c case Inbound(_, _) => Inbound(w, dir) case Outbound(_, _) => Outbound(w, dir) case User(_, _) => User(w, dir)
  }

  /** Every way in which a label misleads names a counter in the name. */
  lemma MisleadingNames(c: Counter) returns (i: nat, k: Counter)
    requires Misleading(Label(c))
    ensures Named(Format(c), i, k)
  {
    hide Opens, Closes, Named, Format, Head;
    var word := Label(c);
    if w, dir :| Opens(word, w, dir) {
      i, k := 0, WithLabel(c, w, dir);
      OpeningNamed(c, k);
    } else if j: nat, o :| Closes(word, j, o) {
      i, k := |Head(c)| + j, WithLabel(o, Label(o), c.dir);
      ClosingNamed(c, j, o, k);
    } else {
      var j: nat, o :| Named(word, j, o);
      i, k := |Head(c)| + j, o;
      InnerNamed(c, j, o);
    }
  }

  lemma OpeningNamed(c: Counter, k: Counter)
    requires Opens(Label(c), Label(k), k.dir) && Head(k) == Head(c)
    ensures Named(Format(c), 0, k)
  {
    hide Clean, Head, Tail;
    var u := Rest(Label(k) + Tail(k.dir), Label(c));
    assert Format(c)[0..] == Format(k) + (u + Tail(c.dir));
  }

  lemma ClosingNamed(c: Counter, j: nat, o: Counter, k: Counter)
    requires Closes(Label(c), j, o) && Head(k) == Head(o) && Label(k) == Label(o) && k.dir == c.dir
    ensures Named(Format(c), |Head(c)| + j, k)
  {
    hide Clean, Head, Tail;
    assert Format(c)[|Head(c)| + j..] == Label(c)[j..] + Tail(c.dir) == Format(k);
  }

  lemma InnerNamed(c: Counter, j: nat, k: Counter)
    requires Named(Label(c), j, k)
    ensures Named(Format(c), |Head(c)| + j, k)
  {
    hide Clean, Head, Tail, Format;
    assert Format(c)[|Head(c)| + j..] == Label(c)[j..] + Tail(c.dir) by { NameParts(c); }
  }

  lemma NameParts(c: Counter)
    ensures Format(c) == Head(c) + (Label(c) + Tail(c.dir))
  {
  }

  // ----- The name and the counter -----

  /** The name of a counter is taken for that counter exactly when its label is not empty and holds no `>`. */
  lemma ReadsBackExactly(c: Counter)
    ensures Meant(Format(c)) == Some(c) <==> Clean(Label(c))
  {
    hide Meant, Format;
    MeantIsClean(Format(c));
    if Clean(Label(c)) {
      NamesItself(c);
      NamedMeant(Format(c), 0, c);
      var i := MeantIsNamed(Format(c));
      MeantInName(c, i);
    }
  }

  lemma NamesItself(c: Counter)
    requires Clean(Label(c))
    ensures Named(Format(c), 0, c)
  {
    hide Clean, Head, Tail;
    assert Format(c)[0..] == Format(c);
  }

  lemma NamedMeant(s: string, i: nat, c: Counter)
    requires Named(s, i, c)
    ensures Meant(s).Some?
  {
    hide FindHandler, FindUser, Named;
    NamedFound(s, i, c);
  }

  lemma MeantInName(c: Counter, i: nat)
    requires Meant(Format(c)).Some? && Named(Format(c), i, Meant(Format(c)).value)
    ensures Meant(Format(c)) != Some(c) ==> Misleading(Label(c)) && '>' in Label(c)
  {
    hide Meant, Format, Named, Closes, Opens;
    var k := Meant(Format(c)).value;
    NamedInName(c, i, k);
    if k != c {
      CleanIsHonest(Label(c), Label(k), k.dir, if i >= |Head(c)| then i - |Head(c)| else 0, k);
    }
  }

  /** It is taken for some other counter exactly when its label misleads. */
  lemma MisreadExactly(c: Counter)
    ensures Meant(Format(c)).Some? && Meant(Format(c)) != Some(c) <==> Misleading(Label(c))
  {
    hide Meant, Format, Named, Closes, Opens, Misleading;
    ReadsBackExactly(c);
    if Misleading(Label(c)) {
      var i, k := MisleadingNames(c);
      NamedMeant(Format(c), i, k);
      MisleadingHasArrow(Label(c));
    } else if Meant(Format(c)).Some? {
      var i := MeantIsNamed(Format(c));
      MeantInName(c, i);
    }
  }

  lemma MisleadingHasArrow(word: string)
    requires Misleading(word)
    ensures '>' in word
  {
    hide Named, Closes, Opens;
    if w, dir :| Opens(word, w, dir) {
      CleanIsHonest(word, w, dir, 0, User("", dir));
    } else if i: nat, c :| Closes(word, i, c) || Named(word, i, c) {
      CleanIsHonest(word, "", Uplink, i, c);
    }
  }

  /** A client whose email ends like the name of a handler is charged to that handler, with its own direction. */
  lemma UserTakenForHandler(h: Counter)
    requires !h.User? && Clean(Label(h))
    ensures Meant(Format(User(Head(h) + Label(h), h.dir))) == Some(h)
  {
    hide Meant, Format, Named, Closes, Opens, Tail;
    var c := User(Head(h) + Label(h), h.dir);
    EmailCloses(h);
    NamedMeant(Format(c), 7, h);
    var i := MeantIsNamed(Format(c));
    var k := Meant(Format(c)).value;
    NamedInName(c, i, k);
    var j: int := i;
    OnlyHandler(h, j - 7, k);
  }

  /** In the text of one handler nothing but that handler closes, opens or is named. */
  lemma OnlyHandler(h: Counter, j: int, k: Counter)
    requires !h.User? && !k.User? && Clean(Label(h))
    requires var word := Head(h) + Label(h);
             || Opens(word, Label(k), k.dir)
             || (j >= 0 && Closes(word, j, k) && k.dir == h.dir)
             || (j >= 0 && Named(word, j, k))
    ensures k == h
  {
    hide Tail, Head, Kind, Opens, Closes, Named;
    var word, n := Head(h) + Label(h), |Kind(h)|;
    KindOfHead(h);
    assert forall p :: 0 <= p < |word| && word[p] == '>' ==> n <= p < n + 3;
    if Opens(word, Label(k), k.dir) {
      OpensArrows(word, Label(k), k.dir);
    } else {
      KindArrows(word, j, k);
      if Closes(word, j, k) {
        ClosingHandler(h, j, k);
      }
    }
  }

  lemma OpensArrows(word: string, w: string, dir: Dir)
    requires Opens(word, w, dir)
    ensures |w| + 10 < |word| && word[|w|] == '>' && word[|w| + 10] == '>'
  {
    hide Tail, Clean;
    TailChars(dir);
    var u := Rest(w + Tail(dir), word);
    assert word[|w|] == Tail(dir)[0] && word[|w| + 10] == Tail(dir)[10];
  }

  lemma KindArrows(word: string, i: nat, k: Counter)
    requires Closes(word, i, k) || Named(word, i, k)
    ensures i + |Kind(k)| + 3 < |word| && word[i + |Kind(k)|] == '>' && |Kind(k)| >= 4
    ensures Named(word, i, k) ==>
              var p := i + |Kind(k)| + 3 + |Label(k)|; p < |word| && word[p] == '>'
  {
    hide Tail, Head, Kind;
    KindOfHead(k);
    TailChars(k.dir);
    var t := word[i..];
    assert t[|Kind(k)|] == (Kind(k) + ">>>")[|Kind(k)|];
    if Named(word, i, k) {
      assert t[|Head(k)| + |Label(k)|] == Tail(k.dir)[0];
    }
  }

  lemma ClosingHandler(h: Counter, j: nat, k: Counter)
    requires Closes(Head(h) + Label(h), j, k) && k.dir == h.dir && j <= |Kind(h)|
    ensures k == h
  {
    hide Plain, Head, Kind, Clean;
    KindOfHead(h);
    KindOfHead(k);
    KindCut(Kind(h), ">>>", Label(h), j);
    assert Kind(k) + ">>>" + Label(k) == Kind(k) + (">>>" + Label(k));
    SameUpToArrow(Kind(h)[j..], ">>>" + Label(h), Kind(k), ">>>" + Label(k));
    SameTail(">>>", Label(h), Label(k));
    SuffixKind(h, j, k);
    SameHead(h, k);
  }

  lemma KindCut(kind: string, arrows: string, word: string, j: nat)
    requires j <= |kind|
    ensures (kind + arrows + word)[j..] == kind[j..] + (arrows + word)
  {
  }

  lemma EmailCloses(h: Counter)
    requires Clean(Label(h))
    ensures Named(Format(User(Head(h) + Label(h), h.dir)), 7, h)
  {
    hide Clean, Tail, Kind;
    var c := User(Head(h) + Label(h), h.dir);
    assert Format(c)[7..] == Format(h);
  }

  /** A tag with an arrow in it: its counter is taken for none, and its traffic is reported nowhere. */
  lemma ArrowTagUnread()
    ensures Meant(Format(Inbound("a>b", Uplink))) == None
  {
    hide Meant, Format, Tail, Head;
    var c := Inbound("a>b", Uplink);
    ReadsBackExactly(c);
    MisreadExactly(c);
    ShortIsHonest("a>b");
  }

  /** A label that misleads has seven characters before an arrow or a whole tail. */
  lemma ShortIsHonest(word: string)
    requires |word| < 7
    ensures !Misleading(word)
  {
    hide Opens, Closes, Named, Kind;
    if Misleading(word) {
      if w, dir :| Opens(word, w, dir) {
        OpensArrows(word, w, dir);
      } else {
        var i: nat, c :| Closes(word, i, c) || Named(word, i, c);
        KindArrows(word, i, c);
      }
    }
  }

  /** A name that is taken for a counter is that counter's own name. */
  predicate Canonical(name: string) {
    Meant(name).Some? ==> name == Format(Meant(name).value)
  }

  /** Among canonical names, the one of a counter with a clean label is the one taken for it. */
  lemma CanonicalName(name: string, c: Counter)
    requires Canonical(name) && Clean(Label(c))
    ensures Meant(name) == Some(c) <==> name == Format(c)
  {
    hide Meant, Format;
    ReadsBackExactly(c);
  }

  /** A name that is not its counter's own is that of a counter whose label misleads. */
  lemma HonestIsCanonical(c: Counter)
    ensures !Misleading(Label(c)) ==> Canonical(Format(c))
  {
    hide Meant, Format, Misleading;
    MisreadExactly(c);
  }

  /** No two counters have one name. */
  lemma FormatInjective(c: Counter, d: Counter)
    requires Format(c) == Format(d)
    ensures c == d
  {
    hide Plain, Tail, Head;
    NameParts(c);
    NameParts(d);
    SameStart(c, d);
    SameHeads(c, d);
    SameTail(Head(c), Label(c) + Tail(c.dir), Label(d) + Tail(d.dir));
    SameTails(Label(c), c.dir, Label(d), d.dir);
    SameHead(c, d);
  }

  lemma SameStart(c: Counter, d: Counter)
    requires Format(c) == Format(d)
    ensures Head(c)[0] == Head(d)[0]
  {
    hide Tail;
    assert Format(c)[0] == Head(c)[0] && Format(d)[0] == Head(d)[0];
  }

  lemma SameHeads(c: Counter, d: Counter)
    requires Head(c)[0] == Head(d)[0]
    ensures Head(c) == Head(d)
  {
  }

  lemma SameTails(w: string, dir: Dir, w': string, dir': Dir)
    requires w + Tail(dir) == w' + Tail(dir')
    ensures w == w' && dir == dir'
  {
    hide Tail;
    FromTheEnd(dir);
    FromTheEnd(dir');
    var s, n := w + Tail(dir), |w + Tail(dir)|;
    assert s[n - 5] == Tail(dir)[|Tail(dir)| - 5] && s[n - 5] == Tail(dir')[|Tail(dir')| - 5];
    assert w == s[..n - |Tail(dir)|];
  }

  lemma FromTheEnd(dir: Dir)
    ensures |Tail(dir)| > 5 && Tail(dir)[|Tail(dir)| - 5] == if dir == Downlink then 'n' else 'p'
  {
  }

  /** Names as the core gives them. */
  lemma NamesRead()
    ensures Meant("inbound>>>x>>>traffic>>>downlink") == Some(Inbound("x", Downlink))
    ensures Meant("outbound>>>x>>>traffic>>>uplink") == Some(Outbound("x", Uplink))
    ensures Meant("user>>>x>>>traffic>>>uplink") == Some(User("x", Uplink))
  {
    hide Meant, Format;
    ReadsBackExactly(Inbound("x", Downlink));
    ReadsBackExactly(Outbound("x", Uplink));
    ReadsBackExactly(User("x", Uplink));
    InboundName();
    OutboundName();
    UserName();
  }

  lemma InboundName()
    ensures Format(Inbound("x", Downlink)) == "inbound>>>x>>>traffic>>>downlink"
  {
  }

  lemma OutboundName()
    ensures Format(Outbound("x", Uplink)) == "outbound>>>x>>>traffic>>>uplink"
  {
  }

  lemma UserName()
    ensures Format(User("x", Uplink)) == "user>>>x>>>traffic>>>uplink"
  {
  }
}
