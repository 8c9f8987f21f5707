/** The writer that turns mtg's output stream into log lines (internal/mtproto/process.go): the stream arrives in
    chunks cut anywhere, and each line is trimmed, dropped when blank, logged and remembered. */
module LogWriter {
  import opened Bytes

  // ----- Lines of a text -----

  /** The position of the first newline, or the length of the text. */
  function Newline(s: Text): (i: nat)
    ensures i <= |s| && NEWLINE !in s[..i] && (i < |s| ==> s[i] == NEWLINE)
  {
    if s == [] || s[0] == NEWLINE then 0
    else
      var i := 1 + Newline(s[1..]);
      assert s[..i] == [s[0]] + s[1..][..i - 1];
      i
  }

  /** All newline-separated pieces, the unterminated last one included. */
  function Pieces(s: Text): (r: seq<Text>)
    ensures r != []
  {
    var i := Newline(s);
    if i == |s| then [s] else [s[..i]] + Pieces(s[i + 1..])
  }

  function Joined(pieces: seq<Text>): Text {
    if pieces == [] then []
    else if |pieces| == 1 then pieces[0]
    else pieces[0] + [NEWLINE] + Joined(pieces[1..])
  }

  /** Pieces are the one way to write a text as newline-free parts with newlines between. */
  lemma {:induction false} PiecesJoin(s: Text)
    ensures Joined(Pieces(s)) == s && forall k :: 0 <= k < |Pieces(s)| ==> NEWLINE !in Pieces(s)[k]
  {
    var i := Newline(s);
    if i < |s| {
      PiecesJoin(s[i + 1..]);
      assert Pieces(s)[1..] == Pieces(s[i + 1..]);
      assert s == s[..i] + [s[i]] + s[i + 1..];
    } else {
      assert s[..i] == s;
    }
  }

  lemma {:induction false} PiecesUnique(pieces: seq<Text>)
    requires pieces != [] && forall k :: 0 <= k < |pieces| ==> NEWLINE !in pieces[k]
    ensures Pieces(Joined(pieces)) == pieces
  {
    var s, i := Joined(pieces), |pieces[0]|;
    if |pieces| == 1 {
      NewlineAt(s, i);
    } else {
      assert s[..i] == pieces[0];
      NewlineAt(s, i);
      assert s[i + 1..] == Joined(pieces[1..]);
      PiecesUnique(pieces[1..]);
    }
  }

  lemma {:induction false} NewlineAt(s: Text, i: nat)
    requires i <= |s| && NEWLINE !in s[..i] && (i < |s| ==> s[i] == NEWLINE)
    ensures Newline(s) == i
  {
    if s != [] && i > 0 {
      assert s[..i] == [s[0]] + s[1..][..i - 1];
      NewlineAt(s[1..], i - 1);
    }
  }

  function Front(pieces: seq<Text>): seq<Text>
    requires pieces != []
  {
    pieces[..|pieces| - 1]
  }

  function Tail(pieces: seq<Text>): Text
    requires pieces != []
  {
    pieces[|pieces| - 1]
  }

  /** Where a stream is cut does not matter: only the unfinished piece meets what comes next. */
  lemma {:induction false} PiecesConcat(a: Text, b: Text)
    ensures Pieces(a + b) == Front(Pieces(a)) + Pieces(Tail(Pieces(a)) + b)
  {
    hide Pieces, Newline;
    var i := Newline(a);
    if i < |a| {
      var p := Pieces(a[i + 1..]);
      assert (a + b)[..i] == a[..i] && (a + b)[i + 1..] == a[i + 1..] + b;
      NewlineAt(a + b, i);
      FirstPiece(a);
      FirstPiece(a + b);
      PiecesConcat(a[i + 1..], b);
      assert Front(Pieces(a)) == [a[..i]] + Front(p);
      assert [a[..i]] + (Front(p) + Pieces(Tail(p) + b)) == [a[..i]] + Front(p) + Pieces(Tail(p) + b);
    } else {
      FirstPiece(a);
      assert Front([a]) == [] && [] + Pieces(a + b) == Pieces(a + b);
    }
  }

  lemma FirstPiece(s: Text)
    ensures Pieces(s) == if Newline(s) == |s| then [s] else [s[..Newline(s)]] + Pieces(s[Newline(s) + 1..])
  {
    hide Newline;
  }

  // ----- The lines that reach the log -----

  function Trimmed(line: Text): Text {
    TrimSpace(TrimReturns(line))
  }

  function Loggable(pieces: seq<Text>): seq<Text> {
    if pieces == [] then []
    else if Trimmed(pieces[0]) == [] then Loggable(pieces[1..])
    else [Trimmed(pieces[0])] + Loggable(pieces[1..])
  }

  lemma {:induction false} LoggableConcat(a: seq<Text>, b: seq<Text>)
    ensures Loggable(a + b) == Loggable(a) + Loggable(b)
  {
    hide Trimmed;
    if a == [] {
      assert a + b == b;
    } else {
      assert (a + b)[1..] == a[1..] + b;
      LoggableConcat(a[1..], b);
    }
  }

  // ----- The writer's state -----

  /** buf is the unfinished line; logged is everything passed to the log. */
  datatype LogState = LogState(buf: Text, lastLine: Text, logged: seq<Text>)

  const FRESH := LogState([], [], [])

  function LastOr(lines: seq<Text>, otherwise: Text): Text {
    if lines == [] then otherwise else lines[|lines| - 1]
  }

  function Logging(st: LogState, pieces: seq<Text>): LogState {
    st.(lastLine := LastOr(Loggable(pieces), st.lastLine), logged := st.logged + Loggable(pieces))
  }

  function Written(st: LogState, p: Text): LogState {
    var pieces := Pieces(st.buf + p);
    Logging(st, Front(pieces)).(buf := Tail(pieces))
  }

  function Flushed(st: LogState): LogState {
    Logging(st, [st.buf]).(buf := [])
  }

  function WriteAll(st: LogState, chunks: seq<Text>): LogState
    decreases |chunks|
  {
    if chunks == [] then st else WriteAll(Written(st, chunks[0]), chunks[1..])
  }

  function Concat(chunks: seq<Text>): Text {
    if chunks == [] then [] else chunks[0] + Concat(chunks[1..])
  }

  lemma LoggingTwice(st: LogState, a: seq<Text>, b: seq<Text>)
    ensures Logging(Logging(st, a), b) == Logging(st, a + b)
  {
    hide Loggable;
    LoggableConcat(a, b);
    assert st.logged + Loggable(a) + Loggable(b) == st.logged + (Loggable(a) + Loggable(b));
  }

  /** Two writes are one write of both chunks. */
  lemma WriteTwice(st: LogState, p: Text, q: Text)
    ensures Written(Written(st, p), q) == Written(st, p + q)
  {
    hide Pieces, Loggable;
    var a := Pieces(st.buf + p);
    var b := Pieces(Tail(a) + q);
    PiecesConcat(st.buf + p, q);
    assert st.buf + p + q == st.buf + (p + q);
    assert Front(Front(a) + b) == Front(a) + Front(b);
    LoggingTwice(st, Front(a), Front(b));
  }

  lemma {:induction false} WriteAllOnce(st: LogState, chunks: seq<Text>)
    requires chunks != []
    ensures WriteAll(st, chunks) == Written(st, Concat(chunks))
    decreases |chunks|
  {
    hide Written;
    if |chunks| == 1 {
      assert chunks[0] + [] == chunks[0];
      assert WriteAll(Written(st, chunks[0]), chunks[1..]) == Written(st, chunks[0]);
      assert Concat(chunks[1..]) == [];
    } else {
      WriteAllOnce(Written(st, chunks[0]), chunks[1..]);
      WriteTwice(st, chunks[0], Concat(chunks[1..]));
    }
  }

  /**
   However the stream is cut: between writes the buffer is the newline-free unfinished line, and after the flush the
   log holds the trimmed non-blank lines of the whole stream in order, the last of which is remembered.
   */
  lemma ChunkingIrrelevant(chunks: seq<Text>)
    ensures var st := WriteAll(FRESH, chunks);
            && st.buf == Tail(Pieces(Concat(chunks))) && NEWLINE !in st.buf
            && st.logged == Loggable(Front(Pieces(Concat(chunks))))
            && Flushed(st).logged == Loggable(Pieces(Concat(chunks)))
            && st.lastLine == LastOr(st.logged, []) && Flushed(st).lastLine == LastOr(Flushed(st).logged, [])
  {
    hide Loggable, WriteAll, Pieces, Logging, Front, Tail;
    var p := Pieces(Concat(chunks));
    WriteAllFresh(chunks);
    PiecesJoin(Concat(chunks));
    TailIsPiece(p);
    LoggingTwice(FRESH, Front(p), [Tail(p)]);
    LoggingFresh(Front(p));
    LoggingFresh(p);
    FlushAfter(Logging(FRESH, Front(p)), Tail(p));
  }

  lemma WriteAllFresh(chunks: seq<Text>)
    ensures var p := Pieces(Concat(chunks)); WriteAll(FRESH, chunks) == Logging(FRESH, Front(p)).(buf := Tail(p))
  {
    hide Loggable, Logging;
    var s := Concat(chunks);
    EmptyPieces();
    LoggingFresh([]);
    if chunks != [] {
      hide WriteAll;
      WriteAllOnce(FRESH, chunks);
      assert [] + s == s;
    }
  }

  lemma LoggingFresh(pieces: seq<Text>)
    ensures Logging(FRESH, pieces) == LogState([], LastOr(Loggable(pieces), []), Loggable(pieces))
    ensures Logging(FRESH, []) == FRESH
  {
    assert [] + Loggable(pieces) == Loggable(pieces);
  }

  lemma TailIsPiece(p: seq<Text>)
    requires p != []
    ensures Front(p) + [Tail(p)] == p && p[|p| - 1] == Tail(p)
  {
  }

  lemma FlushAfter(st: LogState, buf: Text)
    ensures Flushed(st.(buf := buf)) == Logging(st, [buf]).(buf := [])
  {
  }

  lemma EmptyPieces()
    ensures Pieces([]) == [[]] && Front(Pieces([])) == [] && Loggable([]) == [] && Loggable([[]]) == []
  {
    var one: seq<Text> := [[]];
    assert one[1..] == [];
    assert TrimReturns([]) == [] && TrimLeft([]) == [] && TrimRight([]) == [];
  }

  /** What a logged line is: what is left of a line when all the white space is cut off its ends. */
  lemma {:induction false} LoggedLines(pieces: seq<Text>, k: nat)
    requires k < |Loggable(pieces)|
    ensures exists j, pre, post :: 0 <= j < |pieces| && LoggedFrom(pieces[j], Loggable(pieces)[k], pre, post)
  {
    hide Trimmed, LoggedFrom;
    var t := Trimmed(pieces[0]);
    if t != [] && k == 0 {
      var pre, post := TrimmedFrom(pieces[0]);
      assert LoggedFrom(pieces[0], Loggable(pieces)[k], pre, post);
    } else {
      var rest := pieces[1..];
      LoggedLines(rest, if t == [] then k else k - 1);
      var j, pre, post :| 0 <= j < |rest| && LoggedFrom(rest[j], Loggable(pieces)[k], pre, post);
      assert pieces[j + 1] == rest[j];
    }
  }

  predicate LoggedFrom(line: Text, logged: Text, pre: Text, post: Text) {
    && line == pre + logged + post && AllSpace(pre) && AllSpace(post)
    && logged != [] && SpaceAtFront(logged) == 0 && SpaceAtBack(logged) == 0
  }

  lemma TrimmedFrom(line: Text) returns (pre: Text, post: Text)
    requires Trimmed(line) != []
    ensures LoggedFrom(line, Trimmed(line), pre, post)
  {
    ReturnsAbsorbed(line);
    pre, post := TrimMeaning(line);
  }

  /** A further line is logged, trimmed, unless it is made of white space; nothing else is dropped or added. */
  lemma LineLogged(pieces: seq<Text>, line: Text)
    ensures Loggable([]) == [] && Loggable(pieces + [line]) == Loggable(pieces) + if AllSpace(line) then [] else [Trimmed(line)]
  {
    BlankDropped(line);
    LoggableConcat(pieces, [line]);
    hide Trimmed;
  }

  /** A line is dropped exactly when it is made of white space. */
  lemma BlankDropped(line: Text)
    ensures Trimmed(line) == [] <==> AllSpace(line)
  {
    hide TrimReturns, TrimSpace, AllSpace;
    ReturnsAbsorbed(line);
    if Trimmed(line) == [] {
      var pre, post := TrimMeaning(line);
      assert line == pre + post;
      AllSpaceConcat(pre, post);
    } else if AllSpace(line) {
      TrimAllSpace(line);
    }
  }

  lemma TrimAllSpace(line: Text)
    requires AllSpace(line)
    ensures TrimSpace(line) == []
  {
    TrimLeftAllSpace(line);
  }

  lemma {:induction false} TrimLeftAllSpace(line: Text)
    requires AllSpace(line)
    ensures TrimLeft(line) == []
  {
    if line != [] {
      TrimLeftAllSpace(line[SpaceAtFront(line)..]);
    }
  }

  // ----- The class -----

  class ProcLogWriter {
    var buf: Text
    var lastLine: Text
    var logged: seq<Text>

    constructor ()
      ensures Abs() == FRESH
    {
      buf, lastLine, logged := [], [], [];
    }

    function Abs(): LogState
      reads this
    {
      LogState(buf, lastLine, logged)
    }

    method Write(p: Text) returns (n: nat)
      modifies this
      ensures Abs() == Written(old(Abs()), p) && n == |p|
    {
      hide Loggable;
      ghost var pieces := Pieces(buf + p);
      ghost var done: seq<Text> := [];
      ghost var st := Abs();
      buf := buf + p;
      EmptyPieces();
      assert st.logged + [] == st.logged;
      while true
        invariant pieces == done + Pieces(buf)
        invariant Abs() == Logging(st, done).(buf := buf)
        decreases |buf|
      {
        var i := Newline(buf);
        if i == |buf| {
          break;
        }
        var line := buf[..i];
        ghost var rest := Pieces(buf[i + 1..]);
        assert done + ([line] + rest) == (done + [line]) + rest;
        LoggingTwice(st, done, [line]);
        buf := buf[i + 1..];
        Emit(line);
        done := done + [line];
      }
      return |p|;
    }

    method Flush()
      modifies this
      ensures Abs() == Flushed(old(Abs()))
    {
      if buf != [] {
        var line := buf;
        buf := [];
        Emit(line);
      } else {
        EmptyPieces();
      }
    }

    method Emit(line: Text)
      modifies this
      ensures Abs() == Logging(old(Abs()), [line])
    {
      hide TrimSpace, TrimReturns;
      var trimmed := TrimSpace(TrimReturns(line));
      assert [line][1..] == [];
      assert Loggable([line]) == if trimmed == [] then [] else [trimmed];
      if trimmed == [] {
        return;
      }
      lastLine := trimmed;
      logged := logged + [trimmed];
    }

    method LastLine() returns (line: Text)
      ensures line == lastLine
    {
      return lastLine;
    }
  }

}
