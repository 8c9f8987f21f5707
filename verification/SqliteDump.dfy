/** The data part of the SQLite dump (internal/database/dump_sqlite.go): rows printed as INSERT statements, read back by
    the rules SQLite has for literals. A Go string is a sequence of bytes; each character here holds one of them. */
module SqliteDump {
  import opened Decimal
  import opened Options
  import opened Texts
  import opened Unicode

  type ByteString = s: string | forall i :: 0 <= i < |s| ==> s[i] < 256 as char witness ""
  type Int64 = n: int | -0x8000_0000_0000_0000 <= n < 0x8000_0000_0000_0000

  /** A scanned column value. */
  datatype Value = Null | Integer(n: Int64) | Flag(b: bool) | Str(s: string) | Blob(bytes: ByteString)

  const NUL: char := 0 as char

  // ----- Printing -----

  function Doubled(s: string, q: char): string {
    if s == "" then "" else (if s[0] == q then [q, q] else [s[0]]) + Doubled(s[1..], q)
  }

  function QuoteText(s: string): string {
    "'" + Doubled(s, '\'') + "'"
  }

  function Hex(s: ByteString): string {
    if s == "" then "" else [HexDigit(s[0] as int / 16), HexDigit(s[0] as int % 16)] + Hex(s[1..])
  }

  function Literal(v: Value): string {
    match v
    case Null => "NULL"
    case Integer(n) => OfInt(n)
    case Flag(b) => if b then "1" else "0"
    case Str(s) => QuoteText(s)
    case Blob(s) => if Utf8(s) then QuoteText(s) else "X'" + Hex(s) + "'"
  }

  function RowText(row: seq<Value>): string {
    if row == [] then ""
    else if |row| == 1 then Literal(row[0])
    else RowText(row[..|row| - 1]) + "," + Literal(row[|row| - 1])
  }

  function Prefix(table: string): string {
    "INSERT INTO \"" + table + "\" VALUES("
  }

  function InsertText(table: string, row: seq<Value>): string {
    Prefix(table) + RowText(row) + ");\n"
  }

  function Dump(table: string, rows: seq<seq<Value>>): string {
    if rows == [] then "" else Dump(table, rows[..|rows| - 1]) + InsertText(table, rows[|rows| - 1])
  }

  /** The row loop: one statement per row, appended to what the builder holds. */
  method DumpTableData(table: string, rows: seq<seq<Value>>, b: string) returns (script: string)
    ensures script == b + Dump(table, rows)
  {
    hide RowText, Dump, Prefix;
    var prefix := Prefix(table);
    script := b;
    DumpStep(table, rows, 0);
    assert b + "" == b;
    for k := 0 to |rows|
      invariant script == b + Dump(table, rows[..k])
    {
      ghost var before := script;
      script := WriteValues(script + prefix, rows[k]);
      script := script + ");\n";
      DumpStep(table, rows, k);
      Regroup(before, prefix, RowText(rows[k]), ");\n");
      Regroup(b, Dump(table, rows[..k]), InsertText(table, rows[k]), "");
    }
    assert rows[..|rows|] == rows;
  }

  /** The values of one row, with commas between. */
  method WriteValues(b: string, row: seq<Value>) returns (script: string)
    ensures script == b + RowText(row)
  {
    hide RowText, Literal;
    script := b;
    RowTextNone(row[..0]);
    for i := 0 to |row|
      invariant script == b + RowText(row[..i])
    {
      RowTextStep(row, i);
      Regroup(b, RowText(row[..i]), if i > 0 then "," else "", Literal(row[i]));
      if i > 0 {
        script := script + ",";
      }
      script := script + Literal(row[i]);
    }
    assert row[..|row|] == row;
  }

  lemma Regroup(a: string, b: string, c: string, d: string)
    ensures a + b + c + d == a + (b + c + d) && a + b + d == a + (b + d)
    ensures c == "" ==> a + b + c == a + b
    ensures d == "" ==> a + b + c == a + (b + c)
  {
  }

  lemma DumpStep(table: string, rows: seq<seq<Value>>, k: nat)
    requires k <= |rows|
    ensures k < |rows| ==> Dump(table, rows[..k + 1]) == Dump(table, rows[..k]) + InsertText(table, rows[k])
    ensures k == 0 ==> Dump(table, rows[..k]) == ""
  {
    hide InsertText;
    if k < |rows| {
      assert rows[..k + 1][..k] == rows[..k];
    }
  }

  lemma RowTextNone(row: seq<Value>)
    requires row == []
    ensures RowText(row) == ""
  {
  }

  lemma RowTextStep(row: seq<Value>, i: nat)
    requires i < |row|
    ensures RowText(row[..i + 1]) == RowText(row[..i]) + (if i > 0 then "," else "") + Literal(row[i])
  {
    assert row[..i + 1][..i] == row[..i];
  }

  // ----- Reading, by SQLite's rules -----

  /** A character that continues a number or a keyword. */
  predicate IdChar(c: char) {
    'a' <= c <= 'z' || 'A' <= c <= 'Z' || '0' <= c <= '9' || c == '_' || c == '$' || c as int >= 0x80
  }

  /** A quoted token after its opening quote: up to the first quote that is not doubled. The text ends at a NUL. */
  function ReadQuoted(s: string, q: char): (r: Option<(string, string)>)
    ensures r.Some? ==> |r.value.1| < |s|
  {
    if s == "" || s[0] == NUL then None
    else if s[0] != q then Prepend(s[0], ReadQuoted(s[1..], q))
    else if |s| > 1 && s[1] == q then Prepend(q, ReadQuoted(s[2..], q))
    else Some(("", s[1..]))
  }

  function Prepend(c: char, r: Option<(string, string)>): Option<(string, string)> {
    if r.Some? then Some(([c] + r.value.0, r.value.1)) else None
  }

  function HexValue(c: char): (r: Option<nat>)
    ensures r.Some? ==> r.value < 16
  {
    if '0' <= c <= '9' then Some((c - '0') as nat)
    else if 'a' <= c <= 'f' then Some((c - 'a') as nat + 10)
    else if 'A' <= c <= 'F' then Some((c - 'A') as nat + 10)
    else None
  }

  function ReadHex(s: string): (r: Option<(ByteString, string)>)
    ensures r.Some? ==> |r.value.1| < |s|
  {
    if s != "" && s[0] == '\'' then Some(("", s[1..]))
    else if |s| >= 2 && HexValue(s[0]).Some? && HexValue(s[1]).Some? && ReadHex(s[2..]).Some? then
      var c := (16 * HexValue(s[0]).value + HexValue(s[1]).value) as char;
      var r := ReadHex(s[2..]).value;
      Some(([c] + r.0, r.1))
    else None
  }

  /** The digits s starts with. */
  function Digits(s: string): (n: nat)
    ensures n <= |s| && forall i :: 0 <= i < n ==> IsDigit(s[i])
  {
    if s == "" || !IsDigit(s[0]) then 0 else 1 + Digits(s[1..])
  }

  predicate EndsToken(s: string) {
    s == "" || !(IdChar(s[0]) || s[0] == '.')
  }

  /** An integer literal; one too large for 64 bits would be read as a float. */
  function ReadInteger(s: string, negative: bool): (r: Option<(Value, string)>)
    ensures r.Some? ==> |r.value.1| < |s|
  {
    var n := Digits(s);
    if n == 0 || !EndsToken(s[n..]) then None
    else
      var m: int := ToNat(s[..n]);
      if negative && m <= 0x8000_0000_0000_0000 then Some((Integer(-m), s[n..]))
      else if !negative && m < 0x8000_0000_0000_0000 then Some((Integer(m), s[n..]))
      else None
  }

  function ReadLiteral(s: string): (r: Option<(Value, string)>)
    ensures r.Some? ==> |r.value.1| < |s|
  {
    if s == "" then None
    else if s[0] == '\'' then
      match ReadQuoted(s[1..], '\'') case None => None case Some(r) => Some((Str(r.0), r.1))
    else if (s[0] == 'X' || s[0] == 'x') && |s| > 1 && s[1] == '\'' then
      match ReadHex(s[2..]) case None => None case Some(r) => Some((Blob(r.0), r.1))
    else if s[0] == '-' then ReadInteger(s[1..], true)
    else if IsDigit(s[0]) then ReadInteger(s, false)
    else if "NULL" <= s && EndsToken(s[4..]) then Some((Null, s[4..]))
    else None
  }

  function ReadRow(s: string): (r: Option<(seq<Value>, string)>)
    ensures r.Some? ==> |r.value.1| < |s|
    decreases |s|
  {
    match ReadLiteral(s)
    case None => None
    case Some(v) =>
      if v.1 != "" && v.1[0] == ')' then Some(([v.0], v.1[1..]))
      else if v.1 != "" && v.1[0] == ',' then
        match ReadRow(v.1[1..]) case None => None case Some(r) => Some(([v.0] + r.0, r.1))
      else None
  }

  datatype Insert = Insert(table: string, row: seq<Value>)

  function ReadInsert(s: string): (r: Option<(Insert, string)>)
    ensures r.Some? ==> |r.value.1| < |s|
  {
    var head, middle, end := "INSERT INTO \"", " VALUES(", ";\n";
    if !(head <= s) then None
    else
      match ReadQuoted(s[|head|..], '"')
      case None => None
      case Some(t) =>
        if !(middle <= t.1) then None
        else
          match ReadRow(t.1[|middle|..])
          case None => None
          case Some(r) => if end <= r.1 then Some((Insert(t.0, r.0), r.1[|end|..])) else None
  }

  function ReadScript(s: string): Option<seq<Insert>>
    decreases |s|
  {
    if s == "" then Some([])
    else
      match ReadInsert(s)
      case None => None
      case Some(i) => match ReadScript(i.1) case None => None case Some(rest) => Some([i.0] + rest)
  }

  // ----- What comes back -----

  /** A value as SQLite keeps it: truth values are integers, and text is text whichever Go type it had. */
  function Stored(v: Value): Value {
    match v
    case Flag(b) => Integer(if b then 1 else 0)
    case Blob(s) => if Utf8(s) then Str(s) else v
    case _ => v
  }

  function StoredRow(row: seq<Value>): (r: seq<Value>)
    ensures |r| == |row| && forall i :: 0 <= i < |r| ==> r[i] == Stored(row[i])
  {
    if row == [] then [] else [Stored(row[0])] + StoredRow(row[1..])
  }

  /** Printed as text and holding a NUL, which ends the script inside the literal. */
  predicate Cut(v: Value) {
    (v.Str? && NUL in v.s) || (v.Blob? && Utf8(v.bytes) && NUL in v.bytes)
  }

  predicate Uncut(row: seq<Value>) {
    forall i :: 0 <= i < |row| ==> !Cut(row[i])
  }

  lemma QuotedStep(c: char, u: string, q: char)
    requires q != NUL
    ensures c != q ==> ReadQuoted([c] + u, q) == if c == NUL then None else Prepend(c, ReadQuoted(u, q))
    ensures ReadQuoted([q, q] + u, q) == Prepend(q, ReadQuoted(u, q))
    ensures (u == "" || u[0] != q) ==> ReadQuoted([q] + u, q) == Some(("", u))
  {
    assert ([c] + u)[1..] == u && ([q, q] + u)[2..] == u && ([q] + u)[1..] == u;
  }

  lemma DoubledStep(t: string, q: char, r: string)
    ensures t != "" ==> Doubled(t, q) + r == (if t[0] == q then [q, q] else [t[0]]) + (Doubled(t[1..], q) + r)
    ensures t == "" ==> Doubled(t, q) == ""
  {
  }

  lemma {:induction false} QuotedReadsBack(t: string, q: char, rest: string)
    requires q != NUL && (rest == "" || rest[0] != q)
    ensures ReadQuoted(Doubled(t, q) + ([q] + rest), q) == if NUL in t then None else Some((t, rest))
  {
    hide ReadQuoted, Doubled;
    if t == "" {
      DoubledStep(t, q, "");
      assert "" + ([q] + rest) == [q] + rest;
      QuotedStep(q, rest, q);
    } else {
      DoubledStep(t, q, [q] + rest);
      QuotedStep(t[0], Doubled(t[1..], q) + ([q] + rest), q);
      QuotedReadsBack(t[1..], q, rest);
      assert t == [t[0]] + t[1..];
    }
  }

  lemma HexDigitReadsBack(n: nat)
    requires n < 16
    ensures HexValue(HexDigit(n)) == Some(n) && HexDigit(n) != '\''
  {
  }

  lemma {:induction false} HexReadsBack(b: ByteString, rest: string)
    ensures ReadHex(Hex(b) + ("'" + rest)) == Some((b, rest))
  {
    hide HexDigit, HexValue;
    var s := Hex(b) + ("'" + rest);
    if b == "" {
      assert s == "'" + rest;
    } else {
      var c := b[0] as int;
      var u := Hex(b[1..]) + ("'" + rest);
      HexReadsBack(b[1..], rest);
      HexDigitReadsBack(c / 16);
      HexDigitReadsBack(c % 16);
      assert s == [HexDigit(c / 16), HexDigit(c % 16)] + u;
      assert s[2..] == u;
      assert b == [b[0]] + b[1..];
    }
  }

  predicate AtDelimiter(rest: string) {
    rest != "" && (rest[0] == ',' || rest[0] == ')')
  }

  lemma {:induction false} DigitsOf(d: string, rest: string)
    requires (forall i :: 0 <= i < |d| ==> IsDigit(d[i])) && AtDelimiter(rest)
    ensures Digits(d + rest) == |d|
  {
    if d == "" {
      assert d + rest == rest;
    } else {
      DigitsOf(d[1..], rest);
      assert (d + rest)[1..] == d[1..] + rest;
    }
  }

  lemma IntegerReadsBack(n: nat, negative: bool, rest: string)
    requires AtDelimiter(rest) && if negative then n <= 0x8000_0000_0000_0000 else n < 0x8000_0000_0000_0000
    ensures ReadInteger(OfNat(n) + rest, negative) == Some((Integer(if negative then 0 - n else n), rest))
  {
    hide OfNat, ToNat, Digits;
    var d := OfNat(n);
    DigitsOf(d, rest);
    NatRoundTrip(n);
    assert (d + rest)[..|d|] == d && (d + rest)[|d|..] == rest;
  }

  /** A literal ends exactly where it was meant to, and means the stored value; only a NUL spoils it. */
  lemma LiteralReadsBack(v: Value, rest: string)
    requires AtDelimiter(rest)
    ensures ReadLiteral(Literal(v) + rest) == if Cut(v) then None else Some((Stored(v), rest))
  {
    hide ReadQuoted, Doubled, ReadHex, Hex, ReadInteger, OfNat, Utf8;
    match v
    case Null =>
      assert "NULL" + rest == ['N'] + ("ULL" + rest) && ("NULL" + rest)[4..] == rest;
    case Integer(n) =>
      IntegerLiteralReadsBack(n, rest);
    case Flag(b) =>
      OneDigit();
      IntegerLiteralReadsBack(if b then 1 else 0, rest);
    case Str(s) =>
      TextReadsBack(s, rest);
    case Blob(s) =>
      if Utf8(s) {
        TextReadsBack(s, rest);
      } else {
        HexReadsBack(s, rest);
        Reassociate("X'", Hex(s), "'");
        Reassociate("X'", Hex(s) + "'", rest);
        Reassociate(Hex(s), "'", rest);
      }
  }

  lemma OneDigit()
    ensures OfNat(0) == "0" && OfNat(1) == "1"
  {
  }

  lemma TextReadsBack(s: string, rest: string)
    requires AtDelimiter(rest)
    ensures ReadLiteral(QuoteText(s) + rest) == if NUL in s then None else Some((Str(s), rest))
  {
    hide ReadQuoted, Doubled, ReadHex, ReadInteger;
    QuotedReadsBack(s, '\'', rest);
    assert QuoteText(s) + rest == "'" + (Doubled(s, '\'') + ("'" + rest));
  }

  lemma IntegerLiteralReadsBack(n: Int64, rest: string)
    requires AtDelimiter(rest)
    ensures ReadLiteral(OfInt(n) + rest) == Some((Integer(n), rest))
  {
    hide ReadQuoted, ReadHex, ReadInteger, OfNat;
    var m: int := n;
    if m < 0 {
      IntegerReadsBack(-m, true, rest);
      assert OfInt(m) + rest == "-" + (OfNat(-m) + rest);
    } else {
      IntegerReadsBack(n, false, rest);
      assert IsDigit(OfNat(n)[0]);
    }
  }

  // ----- Rows, statements, scripts -----

  lemma {:induction false} RowTextFront(row: seq<Value>)
    requires |row| >= 2
    ensures RowText(row) == Literal(row[0]) + ("," + RowText(row[1..]))
  {
    hide Literal;
    var n := |row| - 1;
    if n > 1 {
      RowTextFront(row[..n]);
      assert row[..n][1..] == row[1..][..n - 1];
    } else {
      assert row[..n] == [row[0]] && row[1..] == [row[1]];
    }
  }

  lemma {:induction false} RowReadsBack(row: seq<Value>, rest: string)
    requires row != []
    ensures ReadRow(RowText(row) + (")" + rest)) == if Uncut(row) then Some((StoredRow(row), rest)) else None
    decreases |row|
  {
    hide ReadLiteral, Literal, Stored, Cut, ReadRow, RowText, StoredRow;
    StoredRowStep(row);
    UncutStep(row);
    if |row| == 1 {
      LiteralReadsBack(row[0], ")" + rest);
      NextValue(Literal(row[0]) + (")" + rest), rest);
      RowTextOne(row);
    } else {
      var tail := RowText(row[1..]) + (")" + rest);
      RowTextFront(row);
      assert Literal(row[0]) + ("," + RowText(row[1..])) + (")" + rest) == Literal(row[0]) + ("," + tail);
      LiteralReadsBack(row[0], "," + tail);
      NextValue(Literal(row[0]) + ("," + tail), tail);
      RowReadsBack(row[1..], rest);
    }
  }

  lemma RowTextOne(row: seq<Value>)
    requires |row| == 1
    ensures RowText(row) == Literal(row[0])
  {
  }

  lemma StoredRowStep(row: seq<Value>)
    requires row != []
    ensures StoredRow(row) == [Stored(row[0])] + StoredRow(row[1..])
    ensures |row| == 1 ==> StoredRow(row) == [Stored(row[0])]
  {
  }

  lemma UncutStep(row: seq<Value>)
    requires row != []
    ensures Uncut(row) <==> !Cut(row[0]) && Uncut(row[1..])
  {
    assert row == [row[0]] + row[1..];
  }

  lemma NextValue(s: string, tail: string)
    ensures ReadLiteral(s) == None ==> ReadRow(s) == None
    ensures ReadLiteral(s).Some? && ReadLiteral(s).value.1 == ")" + tail ==>
              ReadRow(s) == Some(([ReadLiteral(s).value.0], tail))
    ensures ReadLiteral(s).Some? && ReadLiteral(s).value.1 == "," + tail ==>
              ReadRow(s) == match ReadRow(tail)
                            case None => None
                            case Some(r) => Some(([ReadLiteral(s).value.0] + r.0, r.1))
  {
    hide ReadLiteral;
    assert ("," + tail)[1..] == tail && (")" + tail)[1..] == tail;
  }

  /** A table name the script can carry: it is printed between double quotes as it is. */
  predicate PlainName(table: string) {
    '"' !in table && NUL !in table
  }

  lemma {:induction false} PlainUndoubled(table: string)
    requires '"' !in table
    ensures Doubled(table, '"') == table
  {
    if table != "" {
      PlainUndoubled(table[1..]);
    }
  }

  lemma InsertReadsBack(table: string, row: seq<Value>, rest: string)
    requires PlainName(table) && row != []
    ensures InsertText(table, row) + rest != ""
    ensures ReadInsert(InsertText(table, row) + rest)
            == if Uncut(row) then Some((Insert(table, StoredRow(row)), rest)) else None
  {
    hide ReadQuoted, Doubled, ReadRow, RowText, Uncut, StoredRow;
    var head, middle, end := "INSERT INTO \"", " VALUES(", ";\n";
    var s := InsertText(table, row) + rest;
    var afterRow := end + rest;
    var afterTable := middle + (RowText(row) + (")" + afterRow));
    PlainUndoubled(table);
    QuotedReadsBack(table, '"', afterTable);
    RowReadsBack(row, afterRow);
    assert s == head + (table + (['"'] + afterTable));
    assert s[|head|..] == table + (['"'] + afterTable);
    assert afterTable[|middle|..] == RowText(row) + (")" + afterRow);
    assert afterRow[|end|..] == rest;
  }

  lemma {:induction false} DumpFront(table: string, rows: seq<seq<Value>>)
    ensures Dump(table, rows) == if rows == [] then "" else InsertText(table, rows[0]) + Dump(table, rows[1..])
  {
    hide Dump, InsertText;
    var n := |rows| - 1;
    assert rows[..|rows|] == rows;
    if rows == [] {
      DumpStep(table, rows, 0);
    } else {
      DumpStep(table, rows, n);
      if n > 0 {
        var tail := rows[1..];
        DumpFront(table, rows[..n]);
        assert rows[..n][1..] == tail[..n - 1] && rows[..n][0] == rows[0] && tail[..n] == tail;
        DumpStep(table, tail, n - 1);
        Regroup(InsertText(table, rows[0]), Dump(table, tail[..n - 1]), InsertText(table, rows[n]), "");
      } else {
        assert rows[..n] == [] && rows[1..] == rows[..n];
        DumpStep(table, rows, n);
        assert "" + InsertText(table, rows[0]) == InsertText(table, rows[0]) + "";
      }
    }
  }

  /** The statements a faithful reader finds in the dump of a table. */
  function Inserts(table: string, rows: seq<seq<Value>>): (r: seq<Insert>)
    ensures |r| == |rows| && forall k :: 0 <= k < |r| ==> r[k] == Insert(table, StoredRow(rows[k]))
  {
    if rows == [] then [] else [Insert(table, StoredRow(rows[0]))] + Inserts(table, rows[1..])
  }

  predicate AllUncut(rows: seq<seq<Value>>) {
    forall k :: 0 <= k < |rows| ==> Uncut(rows[k])
  }

  /** The script reads back as the stored rows, in order, exactly when no printed text holds a NUL. */
  lemma {:induction false} DumpReadsBack(table: string, rows: seq<seq<Value>>)
    requires PlainName(table) && forall k :: 0 <= k < |rows| ==> rows[k] != []
    ensures ReadScript(Dump(table, rows)) == if AllUncut(rows) then Some(Inserts(table, rows)) else None
    decreases |rows|
  {
    hide ReadInsert, InsertText, Dump, Uncut, StoredRow;
    if rows == [] {
      DumpFront(table, rows);
    } else {
      DumpFront(table, rows);
      InsertReadsBack(table, rows[0], Dump(table, rows[1..]));
      DumpReadsBack(table, rows[1..]);
      assert AllUncut(rows) <==> Uncut(rows[0]) && AllUncut(rows[1..]) by {
        assert rows == [rows[0]] + rows[1..];
      }
    }
  }

  /** A text with a NUL in it makes the script unreadable from there on. */
  lemma NulCutsScript(before: seq<seq<Value>>, after: seq<seq<Value>>)
    requires forall k :: 0 <= k < |before| ==> before[k] != []
    requires forall k :: 0 <= k < |after| ==> after[k] != []
    ensures ReadScript(Dump("t", before + [[Str([NUL])]] + after)) == None
  {
    hide ReadScript, Dump;
    var row := [Str([NUL])];
    var rows := before + [row] + after;
    assert rows[|before|] == row && Cut(row[0]);
    DumpReadsBack("t", rows);
  }

  /** Values the dump preserves as they are. */
  predicate Preserved(v: Value) {
    v.Null? || v.Integer? || (v.Str? && NUL !in v.s) || (v.Blob? && !Utf8(v.bytes))
  }

  /** The very rows come back exactly when every value is NULL, an integer, NUL-free text or a blob that is not text. */
  lemma RowsPreservedExactly(table: string, rows: seq<seq<Value>>)
    requires PlainName(table) && forall k :: 0 <= k < |rows| ==> rows[k] != []
    ensures ReadScript(Dump(table, rows)) == Some(seq(|rows|, k requires 0 <= k < |rows| => Insert(table, rows[k])))
            <==> forall k, i :: 0 <= k < |rows| && 0 <= i < |rows[k]| ==> Preserved(rows[k][i])
  {
    hide ReadScript, Dump, Preserved, Stored, Cut, PlainName;
    DumpReadsBack(table, rows);
    var all := seq(|rows|, k requires 0 <= k < |rows| => Insert(table, rows[k]));
    forall v: Value ensures Preserved(v) <==> !Cut(v) && Stored(v) == v {
      PreservedMeans(v);
    }
    if forall k, i :: 0 <= k < |rows| && 0 <= i < |rows[k]| ==> Preserved(rows[k][i]) {
      forall k | 0 <= k < |rows| ensures StoredRow(rows[k]) == rows[k] {
      }
      assert Inserts(table, rows) == all;
    } else if AllUncut(rows) {
      var k, i :| 0 <= k < |rows| && 0 <= i < |rows[k]| && !Preserved(rows[k][i]);
      assert Uncut(rows[k]);
      assert StoredRow(rows[k])[i] != rows[k][i];
      assert Inserts(table, rows)[k] != all[k];
    }
  }

  lemma PreservedMeans(v: Value)
    ensures Preserved(v) <==> !Cut(v) && Stored(v) == v
  {
  }
}
