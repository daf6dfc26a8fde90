/**
  How the server reads back what the dump writes: a reader for the INSERT
  statements of the dump, following MySQL's rules for double-quoted string
  literals (the "String Literals" section of the MySQL Reference Manual).

  The reader is an independent definition of what the encoding of
  `MySQLBkp::backupTables` means. The round-trip lemmas show that every
  value, row and page comes back unchanged, so the encoding loses nothing.
 */
module SqlReader {
  import opened Optional
  import opened PhpStrings
  import opened Seqs
  import opened Backup

  /** The text a backslash escape `\c` stands for inside a quoted literal.
      `\%` and `\_` keep their backslash; any other unlisted `\c` is `c`. */
  function Unescape(c: char): string {
    if c == '0' then "\0"
    else if c == 'b' then "\U{0008}"
    else if c == 'n' then "\n"
    else if c == 'r' then "\r"
    else if c == 't' then "\t"
    else if c == 'Z' then "\U{001A}"
    else if c == '%' || c == '_' then ['\\', c]
    else [c]
  }

  /** The body of a double-quoted literal whose opening quote is already
      read: the value, and what follows the closing quote. A doubled quote
      stands for one quote; a literal without its closing quote is an error. */
  function ReadQuoted(s: string): (r: Option<(string, string)>)
    ensures r.Some? ==> |r.value.1| < |s|
    decreases |s|
  {
    if |s| == 0 then None
    else if s[0] == '\\' then
      if |s| == 1 then None
      else match ReadQuoted(s[2..])
        case None => None
        case Some((v, rest)) => Some((Unescape(s[1]) + v, rest))
    else if s[0] == '"' then
      if |s| >= 2 && s[1] == '"' then
        match ReadQuoted(s[2..])
        case None => None
        case Some((v, rest)) => Some(("\"" + v, rest))
      else Some(("", s[1..]))
    else match ReadQuoted(s[1..])
      case None => None
      case Some((v, rest)) => Some(([s[0]] + v, rest))
  }

  /** A column value: the bare word NULL, or a double-quoted literal. */
  function ReadValue(s: string): (r: Option<(Option<string>, string)>)
    ensures r.Some? ==> |r.value.1| < |s|
  {
    if StartsWith(s, "NULL") then Some((None, s[4..]))
    else if |s| > 0 && s[0] == '"' then
      match ReadQuoted(s[1..])
      case None => None
      case Some((v, rest)) => Some((Some(v), rest))
    else None
  }

  /** One or more values separated by commas. */
  function ReadFields(s: string): (r: Option<(Row, string)>)
    ensures r.Some? ==> |r.value.1| < |s|
    decreases |s|
  {
    match ReadValue(s)
    case None => None
    case Some((v, rest)) =>
      if |rest| > 0 && rest[0] == ',' then
        match ReadFields(rest[1..])
        case None => None
        case Some((vs, rest')) => Some(([v] + vs, rest'))
      else Some(([v], rest))
  }

  /** One parenthesised tuple, possibly empty. */
  function ReadTuple(s: string): (r: Option<(Row, string)>)
    ensures r.Some? ==> |r.value.1| < |s|
  {
    if |s| >= 2 && s[0] == '(' && s[1] == ')' then Some(([], s[2..]))
    else if |s| > 0 && s[0] == '(' then
      match ReadFields(s[1..])
      case None => None
      case Some((row, rest)) =>
        if |rest| > 0 && rest[0] == ')' then Some((row, rest[1..])) else None
    else None
  }

  /** One or more tuples separated by commas. */
  function ReadTuples(s: string): (r: Option<(seq<Row>, string)>)
    ensures r.Some? ==> |r.value.1| < |s|
    decreases |s|
  {
    match ReadTuple(s)
    case None => None
    case Some((row, rest)) =>
      if |rest| > 0 && rest[0] == ',' then
        match ReadTuples(rest[1..])
        case None => None
        case Some((rows, rest')) => Some(([row] + rows, rest'))
      else Some(([row], rest))
  }

  /** The rows of an INSERT statement into table `t`, or None when the text
      is not one. */
  function DecodeInsert(t: string, s: string): Option<seq<Row>> {
    var prefix := "INSERT INTO `" + t + "` VALUES ";
    if StartsWith(s, prefix) then
      match ReadTuples(s[|prefix|..])
      case None => None
      case Some((rows, rest)) => if rest == ";" then Some(rows) else None
    else None
  }

  /** Reading the escape of one byte gives the byte back. */
  lemma QuotedStep(c: char, tail: string, v: string, rest: string)
    requires ReadQuoted(tail) == Some((v, rest))
    ensures ReadQuoted(EscapeChar(c) + tail) == Some(([c] + v, rest))
  {
    var s := EscapeChar(c) + tail;
    if c == '\n' {
      assert s == ['\\', 'n'] + tail;
      assert s[2..] == tail;
    } else if c == '\0' {
      assert s == ['\\', '0'] + tail;
      assert s[2..] == tail;
    } else if NeedsSlash(c) {
      assert s == ['\\', c] + tail;
      assert s[2..] == tail;
    } else {
      assert s == [c] + tail;
      assert s[1..] == tail;
    }
  }

  /** An escaped value followed by a closing quote reads back as the value,
      whatever follows the quote (unless a second quote would double it). */
  lemma {:induction false} QuotedRoundTrip(v: string, rest: string)
    requires rest == "" || rest[0] != '"'
    ensures ReadQuoted(Escape(v) + "\"" + rest) == Some((v, rest))
    decreases |v|
  {
    if |v| == 0 {
      assert Escape(v) == "";
      assert ("" + "\"" + rest)[1..] == rest;
    } else {
      var c, w := v[0], v[1..];
      assert v == [c] + w;
      EscapeCons(c, w);
      QuotedRoundTrip(w, rest);
      var tail := Escape(w) + "\"" + rest;
      assert Escape(v) + "\"" + rest == EscapeChar(c) + tail;
      QuotedStep(c, tail, w, rest);
    }
  }

  /** The escape is injective: two values with the same escape are equal. */
  lemma EscapeInjective(a: string, b: string)
    requires Escape(a) == Escape(b)
    ensures a == b
  {
    QuotedRoundTrip(a, "");
    QuotedRoundTrip(b, "");
  }

  /** An encoded value reads back as itself. */
  lemma ValueRoundTrip(v: Option<string>, rest: string)
    requires rest == "" || rest[0] != '"'
    ensures ReadValue(EncodeValue(v) + rest) == Some((v, rest))
  {
    if v.None? {
      NullRoundTrip(rest);
    } else {
      QuotedRoundTrip(v.value, rest);
      StringValue(v.value, rest);
    }
  }

  lemma NullRoundTrip(rest: string)
    ensures ReadValue("NULL" + rest) == Some((None, rest))
  {
    var s := "NULL" + rest;
    assert s[..4] == "NULL" && s[4..] == rest;
  }

  /** A quoted value is read by `ReadQuoted` after its opening quote. */
  lemma StringValue(v: string, rest: string)
    ensures var s := EncodeValue(Some(v)) + rest;
      |s| > 0 && s[0] == '"' && !StartsWith(s, "NULL") && s[1..] == Escape(v) + "\"" + rest
  {
    var s := EncodeValue(Some(v)) + rest;
    assert s == "\"" + (Escape(v) + "\"" + rest);
  }

  /** A value, a comma, and then more fields. */
  lemma FieldsStep(v: Option<string>, tail: string, row: Row, rest: string)
    requires ReadFields(tail) == Some((row, rest))
    ensures ReadFields(EncodeValue(v) + ("," + tail)) == Some(([v] + row, rest))
  {
    ValueRoundTrip(v, "," + tail);
    assert ("," + tail)[1..] == tail;
  }

  /** The `$fields` of a non-empty row, joined by commas, read back as the row. */
  lemma {:induction false} FieldsRoundTrip(row: Row, rest: string)
    requires |row| >= 1
    requires rest == "" || (rest[0] != ',' && rest[0] != '"')
    ensures ReadFields(Implode(",", EncodeFields(row)) + rest) == Some((row, rest))
    decreases |row|
  {
    var fs := EncodeFields(row);
    if |row| == 1 {
      ValueRoundTrip(row[0], rest);
      assert Implode(",", fs) == EncodeValue(row[0]);
      assert row == [row[0]];
    } else {
      EncodeTails(row, []);
      var tail := Implode(",", fs[1..]) + rest;
      FieldsRoundTrip(row[1..], rest);
      FieldsStep(row[0], tail, row[1..], rest);
      ImplodeCons(",", fs, rest);
      HeadTail(row);
    }
  }

  /** An encoded row reads back as itself, whatever follows it. */
  lemma TupleRoundTrip(row: Row, rest: string)
    ensures ReadTuple(EncodeRow(row) + rest) == Some((row, rest))
  {
    var s := EncodeRow(row) + rest;
    if |row| == 0 {
      assert s[..2] == "()" && s[2..] == rest;
    } else {
      var inner := Implode(",", EncodeFields(row));
      FieldsRoundTrip(row, ")" + rest);
      assert s == "(" + (inner + (")" + rest));
      assert s[1..] == inner + (")" + rest);
      EncodedValueShape(row[0]);
      assert EncodeFields(row)[0] == EncodeValue(row[0]);
      assert |row| > 1 ==> inner == EncodeValue(row[0]) + "," + Implode(",", EncodeFields(row)[1..]);
      assert inner[0] == 'N' || inner[0] == '"';
      assert (")" + rest)[1..] == rest;
    }
  }

  /** A tuple, a comma, and then more tuples. */
  lemma TuplesStep(row: Row, tail: string, rows: seq<Row>, rest: string)
    requires ReadTuples(tail) == Some((rows, rest))
    ensures ReadTuples(EncodeRow(row) + ("," + tail)) == Some(([row] + rows, rest))
  {
    TupleRoundTrip(row, "," + tail);
    assert ("," + tail)[1..] == tail;
  }

  /** The `$registers` of a non-empty page, joined by commas, read back as the page. */
  lemma {:induction false} TuplesRoundTrip(rows: seq<Row>, rest: string)
    requires |rows| >= 1
    requires rest == "" || rest[0] != ','
    ensures ReadTuples(Implode(",", EncodeRows(rows)) + rest) == Some((rows, rest))
    decreases |rows|
  {
    var rs := EncodeRows(rows);
    if |rows| == 1 {
      TupleRoundTrip(rows[0], rest);
      assert Implode(",", rs) == EncodeRow(rows[0]);
      assert rows == [rows[0]];
    } else {
      EncodeTails([], rows);
      var tail := Implode(",", rs[1..]) + rest;
      TuplesRoundTrip(rows[1..], rest);
      TuplesStep(rows[0], tail, rows[1..], rest);
      ImplodeCons(",", rs, rest);
      HeadTail(rows);
    }
  }

  /** The INSERT statement of a non-empty page reads back as exactly that page,
      rows and columns in order. */
  lemma InsertRoundTrip(t: string, rows: seq<Row>)
    requires |rows| >= 1
    ensures DecodeInsert(t, InsertStatement(t, rows)) == Some(rows)
  {
    var prefix := "INSERT INTO `" + t + "` VALUES ";
    var body := Implode(",", EncodeRows(rows));
    var s := InsertStatement(t, rows);
    assert s == prefix + (body + ";");
    assert s[..|prefix|] == prefix && s[|prefix|..] == body + ";";
    TuplesRoundTrip(rows, ";");
  }

  /** Two non-empty pages with the same INSERT statement are the same page. */
  lemma InsertInjective(t: string, a: seq<Row>, b: seq<Row>)
    requires |a| >= 1 && |b| >= 1
    requires InsertStatement(t, a) == InsertStatement(t, b)
    ensures a == b
  {
    InsertRoundTrip(t, a);
    InsertRoundTrip(t, b);
  }
}
