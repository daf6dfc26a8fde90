/**
  Both engines together: what the restore loop of `MySQLRestore` does with
  a script written by `MySQLBkp::backupTables`.

  Read line by line, the dump hands the server, for each table in order,
  its DROP statement, its CREATE statement (the lines of the server's text
  trimmed and glued together) and one INSERT per non-empty page. The
  CREATE DATABASE and USE lines at the top never reach the server: the
  comment flag starts up and is only lowered by the close of the first
  table's comment block. Read back, the INSERTs of a table give its rows.
 */
module DumpReplay {
  import opened Optional
  import opened PhpStrings
  import opened Seqs
  import opened Backup
  import opened SqlReader
  import opened Restore

  // ---------------------------------------------------------------------
  // Names and schema texts the lemmas are stated for

  /** The line naming the table in its comment block does not, once
      trimmed, end in `*` `/` itself, which would close the block early. */
  predicate NameLineOpen(t: string) {
    !ClosesBlock(Trim(NameLine(t) + "\n"))
  }

  /** A table whose text the restore reads back as the dump meant it: its
      name holds no newline and does not close its comment block, and its
      CREATE text reads as one statement. */
  predicate ReplayableTable(t: string, create: string) {
    '\n' !in t && NameLineOpen(t) && SchemaReplays(create)
  }

  /** Any name whose last byte is neither a trim character nor `/` keeps the
      comment open: `order-items`, `t1`, `Straße` all do. */
  lemma NameLineOpenWhen(t: string)
    requires |t| > 0 && !IsTrimChar(t[|t| - 1]) && t[|t| - 1] != '/'
    ensures NameLineOpen(t)
  {
    var x := "* " + t;
    assert " " + x + " \n" == NameLine(t) + "\n";
    TrimAround(" ", x, " \n");
    assert x[|x| - 1] == t[|t| - 1];
    assert x[|x| - 2..][1] == x[|x| - 1];
  }

  /** A name ending in `*` `/` closes its own comment block. */
  lemma ClosingName(t: string)
    requires |t| >= 2 && t[|t| - 2..] == "*/"
    ensures !NameLineOpen(t)
  {
    var x := "* " + t;
    assert " " + x + " \n" == NameLine(t) + "\n";
    TrimAround(" ", x, " \n");
    assert x[|x| - 2..] == t[|t| - 2..];
  }

  /** A line that changes nothing but the buffer: blank, or a code line that
      does not end a statement. */
  predicate Inert(raw: string) {
    |Trim(raw)| <= 1 || (IsCode(false, raw) && !Terminates(Trim(raw)))
  }

  /** The lines of a CREATE text once the dump has put `;` after it. */
  function SchemaLines(create: string): seq<string> {
    FileLines(create + ";\n")
  }

  /** Lines the restore reads as one statement: inert lines, then one code
      line that ends in `;`. */
  predicate OneStatement(ls: seq<string>)
    decreases |ls|
  {
    && |ls| >= 1
    && if |ls| == 1 then IsCode(false, ls[0]) && Terminates(Trim(ls[0]))
       else Inert(ls[0]) && OneStatement(ls[1..])
  }

  /** A CREATE text the restore reads as one statement: no line of it starts
      a comment or ends in `;`, and its last line is not blank. */
  predicate SchemaReplays(create: string) {
    OneStatement(SchemaLines(create))
  }

  /** The CREATE statement the restore hands the server: the lines of the
      text, trimmed, blank ones dropped, glued together. */
  function JoinedCreate(create: string): string {
    Concat(CodeLines(false, SchemaLines(create)))
  }

  // ---------------------------------------------------------------------
  // Splitting the dump into lines

  /** One whole line as `fgets` returns it: its only newline is its last byte. */
  predicate IsLine(x: string) {
    |x| > 0 && x[|x| - 1] == '\n' && forall j | 0 <= j < |x| - 1 :: x[j] != '\n'
  }

  lemma MakeLine(x: string)
    requires '\n' !in x
    ensures IsLine(x + "\n")
  {
    var s := x + "\n";
    forall j | 0 <= j < |s| - 1 ensures s[j] != '\n' {
      assert s[j] == x[j];
    }
  }

  /** A whole line, then the rest of the text. */
  lemma LineThen(x: string, rest: string)
    requires IsLine(x)
    ensures FileLines(x + rest) == [x] + FileLines(rest)
  {
    LineEndPrefix(x, rest);
    assert LineEnd(x) == |x|;
    var s := x + rest;
    assert s[..|x|] == x;
    assert s[|x|..] == rest;
  }

  /** Five whole lines, then the rest of the text. */
  lemma FiveLines(a: string, b: string, c: string, d: string, e: string, rest: string)
    requires IsLine(a) && IsLine(b) && IsLine(c) && IsLine(d) && IsLine(e)
    ensures FileLines(a + (b + (c + (d + (e + rest))))) == [a, b, c, d, e] + FileLines(rest)
  {
    LineThen(e, rest);
    LineThen(d, e + rest);
    LineThen(c, d + (e + rest));
    LineThen(b, c + (d + (e + rest)));
    LineThen(a, b + (c + (d + (e + rest))));
    ConsFive(a, b, c, d, e, FileLines(rest));
  }

  /** A text that ends with a newline or is empty. */
  predicate EndsLine(s: string) {
    s == "" || s[|s| - 1] == '\n'
  }

  lemma EndsLineAppend(a: string, b: string)
    requires EndsLine(a) && EndsLine(b)
    ensures EndsLine(a + b)
  {
    if b == "" {
      assert a + b == a;
    }
  }

  lemma {:induction false} ConcatEndsLine(xs: seq<string>)
    requires forall i | 0 <= i < |xs| :: EndsLine(xs[i])
    ensures EndsLine(Concat(xs))
  {
    if |xs| > 0 {
      ConcatEndsLine(xs[1..]);
      EndsLineAppend(xs[0], Concat(xs[1..]));
    }
  }

  // ---------------------------------------------------------------------
  // Reading lines whose effect is known

  /** Reading one line whose effect is known, then the rest. */
  lemma Step(sc: Scanner, line: string, rest: seq<string>, f: Fed, p: Parsed)
    requires Feed(sc, line) == f
    requires Reassemble(f.next, rest) == p
    ensures Reassemble(sc, [line] + rest)
      == Parsed(p.final, (if f.stmt.Some? then [f.stmt.value] else []) + p.stmts)
  {
    assert ([line] + rest)[0] == line;
    assert ([line] + rest)[1..] == rest;
  }

  /** A line that hands the server nothing, then the rest. */
  lemma Quiet(sc: Scanner, line: string, rest: seq<string>, next: Scanner, p: Parsed)
    requires Feed(sc, line) == Fed(next, None)
    requires Reassemble(next, rest) == p
    ensures Reassemble(sc, [line] + rest) == p
  {
    Step(sc, line, rest, Fed(next, None), p);
    assert [] + p.stmts == p.stmts;
  }

  /** A line that completes statement `st`, then the rest. */
  lemma Emits(sc: Scanner, line: string, rest: seq<string>, next: Scanner, st: string, p: Parsed)
    requires Feed(sc, line) == Fed(next, Some(st))
    requires Reassemble(next, rest) == p
    ensures Reassemble(sc, [line] + rest) == Parsed(p.final, [st] + p.stmts)
  {
    Step(sc, line, rest, Fed(next, Some(st)), p);
  }

  /** Two runs of lines whose effects are known, one after the other. */
  lemma Compose(sc: Scanner, a: seq<string>, b: seq<string>, p: Parsed, q: Parsed)
    requires Reassemble(sc, a) == p
    requires Reassemble(p.final, b) == q
    ensures Reassemble(sc, a + b) == Parsed(q.final, p.stmts + q.stmts)
  {
    ReassembleAppend(sc, a, b);
  }

  /** A statement written on a line of its own: trimming gives it back, and
      it is not read as a comment or the end of one. */
  lemma StatementLine(x: string)
    requires |x| > 1 && x[0] != '/' && !IsTrimChar(x[0]) && x[|x| - 1] == ';'
    ensures Trim(x + "\n") == x
    ensures !OpensBlock(x) && !LineComment(x) && !ClosesBlock(x) && Terminates(x)
  {
    TrimAround("", x, "\n");
    assert "" + x + "\n" == x + "\n";
  }

  lemma FeedBlank(sc: Scanner)
    ensures Feed(sc, "\n") == Fed(sc, None)
  {
    assert Trim("\n") == "";
  }

  // ---------------------------------------------------------------------
  // The header

  function CreateDatabaseLine(db: string): string {
    "CREATE DATABASE IF NOT EXISTS `" + db + "`;"
  }

  function UseLine(db: string): string {
    "USE `" + db + "`;"
  }

  lemma HeaderText(db: string)
    requires '\n' !in db
    ensures FileLines(Header(db)) == [CreateDatabaseLine(db) + "\n", "\n", UseLine(db) + "\n", "\n"]
  {
    var c, u := CreateDatabaseLine(db) + "\n", UseLine(db) + "\n";
    MakeLine(CreateDatabaseLine(db));
    MakeLine(UseLine(db));
    assert IsLine("\n");
    assert Header(db) == c + ("\n" + (u + ("\n" + "")));
    LineThen("\n", "");
    LineThen(u, "\n" + "");
    LineThen("\n", u + ("\n" + ""));
    LineThen(c, "\n" + (u + ("\n" + "")));
    assert FileLines("") == [];
    ConsFour(c, "\n", u, "\n", []);
    assert [c, "\n", u, "\n"] + [] == [c, "\n", u, "\n"];
  }

  /** A statement line read while the flag is up is part of the comment. */
  lemma FeedSwallowed(x: string)
    requires |x| > 1 && x[0] != '/' && !IsTrimChar(x[0]) && x[|x| - 1] == ';'
    ensures Feed(Start, x + "\n") == Fed(Start, None)
  {
    StatementLine(x);
  }

  /** Two statement lines, each followed by a blank line, read while the
      flag is up, reach nobody. */
  lemma StatementsSwallowed(c: string, u: string)
    requires |c| > 1 && c[0] != '/' && !IsTrimChar(c[0]) && c[|c| - 1] == ';'
    requires |u| > 1 && u[0] != '/' && !IsTrimChar(u[0]) && u[|u| - 1] == ';'
    ensures Reassemble(Start, [c + "\n", "\n", u + "\n", "\n"]) == Parsed(Start, [])
  {
    var none := Fed(Start, None);
    var p := Parsed(Start, []);
    FeedSwallowed(c);
    FeedSwallowed(u);
    FeedBlank(Start);
    Step(Start, "\n", [], none, p);
    Step(Start, u + "\n", ["\n"], none, p);
    Step(Start, "\n", [u + "\n", "\n"], none, p);
    Step(Start, c + "\n", ["\n", u + "\n", "\n"], none, p);
  }

  /** The header never reaches the server, and leaves the flag up. */
  lemma HeaderSwallowed(db: string)
    requires '\n' !in db
    ensures Reassemble(Start, FileLines(Header(db))) == Parsed(Start, [])
  {
    HeaderText(db);
    StatementsSwallowed(CreateDatabaseLine(db), UseLine(db));
  }

  // ---------------------------------------------------------------------
  // A table's head

  function NameLine(t: string): string {
    " * " + t + " "
  }

  /** The comment block naming the table, the DROP, and a blank line. */
  function HeadLines(t: string): seq<string> {
    ["/**\n", NameLine(t) + "\n", " */\n", DropStatement(t) + "\n", "\n"]
  }

  lemma TableHeadPieces(t: string, create: string)
    ensures TableHead(t, create)
      == "/**\n" + ((NameLine(t) + "\n") + (" */\n" + ((DropStatement(t) + "\n") + ("\n" + (create + ";\n" + "\n")))))
  {
  }

  lemma TableHeadText(t: string, create: string)
    requires '\n' !in t
    ensures FileLines(TableHead(t, create)) == HeadLines(t) + (SchemaLines(create) + ["\n"])
  {
    var n, d := NameLine(t) + "\n", DropStatement(t) + "\n";
    MakeLine(NameLine(t));
    MakeLine(DropStatement(t));
    assert IsLine("/**\n") && IsLine(" */\n") && IsLine("\n");
    TableHeadPieces(t, create);
    SchemaTail(create);
    FiveLines("/**\n", n, " */\n", d, "\n", create + ";\n" + "\n");
  }

  /** The CREATE statement's lines, then the blank line after it. */
  lemma SchemaTail(create: string)
    ensures FileLines(create + ";\n" + "\n") == SchemaLines(create) + ["\n"]
  {
    FileLinesAppend(create + ";\n", "\n");
    LineThen("\n", "");
    assert "\n" + "" == "\n";
    assert FileLines("") == [];
  }

  lemma FeedOpen(flag: bool)
    ensures Feed(Scanner(flag, ""), "/**\n") == Fed(Scanner(true, ""), None)
  {
    TrimAround("", "/**", "\n");
    assert "" + "/**" + "\n" == "/**\n";
  }

  lemma FeedName(t: string)
    requires NameLineOpen(t)
    ensures Feed(Scanner(true, ""), NameLine(t) + "\n") == Fed(Scanner(true, ""), None)
  {
    InsideComment(NameLine(t) + "\n");
  }

  /** Inside a block comment, a line that does not close it changes nothing. */
  lemma InsideComment(raw: string)
    requires !ClosesBlock(Trim(raw))
    ensures Feed(Scanner(true, ""), raw) == Fed(Scanner(true, ""), None)
  {
  }

  lemma FeedClose()
    ensures Feed(Scanner(true, ""), " */\n") == Fed(Scanner(false, ""), None)
  {
    TrimAround(" ", "*/", "\n");
    assert " " + "*/" + "\n" == " */\n";
  }

  lemma FeedDrop(t: string)
    ensures Feed(Scanner(false, ""), DropStatement(t) + "\n") == Fed(Scanner(false, ""), Some(DropStatement(t)))
  {
    var d := DropStatement(t);
    StatementLine(d);
    assert "" + d == d;
  }

  /** The blank line after a statement. */
  lemma BlankReplays(sc: Scanner)
    ensures Reassemble(sc, ["\n"]) == Parsed(sc, [])
  {
    FeedBlank(sc);
    Step(sc, "\n", [], Fed(sc, None), Parsed(sc, []));
    assert ["\n"] + [] == ["\n"];
  }

  /** The comment block naming the table, whatever the flag before it,
      lowers the flag and hands the server nothing. */
  lemma CommentBlock(flag: bool, t: string, rest: seq<string>, p: Parsed)
    requires NameLineOpen(t)
    requires Reassemble(Scanner(false, ""), rest) == p
    ensures Reassemble(Scanner(flag, ""), ["/**\n"] + ([NameLine(t) + "\n"] + ([" */\n"] + rest))) == p
  {
    var up := Scanner(true, "");
    FeedOpen(flag);
    FeedName(t);
    FeedClose();
    Quiet(up, " */\n", rest, Scanner(false, ""), p);
    Quiet(up, NameLine(t) + "\n", [" */\n"] + rest, up, p);
    Quiet(Scanner(flag, ""), "/**\n", [NameLine(t) + "\n"] + ([" */\n"] + rest), up, p);
  }

  /** The DROP line and the blank line after it. */
  lemma DropReplays(t: string)
    ensures Reassemble(Scanner(false, ""), [DropStatement(t) + "\n"] + ["\n"])
      == Parsed(Scanner(false, ""), [DropStatement(t)])
  {
    var down, d := Scanner(false, ""), DropStatement(t);
    FeedDrop(t);
    BlankReplays(down);
    Emits(down, d + "\n", ["\n"], down, d, Parsed(down, []));
    assert [d] + [] == [d];
  }

  /** The comment block, whatever the flag before it, then the DROP. */
  lemma HeadReplays(flag: bool, t: string)
    requires NameLineOpen(t)
    ensures Reassemble(Scanner(flag, ""), HeadLines(t)) == Parsed(Scanner(false, ""), [DropStatement(t)])
  {
    var l1, d := NameLine(t) + "\n", DropStatement(t) + "\n";
    DropReplays(t);
    assert ["\n"] + [] == ["\n"];
    CommentBlock(flag, t, [d] + (["\n"] + []), Parsed(Scanner(false, ""), [DropStatement(t)]));
    ConsFive("/**\n", l1, " */\n", d, "\n", []);
    assert ["/**\n", l1, " */\n", d, "\n"] + [] == HeadLines(t);
  }

  // ---------------------------------------------------------------------
  // The CREATE text

  /** A code line read with the flag down: appended to the buffer, and the
      buffer handed over when the line ends in `;`. */
  lemma FeedCode(buffer: string, l: string)
    requires IsCode(false, l)
    ensures Feed(Scanner(false, buffer), l)
      == if Terminates(Trim(l)) then Fed(Scanner(false, ""), Some(buffer + Trim(l)))
         else Fed(Scanner(false, buffer + Trim(l)), None)
  {
  }

  /** The code lines of a script that begins with a line that leaves the flag down. */
  lemma CodeLinesCons(l: string, rest: seq<string>)
    requires !NextFlag(false, l)
    ensures CodeLines(false, [l] + rest)
      == (if IsCode(false, l) then [Trim(l)] else []) + CodeLines(false, rest)
  {
    assert ([l] + rest)[0] == l;
    assert ([l] + rest)[1..] == rest;
  }

  /** The last line of a CREATE text hands the server the buffer and itself. */
  lemma SchemaLast(buffer: string, l: string)
    requires IsCode(false, l) && Terminates(Trim(l))
    ensures Reassemble(Scanner(false, buffer), [l]) == Parsed(Scanner(false, ""), [buffer + Trim(l)])
    ensures CodeLines(false, [l]) == [Trim(l)]
  {
    var down := Scanner(false, "");
    FeedCode(buffer, l);
    Emits(Scanner(false, buffer), l, [], down, buffer + Trim(l), Parsed(down, []));
    CodeLinesCons(l, []);
    assert [l] + [] == [l];
    assert [buffer + Trim(l)] + [] == [buffer + Trim(l)];
    assert [Trim(l)] + [] == [Trim(l)];
  }

  /** A code line of a CREATE text that does not end it joins the buffer. */
  lemma SchemaCode(buffer: string, l: string, rest: seq<string>, p: Parsed)
    requires IsCode(false, l) && !Terminates(Trim(l))
    requires Reassemble(Scanner(false, buffer + Trim(l)), rest) == p
    ensures Reassemble(Scanner(false, buffer), [l] + rest) == p
    ensures CodeLines(false, [l] + rest) == [Trim(l)] + CodeLines(false, rest)
  {
    FeedCode(buffer, l);
    Quiet(Scanner(false, buffer), l, rest, Scanner(false, buffer + Trim(l)), p);
    CodeLinesCons(l, rest);
  }

  /** A blank line of a CREATE text changes nothing. */
  lemma SchemaBlank(buffer: string, l: string, rest: seq<string>, p: Parsed)
    requires |Trim(l)| <= 1
    requires Reassemble(Scanner(false, buffer), rest) == p
    ensures Reassemble(Scanner(false, buffer), [l] + rest) == p
    ensures CodeLines(false, [l] + rest) == CodeLines(false, rest)
  {
    Quiet(Scanner(false, buffer), l, rest, Scanner(false, buffer), p);
    CodeLinesCons(l, rest);
    assert [] + CodeLines(false, rest) == CodeLines(false, rest);
  }

  /** A buffer, then code lines glued together. */
  lemma JoinStep(buffer: string, x: string, code: seq<string>)
    ensures buffer + Concat([x] + code) == (buffer + x) + Concat(code)
  {
    assert ([x] + code)[0] == x;
    assert ([x] + code)[1..] == code;
  }

  lemma SchemaOne(buffer: string, ls: seq<string>)
    requires |ls| == 1 && IsCode(false, ls[0]) && Terminates(Trim(ls[0]))
    ensures Reassemble(Scanner(false, buffer), ls)
      == Parsed(Scanner(false, ""), [buffer + Concat(CodeLines(false, ls))])
  {
    var l := ls[0];
    assert ls == [l];
    SchemaLast(buffer, l);
    assert Concat([Trim(l)]) == Trim(l) + Concat([]);
    assert Trim(l) + "" == Trim(l);
  }

  /** Inert lines gather in the buffer; the last line completes the statement. */
  lemma {:induction false} SchemaRun(buffer: string, ls: seq<string>)
    requires OneStatement(ls)
    ensures Reassemble(Scanner(false, buffer), ls)
      == Parsed(Scanner(false, ""), [buffer + Concat(CodeLines(false, ls))])
    decreases |ls|
  {
    if |ls| == 1 {
      SchemaOne(buffer, ls);
    } else {
      var l, rest := ls[0], ls[1..];
      assert ls == [l] + rest;
      var code := CodeLines(false, rest);
      if |Trim(l)| <= 1 {
        SchemaRun(buffer, rest);
        SchemaBlank(buffer, l, rest, Parsed(Scanner(false, ""), [buffer + Concat(code)]));
      } else {
        var b := buffer + Trim(l);
        SchemaRun(b, rest);
        SchemaCode(buffer, l, rest, Parsed(Scanner(false, ""), [b + Concat(code)]));
        JoinStep(buffer, Trim(l), code);
      }
    }
  }

  /** The CREATE text reaches the server as one statement. */
  lemma SchemaReplaysOnce(create: string)
    requires SchemaReplays(create)
    ensures Reassemble(Scanner(false, ""), SchemaLines(create))
      == Parsed(Scanner(false, ""), [JoinedCreate(create)])
  {
    SchemaRun("", SchemaLines(create));
    assert "" + JoinedCreate(create) == JoinedCreate(create);
  }

  // ---------------------------------------------------------------------
  // The INSERT statements

  /** What each of a sequence of pages adds to the script. */
  function Chunks(t: string, pages: seq<seq<Row>>): (r: seq<string>)
    ensures |r| == |pages|
    ensures forall i | 0 <= i < |r| :: r[i] == InsertChunk(t, pages[i])
  {
    seq(|pages|, i requires 0 <= i < |pages| => InsertChunk(t, pages[i]))
  }

  /** The INSERT statements of the non-empty pages, in order. */
  function Inserts(t: string, pages: seq<seq<Row>>): seq<string> {
    if |pages| == 0 then []
    else (if |pages[0]| > 0 then [InsertStatement(t, pages[0])] else []) + Inserts(t, pages[1..])
  }

  lemma ChunksOfPages(t: string, rows: seq<Row>)
    ensures PageChunks(t, rows) == Chunks(t, Pages(rows))
  {
  }

  /** The line of a page's INSERT completes a statement on its own. */
  lemma FeedInsert(t: string, page: seq<Row>)
    requires '\n' !in t && |page| > 0
    ensures Feed(Scanner(false, ""), InsertStatement(t, page) + "\n")
      == Fed(Scanner(false, ""), Some(InsertStatement(t, page)))
  {
    var s := InsertStatement(t, page);
    InsertSingleLine(t, page);
    assert s[0] == 'I' && s[|s| - 1] == ';';
    StatementLine(s);
    assert "" + s == s;
  }

  lemma ChunkText(t: string, page: seq<Row>, rest: string)
    requires '\n' !in t && |page| > 0
    ensures FileLines(InsertChunk(t, page) + rest)
      == [InsertStatement(t, page) + "\n"] + (["\n"] + FileLines(rest))
  {
    var s := InsertStatement(t, page);
    InsertSingleLine(t, page);
    MakeLine(s);
    assert IsLine("\n");
    assert InsertChunk(t, page) + rest == s + "\n" + ("\n" + rest);
    LineThen("\n", rest);
    LineThen(s + "\n", "\n" + rest);
  }

  /** Each non-empty page's INSERT reaches the server as it was written. */
  lemma {:induction false} ChunksReplay(t: string, pages: seq<seq<Row>>)
    requires '\n' !in t
    ensures Reassemble(Scanner(false, ""), FileLines(Concat(Chunks(t, pages))))
      == Parsed(Scanner(false, ""), Inserts(t, pages))
  {
    if |pages| == 0 {
      assert Concat(Chunks(t, pages)) == "";
    } else {
      var rest := Concat(Chunks(t, pages[1..]));
      var later := Inserts(t, pages[1..]);
      ChunksCons(t, pages);
      ChunksReplay(t, pages[1..]);
      if |pages[0]| > 0 {
        InsertReplays(t, pages[0], rest, later);
      } else {
        assert InsertChunk(t, pages[0]) + rest == rest;
        assert [] + later == later;
      }
    }
  }

  /** The chunks and the INSERTs of a list of pages: the first page's, then the rest's. */
  lemma ChunksCons(t: string, pages: seq<seq<Row>>)
    requires |pages| > 0
    ensures Concat(Chunks(t, pages)) == InsertChunk(t, pages[0]) + Concat(Chunks(t, pages[1..]))
    ensures Inserts(t, pages)
      == (if |pages[0]| > 0 then [InsertStatement(t, pages[0])] else []) + Inserts(t, pages[1..])
  {
    var cs := Chunks(t, pages);
    assert cs[1..] == Chunks(t, pages[1..]);
  }

  /** A non-empty page's INSERT line and blank line, then lines that yield `later`. */
  lemma InsertReplays(t: string, page: seq<Row>, rest: string, later: seq<string>)
    requires '\n' !in t && |page| > 0
    requires Reassemble(Scanner(false, ""), FileLines(rest)) == Parsed(Scanner(false, ""), later)
    ensures Reassemble(Scanner(false, ""), FileLines(InsertChunk(t, page) + rest))
      == Parsed(Scanner(false, ""), [InsertStatement(t, page)] + later)
  {
    ChunkText(t, page, rest);
    FeedInsert(t, page);
    StatementThenBlank(InsertStatement(t, page), FileLines(rest), later);
  }

  /** A statement on a line of its own and a blank line, then lines that yield `later`. */
  lemma StatementThenBlank(s: string, restLines: seq<string>, later: seq<string>)
    requires Feed(Scanner(false, ""), s + "\n") == Fed(Scanner(false, ""), Some(s))
    requires Reassemble(Scanner(false, ""), restLines) == Parsed(Scanner(false, ""), later)
    ensures Reassemble(Scanner(false, ""), [s + "\n"] + (["\n"] + restLines))
      == Parsed(Scanner(false, ""), [s] + later)
  {
    var down := Scanner(false, "");
    FeedBlank(down);
    Quiet(down, "\n", restLines, down, Parsed(down, later));
    Emits(down, s + "\n", ["\n"] + restLines, down, s, Parsed(down, later));
  }

  /** Statements as the dump lays them out: each followed by a blank line. */
  function Terminated(stmts: seq<string>): seq<string> {
    seq(|stmts|, i requires 0 <= i < |stmts| => stmts[i] + "\n\n")
  }

  lemma TerminatedCons(x: string, xs: seq<string>)
    ensures Concat(Terminated([x] + xs)) == (x + "\n\n") + Concat(Terminated(xs))
  {
    var ts := Terminated([x] + xs);
    assert ts == [x + "\n\n"] + Terminated(xs);
    ConcatCons(x + "\n\n", Terminated(xs));
  }

  /** The chunks of a list of pages are the INSERTs of the non-empty pages,
      in order, each followed by a blank line: an empty page writes nothing. */
  lemma {:induction false} ChunksAreInserts(t: string, pages: seq<seq<Row>>)
    ensures Concat(Chunks(t, pages)) == Concat(Terminated(Inserts(t, pages)))
  {
    if |pages| == 0 {
      assert Concat(Chunks(t, pages)) == "";
    } else {
      var later := Inserts(t, pages[1..]);
      ChunksCons(t, pages);
      ChunksAreInserts(t, pages[1..]);
      if |pages[0]| > 0 {
        TerminatedCons(InsertStatement(t, pages[0]), later);
      } else {
        assert [] + later == later;
        assert "" + Concat(Chunks(t, pages[1..])) == Concat(Chunks(t, pages[1..]));
      }
    }
  }

  /** What the page loop writes for a table: the INSERT of each non-empty
      page, in page order, each followed by a blank line, and nothing else. */
  lemma PageChunksAreInserts(t: string, rows: seq<Row>)
    ensures Concat(PageChunks(t, rows)) == Concat(Terminated(Inserts(t, Pages(rows))))
  {
    ChunksOfPages(t, rows);
    ChunksAreInserts(t, Pages(rows));
  }

  // ---------------------------------------------------------------------
  // Whole tables and the whole dump

  /** What the restore hands the server for one table. */
  function TableStatements(t: string, create: string, rows: seq<Row>): seq<string> {
    [DropStatement(t)] + ([JoinedCreate(create)] + Inserts(t, Pages(rows)))
  }

  lemma TableTextEndsLine(t: string, create: string, rows: seq<Row>)
    ensures EndsLine(TableText(t, create, rows))
  {
    var h := TableHead(t, create);
    assert h[|h| - 1] == '\n';
    var cs := PageChunks(t, rows);
    forall i | 0 <= i < |cs| ensures EndsLine(cs[i]) {
      var page := Batch(rows, i + 1);
      if |page| > 0 {
        var c := InsertStatement(t, page) + "\n\n";
        assert c[|c| - 1] == '\n';
      }
    }
    ConcatEndsLine(cs);
    EndsLineAppend(h, Concat(cs));
  }

  /** The lines of one table's text. */
  lemma TableLines(t: string, create: string, rows: seq<Row>)
    requires '\n' !in t
    ensures FileLines(TableText(t, create, rows))
      == HeadLines(t) + (SchemaLines(create) + (["\n"] + FileLines(Concat(PageChunks(t, rows)))))
  {
    var head := TableHead(t, create);
    TableHeadText(t, create);
    assert head[|head| - 1] == '\n';
    FileLinesAppend(head, Concat(PageChunks(t, rows)));
    var chunkLines := FileLines(Concat(PageChunks(t, rows)));
    SeqAssoc(HeadLines(t), SchemaLines(create) + ["\n"], chunkLines);
    SeqAssoc(SchemaLines(create), ["\n"], chunkLines);
  }

  /** After the DROP: the CREATE statement, then each page's INSERT. */
  lemma TableBody(t: string, create: string, rows: seq<Row>)
    requires '\n' !in t && SchemaReplays(create)
    ensures Reassemble(Scanner(false, ""), SchemaLines(create) + (["\n"] + FileLines(Concat(PageChunks(t, rows)))))
      == Parsed(Scanner(false, ""), [JoinedCreate(create)] + Inserts(t, Pages(rows)))
  {
    ChunksOfPages(t, rows);
    ChunksReplay(t, Pages(rows));
    SchemaReplaysOnce(create);
    BodyOf(SchemaLines(create), JoinedCreate(create), FileLines(Concat(PageChunks(t, rows))), Inserts(t, Pages(rows)));
  }

  /** A statement, a blank line, then lines that yield `inserts`. */
  lemma BodyOf(schema: seq<string>, create: string, chunkLines: seq<string>, inserts: seq<string>)
    requires Reassemble(Scanner(false, ""), schema) == Parsed(Scanner(false, ""), [create])
    requires Reassemble(Scanner(false, ""), chunkLines) == Parsed(Scanner(false, ""), inserts)
    ensures Reassemble(Scanner(false, ""), schema + (["\n"] + chunkLines)) == Parsed(Scanner(false, ""), [create] + inserts)
  {
    var down := Scanner(false, "");
    BlankReplays(down);
    Compose(down, ["\n"], chunkLines, Parsed(down, []), Parsed(down, inserts));
    Compose(down, schema, ["\n"] + chunkLines, Parsed(down, [create]), Parsed(down, [] + inserts));
    assert [] + inserts == inserts;
  }

  /** One table's lines, whatever the flag before them. */
  lemma TableLinesReplay(flag: bool, t: string, create: string, rows: seq<Row>, lines: seq<string>)
    requires ReplayableTable(t, create)
    requires lines == HeadLines(t) + (SchemaLines(create) + (["\n"] + FileLines(Concat(PageChunks(t, rows)))))
    ensures Reassemble(Scanner(flag, ""), lines) == Parsed(Scanner(false, ""), TableStatements(t, create, rows))
  {
    var down := Scanner(false, "");
    var body := SchemaLines(create) + (["\n"] + FileLines(Concat(PageChunks(t, rows))));
    TableBody(t, create, rows);
    HeadReplays(flag, t);
    Compose(Scanner(flag, ""), HeadLines(t), body, Parsed(down, [DropStatement(t)]),
      Parsed(down, [JoinedCreate(create)] + Inserts(t, Pages(rows))));
  }

  /** One table's text, whatever the flag before it. */
  lemma TableReplays(flag: bool, t: string, create: string, rows: seq<Row>)
    requires ReplayableTable(t, create)
    ensures Reassemble(Scanner(flag, ""), FileLines(TableText(t, create, rows)))
      == Parsed(Scanner(false, ""), TableStatements(t, create, rows))
  {
    TableLines(t, create, rows);
    TableLinesReplay(flag, t, create, rows, FileLines(TableText(t, create, rows)));
  }

  /** What the restore hands the server for a list of tables. */
  function DumpStatements(db: Database, tables: seq<string>): seq<string>
    requires AllDumpable(db, tables)
  {
    if |tables| == 0 then []
    else
      var t := tables[|tables| - 1];
      assert Dumpable(db, t);
      DumpStatements(db, tables[..|tables| - 1]) + TableStatements(t, db.schema[t], db.data[t])
  }

  /** The tables the lemmas are stated for: the dump gets through them and
      each is a `ReplayableTable`. */
  predicate Replayable(db: Database, tables: seq<string>) {
    && AllDumpable(db, tables)
    && forall j | 0 <= j < |tables| :: ReplayableTable(tables[j], db.schema[tables[j]])
  }

  lemma {:induction false} TablesTextEndsLine(db: Database, tables: seq<string>)
    requires AllDumpable(db, tables)
    ensures EndsLine(TablesText(db, tables))
  {
    if |tables| > 0 {
      var t := tables[|tables| - 1];
      assert AllDumpable(db, tables[..|tables| - 1]);
      TablesTextEndsLine(db, tables[..|tables| - 1]);
      TableTextEndsLine(t, db.schema[t], db.data[t]);
      EndsLineAppend(TablesText(db, tables[..|tables| - 1]), TableText(t, db.schema[t], db.data[t]));
    }
  }

  /** The dump up to a table, then that table's text, each a run of whole lines. */
  lemma DumpLinesNext(h: string, db: Database, tables: seq<string>)
    requires EndsLine(h)
    requires |tables| > 0 && AllDumpable(db, tables)
    ensures var n := |tables| - 1;
      AllDumpable(db, tables[..n]) && Dumpable(db, tables[n])
      && FileLines(h + TablesText(db, tables))
        == FileLines(h + TablesText(db, tables[..n]))
          + FileLines(TableText(tables[n], db.schema[tables[n]], db.data[tables[n]]))
  {
    var n := |tables| - 1;
    var t := tables[n];
    var prefix := tables[..n];
    assert AllDumpable(db, prefix);
    var before := h + TablesText(db, prefix);
    var text := TableText(t, db.schema[t], db.data[t]);
    TablesTextEndsLine(db, prefix);
    EndsLineAppend(h, TablesText(db, prefix));
    assert TablesText(db, tables) == TablesText(db, prefix) + text;
    AppendAssoc(h, TablesText(db, prefix), text);
    FileLinesAppend(before, text);
  }

  lemma HeaderEndsLine(dbName: string)
    ensures EndsLine(Header(dbName))
  {
    var h := Header(dbName);
    assert h[|h| - 1] == '\n';
  }

  lemma ReplayableNext(db: Database, tables: seq<string>)
    requires |tables| > 0 && Replayable(db, tables)
    ensures var n := |tables| - 1;
      Replayable(db, tables[..n]) && ReplayableTable(tables[n], db.schema[tables[n]])
  {
    assert AllDumpable(db, tables[..|tables| - 1]);
  }

  /** After a swallowed header: every table's statements in order. */
  lemma {:induction false} TablesReplay(h: string, db: Database, tables: seq<string>)
    requires EndsLine(h)
    requires Reassemble(Start, FileLines(h)) == Parsed(Start, [])
    requires Replayable(db, tables)
    ensures Reassemble(Start, FileLines(h + TablesText(db, tables)))
      == Parsed(Scanner(|tables| == 0, ""), DumpStatements(db, tables))
  {
    if |tables| == 0 {
      assert h + TablesText(db, tables) == h;
    } else {
      var n := |tables| - 1;
      var t := tables[n];
      var prefix := tables[..n];
      DumpLinesNext(h, db, tables);
      ReplayableNext(db, tables);
      TablesReplay(h, db, prefix);
      TableReplays(n == 0, t, db.schema[t], db.data[t]);
      Compose(Start, FileLines(h + TablesText(db, prefix)),
        FileLines(TableText(t, db.schema[t], db.data[t])),
        Parsed(Scanner(n == 0, ""), DumpStatements(db, prefix)),
        Parsed(Scanner(false, ""), TableStatements(t, db.schema[t], db.data[t])));
    }
  }

  /** The whole dump: the header swallowed, then every table's statements in
      order. The flag is still up at the end only when there is no table. */
  lemma DumpReplays(dbName: string, db: Database, tables: seq<string>)
    requires '\n' !in dbName
    requires Replayable(db, tables)
    ensures Reassemble(Start, FileLines(Header(dbName) + TablesText(db, tables)))
      == Parsed(Scanner(|tables| == 0, ""), DumpStatements(db, tables))
  {
    HeaderSwallowed(dbName);
    HeaderEndsLine(dbName);
    TablesReplay(Header(dbName), db, tables);
  }

  /** Restoring a dump: the restore succeeds exactly when the server accepts
      every statement of the dump, and then it has run exactly those, in order. */
  lemma DumpRestores(dbName: string, db: Database, tables: seq<string>, exec: Server)
    requires '\n' !in dbName
    requires Replayable(db, tables)
    ensures var o := Replay(Start, FileLines(Header(dbName) + TablesText(db, tables)), exec, []);
      && (o.ok <==> Accepts(exec, [], DumpStatements(db, tables)))
      && (o.ok ==> o.executed == DumpStatements(db, tables))
  {
    var lines := FileLines(Header(dbName) + TablesText(db, tables));
    DumpReplays(dbName, db, tables);
    ReplayPrefix(Start, lines, exec, []);
    ReplaySucceeds(Start, lines, exec, []);
  }

  // ---------------------------------------------------------------------
  // The rows come back

  /** The rows of a run of INSERT statements into `t`, read as the server reads them. */
  function ReadBack(t: string, stmts: seq<string>): seq<Row> {
    if |stmts| == 0 then []
    else
      (match DecodeInsert(t, stmts[0]) case Some(rows) => rows case None => [])
      + ReadBack(t, stmts[1..])
  }

  lemma {:induction false} ReadBackInserts(t: string, pages: seq<seq<Row>>)
    ensures ReadBack(t, Inserts(t, pages)) == Flatten(pages)
  {
    if |pages| > 0 {
      ReadBackInserts(t, pages[1..]);
      var rest := Inserts(t, pages[1..]);
      if |pages[0]| > 0 {
        var s := InsertStatement(t, pages[0]);
        InsertRoundTrip(t, pages[0]);
        assert ([s] + rest)[0] == s;
        assert ([s] + rest)[1..] == rest;
      } else {
        assert Inserts(t, pages) == [] + rest;
        assert [] + rest == rest;
        assert pages[0] == [];
      }
    }
  }

  /** The INSERT statements the restore runs for a table hold exactly the
      table's rows, in order, each once. */
  lemma TableRowsRestored(t: string, rows: seq<Row>)
    ensures ReadBack(t, Inserts(t, Pages(rows))) == rows
  {
    ReadBackInserts(t, Pages(rows));
    PagesAreTable(rows);
  }
}
