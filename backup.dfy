/**
  The dump engine of `MySQLBkp` (src/MySQLBkp.php): it writes a database's
  schema and rows to an SQL script, one table after another, reading each
  table in pages of 1000 rows and turning each non-empty page into one
  INSERT statement.

  The server is plain data (`Database`); the backup file is the `contents`
  field of a `MySQLBkp` object, which only ever grows at its end.
 */
module Backup {
  import opened Optional
  import opened PhpStrings
  import opened Seqs

  /** One result row: its values in the order the query returns the columns.
      `None` is SQL NULL; every other value arrives as a string. */
  type Row = seq<Option<string>>

  /** What the dump reads from the server. `tables` is the answer to
      `SHOW TABLES`; `schema[t]` is the text `SHOW CREATE TABLE` gives for `t`;
      `data[t]` are the rows of `t` in the order the server pages them.
      A table absent from `schema` or `data` is one whose queries fail. */
  datatype Database = Database(tables: seq<string>, schema: map<string, string>, data: map<string, seq<Row>>)

  /** The `$tables` argument of `backupTables`: a string (`'*'` or a list of
      names separated by commas) or an array of names. */
  datatype TableSpec = Text(list: string) | Names(names: seq<string>)

  /** Rows per page of the row query. */
  const BatchSize: nat := 1000

  /** Line 116 pads the progress line with `str_repeat('.', 50 - strlen($table))`. */
  const ProgressWidth: nat := 50

  /** A table the dump gets through: its name is short enough for the
      progress line (a negative repeat count throws), and the server
      answers its queries. */
  predicate Dumpable(db: Database, t: string) {
    |t| <= ProgressWidth && t in db.schema && t in db.data
  }

  /** The dump gets through every table of the list. */
  predicate AllDumpable(db: Database, ts: seq<string>) {
    forall j | 0 <= j < |ts| :: Dumpable(db, ts[j])
  }

  /** The tables to dump: all of them for `'*'`, the array as given, or the
      string with its spaces removed and cut at each comma. */
  function ResolveTables(db: Database, spec: TableSpec): seq<string> {
    match spec
    case Text(s) => if s == "*" then db.tables else Explode(',', RemoveChar(' ', s))
    case Names(ns) => ns
  }

  /** Exploding a string keeps out every byte the string does not hold. */
  lemma {:induction false} ExplodeAvoids(sep: char, c: char, s: string)
    requires c !in s
    ensures forall i | 0 <= i < |Explode(sep, s)| :: c !in Explode(sep, s)[i]
    decreases |s|
  {
    if |s| > 0 {
      ExplodeAvoids(sep, c, s[1..]);
    }
  }

  /** An explicit list gives at least one name; no name holds a space or a
      comma; joining the names with commas gives the list without its spaces. */
  lemma ExplicitTableList(db: Database, s: string)
    requires s != "*"
    ensures var names := ResolveTables(db, Text(s));
      && |names| >= 1
      && (forall i | 0 <= i < |names| :: ' ' !in names[i] && ',' !in names[i])
      && Implode(",", names) == RemoveChar(' ', s)
  {
    ExplodeAvoids(',', ' ', RemoveChar(' ', s));
  }

  // ---------------------------------------------------------------------
  // Value encoding

  /** What lines 148-149 do to a non-null value: `addslashes`, then every
      newline replaced by the two bytes `\` `n`. */
  function Escape(v: string): string {
    ReplaceAll(AddSlashes(v), "\n", "\\n")
  }

  /** The escape of one byte. */
  function EscapeChar(c: char): string {
    if c == '\n' then "\\n" else SlashChar(c)
  }

  /** A column value as the dump writes it: NULL bare, anything else escaped
      and between double quotes. */
  function EncodeValue(v: Option<string>): string {
    match v
    case None => "NULL"
    case Some(s) => "\"" + Escape(s) + "\""
  }

  /** The `$fields` of one row. */
  function EncodeFields(row: Row): seq<string> {
    seq(|row|, i requires 0 <= i < |row| => EncodeValue(row[i]))
  }

  /** One parenthesised tuple of a row. */
  function EncodeRow(row: Row): string {
    "(" + Implode(",", EncodeFields(row)) + ")"
  }

  /** The `$registers` of one page. */
  function EncodeRows(rows: seq<Row>): seq<string> {
    seq(|rows|, i requires 0 <= i < |rows| => EncodeRow(rows[i]))
  }

  /** The encoding works row by row and value by value. */
  lemma EncodeTails(row: Row, rows: seq<Row>)
    ensures |row| > 0 ==> EncodeFields(row)[1..] == EncodeFields(row[1..])
    ensures |rows| > 0 ==> EncodeRows(rows)[1..] == EncodeRows(rows[1..])
  {
  }

  /** Line 156's statement around the already encoded tuples. */
  function InsertText(t: string, registers: seq<string>): string {
    "INSERT INTO `" + t + "` VALUES " + Implode(",", registers) + ";"
  }

  /** The INSERT statement for one page, without the blank line after it. */
  function InsertStatement(t: string, rows: seq<Row>): string {
    InsertText(t, EncodeRows(rows))
  }

  /** The escape works byte by byte: `addslashes` is applied first, and the
      newline replacement cannot double the backslashes it added. */
  lemma EscapeCons(c: char, v: string)
    ensures Escape([c] + v) == EscapeChar(c) + Escape(v)
  {
    assert ([c] + v)[1..] == v;
    assert AddSlashes([c] + v) == SlashChar(c) + AddSlashes(v);
    ReplaceAllAppend(SlashChar(c), AddSlashes(v), "\n", "\\n");
    if c == '\n' {
      assert SlashChar(c) == "\n";
      assert SlashChar(c)[1..] == "";
    } else {
      ReplaceAllAbsent(SlashChar(c), "\n", "\\n");
    }
  }

  /** An escaped value holds no newline. */
  lemma {:induction false} EscapeSingleLine(v: string)
    ensures '\n' !in Escape(v)
    decreases |v|
  {
    if |v| > 0 {
      EscapeCons(v[0], v[1..]);
      EscapeSingleLine(v[1..]);
      assert [v[0]] + v[1..] == v;
    }
  }

  /** NULL is written as the bare word `NULL`; any other value as a text that
      starts and ends with `"` and holds no newline. */
  lemma EncodedValueShape(v: Option<string>)
    ensures v.None? ==> EncodeValue(v) == "NULL"
    ensures v.Some? ==> var e := EncodeValue(v);
      |e| >= 2 && e[0] == '"' && e[|e| - 1] == '"'
    ensures '\n' !in EncodeValue(v)
  {
    if v.Some? {
      EscapeSingleLine(v.value);
    }
  }

  /** An INSERT statement stays on one line when the table name does. */
  lemma InsertSingleLine(t: string, rows: seq<Row>)
    requires '\n' !in t
    ensures '\n' !in InsertStatement(t, rows)
  {
    var regs := EncodeRows(rows);
    forall i | 0 <= i < |regs| ensures '\n' !in regs[i] {
      var fields := EncodeFields(rows[i]);
      forall j | 0 <= j < |fields| ensures '\n' !in fields[j] {
        EncodedValueShape(rows[i][j]);
      }
      ImplodeAvoids('\n', ",", fields);
    }
    ImplodeAvoids('\n', ",", regs);
  }

  /** The `$fields` loop of lines 143-152. */
  method BuildFields(row: Row) returns (fields: seq<string>)
    ensures fields == EncodeFields(row)
  {
    fields := [];
    for j := 0 to |row|
      invariant |fields| == j
      invariant forall k | 0 <= k < j :: fields[k] == EncodeValue(row[k])
    {
      if row[j].None? {
        fields := fields + ["NULL"];
      } else {
        var value := AddSlashes(row[j].value);
        value := ReplaceAll(value, "\n", "\\n");
        fields := fields + ["\"" + value + "\""];
      }
    }
  }

  /** The `$registers` loop of lines 141-154. */
  method BuildRegisters(result: seq<Row>) returns (registers: seq<string>)
    ensures registers == EncodeRows(result)
  {
    registers := [];
    for i := 0 to |result|
      invariant |registers| == i
      invariant forall k | 0 <= k < i :: registers[k] == EncodeRow(result[k])
    {
      var fields := BuildFields(result[i]);
      registers := registers + ["(" + Implode(",", fields) + ")"];
    }
  }

  // ---------------------------------------------------------------------
  // Batches

  /** `intval($numRows / $batchSize) + 1`. */
  function NumBatches(numRows: nat): nat {
    numRows / BatchSize + 1
  }

  /** `$b*$batchSize-$batchSize` for the 1-based page number `b`. */
  function BatchOffset(b: nat): nat
    requires b >= 1
  {
    b * BatchSize - BatchSize
  }

  /** The rows `LIMIT offset,count` returns: at most `count` rows, starting at
      position `offset`, none when `offset` is past the end. */
  function Limit(rows: seq<Row>, offset: nat, count: nat): (r: seq<Row>)
    ensures |r| == if offset >= |rows| then 0 else if count < |rows| - offset then count else |rows| - offset
    ensures forall i | 0 <= i < |r| :: r[i] == rows[offset + i]
  {
    if offset >= |rows| then []
    else if count < |rows| - offset then rows[offset..offset + count]
    else rows[offset..]
  }

  /** Page `b` of a table. */
  function Batch(rows: seq<Row>, b: nat): seq<Row>
    requires b >= 1
  {
    Limit(rows, BatchOffset(b), BatchSize)
  }

  /** There is always at least one page, and the pages reach just past the
      last row: one page too many exactly when the count is a multiple of 1000. */
  lemma BatchCount(numRows: nat)
    ensures NumBatches(numRows) >= 1
    ensures (NumBatches(numRows) - 1) * BatchSize <= numRows < NumBatches(numRows) * BatchSize
  {
  }

  /** The last page is empty exactly when the row count is a multiple of 1000
      (zero included). */
  lemma LastBatchEmpty(rows: seq<Row>)
    ensures |Batch(rows, NumBatches(|rows|))| == 0 <==> |rows| % BatchSize == 0
  {
    BatchCount(|rows|);
  }

  /** Every page but the last is full. */
  lemma FullBatches(rows: seq<Row>, b: nat)
    requires 1 <= b < NumBatches(|rows|)
    ensures |Batch(rows, b)| == BatchSize
  {
    BatchCount(|rows|);
    assert b * BatchSize <= (NumBatches(|rows|) - 1) * BatchSize;
  }

  /** Pages 1 to k, one after the other. */
  function RowsUpTo(rows: seq<Row>, k: nat): seq<Row> {
    if k == 0 then [] else RowsUpTo(rows, k - 1) + Batch(rows, k)
  }

  /** Page k is the slice of rows from (k-1)*1000 to k*1000, cut at the end. */
  lemma BatchSlice(rows: seq<Row>, k: nat)
    requires k >= 1
    ensures var prev := if (k - 1) * BatchSize < |rows| then (k - 1) * BatchSize else |rows|;
      var end := if k * BatchSize < |rows| then k * BatchSize else |rows|;
      prev <= end && Batch(rows, k) == rows[prev..end]
  {
    var offset := BatchOffset(k);
    assert offset == (k - 1) * BatchSize;
    if offset < |rows| && BatchSize < |rows| - offset {
      assert k * BatchSize == offset + BatchSize;
    }
  }

  /** Pages 1 to k are exactly the first k*1000 rows (or all of them), in
      order: the pages follow each other with no gap and no overlap. */
  lemma {:induction false} BatchesCover(rows: seq<Row>, k: nat)
    ensures var end := if k * BatchSize < |rows| then k * BatchSize else |rows|;
      RowsUpTo(rows, k) == rows[..end]
  {
    if k > 0 {
      BatchesCover(rows, k - 1);
      var prev := if (k - 1) * BatchSize < |rows| then (k - 1) * BatchSize else |rows|;
      var end := if k * BatchSize < |rows| then k * BatchSize else |rows|;
      BatchSlice(rows, k);
      assert RowsUpTo(rows, k) == rows[..prev] + rows[prev..end];
      SliceJoin(rows, prev, end);
    }
  }

  /** All the pages of a table, concatenated, are the table's rows. */
  lemma AllBatchesAreTable(rows: seq<Row>)
    ensures RowsUpTo(rows, NumBatches(|rows|)) == rows
  {
    BatchesCover(rows, NumBatches(|rows|));
    BatchCount(|rows|);
  }

  /** The pages the loop of lines 137-161 reads, in order. */
  function Pages(rows: seq<Row>): (r: seq<seq<Row>>)
    ensures |r| == NumBatches(|rows|)
    ensures forall i | 0 <= i < |r| :: r[i] == Batch(rows, i + 1)
  {
    seq(NumBatches(|rows|), i requires 0 <= i < NumBatches(|rows|) => Batch(rows, i + 1))
  }

  /** Pages put back one after the other. */
  function Flatten(pages: seq<seq<Row>>): seq<Row> {
    if |pages| == 0 then [] else pages[0] + Flatten(pages[1..])
  }

  lemma {:induction false} FlattenAppend(a: seq<seq<Row>>, b: seq<seq<Row>>)
    ensures Flatten(a + b) == Flatten(a) + Flatten(b)
  {
    if |a| == 0 {
      assert a + b == b;
    } else {
      assert (a + b)[0] == a[0];
      assert (a + b)[1..] == a[1..] + b;
      FlattenAppend(a[1..], b);
    }
  }

  /** The first k pages put back together are pages 1 to k. */
  lemma {:induction false} FlattenPages(rows: seq<Row>, k: nat)
    requires k <= NumBatches(|rows|)
    ensures Flatten(Pages(rows)[..k]) == RowsUpTo(rows, k)
  {
    if k > 0 {
      var ps := Pages(rows);
      FlattenPages(rows, k - 1);
      assert ps[..k] == ps[..k - 1] + [ps[k - 1]];
      FlattenAppend(ps[..k - 1], [ps[k - 1]]);
      assert Flatten([ps[k - 1]]) == ps[k - 1] + [];
    }
  }

  /** The pages of a table, put back together, are its rows, in order. */
  lemma PagesAreTable(rows: seq<Row>)
    ensures Flatten(Pages(rows)) == rows
  {
    FlattenPages(rows, NumBatches(|rows|));
    AllBatchesAreTable(rows);
    assert Pages(rows)[..NumBatches(|rows|)] == Pages(rows);
  }

  // ---------------------------------------------------------------------
  // The script text

  /** The name the constructor gives the backup file. */
  function BackupFileName(dbName: string, timestamp: string): string {
    dbName + "-" + timestamp + ".sql"
  }

  /** Lines 108-109. */
  function Header(dbName: string): string {
    "CREATE DATABASE IF NOT EXISTS `" + dbName + "`;\n\n" + "USE `" + dbName + "`;\n\n"
  }

  function DropStatement(t: string): string {
    "DROP TABLE IF EXISTS `" + t + "`;"
  }

  /** Lines 120 and 125: the comment block naming the table, the DROP, and
      the server's CREATE text closed by `;`. */
  function TableHead(t: string, create: string): string {
    "/**\n * " + t + " \n */\n" + DropStatement(t) + "\n\n" + create + ";\n\n"
  }

  /** Line 156: what one page adds to the script. */
  function InsertChunk(t: string, page: seq<Row>): string {
    if |page| > 0 then InsertStatement(t, page) + "\n\n" else ""
  }

  /** What each page of a table adds to the script, page 1 first. */
  function PageChunks(t: string, rows: seq<Row>): (r: seq<string>)
    ensures |r| == NumBatches(|rows|)
    ensures forall i | 0 <= i < |r| :: r[i] == InsertChunk(t, Batch(rows, i + 1))
  {
    seq(NumBatches(|rows|), i requires 0 <= i < NumBatches(|rows|) => InsertChunk(t, Batch(rows, i + 1)))
  }

  /** Everything the dump writes for one table. */
  function TableText(t: string, create: string, rows: seq<Row>): string {
    TableHead(t, create) + Concat(PageChunks(t, rows))
  }

  /** Everything the dump writes for a list of tables it gets through. */
  function TablesText(db: Database, tables: seq<string>): string
    requires AllDumpable(db, tables)
  {
    if |tables| == 0 then ""
    else
      var t := tables[|tables| - 1];
      assert Dumpable(db, t);
      TablesText(db, tables[..|tables| - 1]) + TableText(t, db.schema[t], db.data[t])
  }

  /** The texts of a list that `saveFile` writes, in order: the empty ones
      write nothing. */
  function NonEmpty(xs: seq<string>): seq<string> {
    if |xs| == 0 then []
    else NonEmpty(xs[..|xs| - 1]) + (if xs[|xs| - 1] == "" then [] else [xs[|xs| - 1]])
  }

  /** The writes of the page loop once pages 1 to `n` are done: the table's
      head together with page 1's chunk, then each later chunk that is not
      empty, on its own. */
  function PageWrites(head: string, chunks: seq<string>, n: nat): seq<string>
    requires n <= |chunks|
  {
    if n == 0 then [] else [head + chunks[0]] + NonEmpty(chunks[1..n])
  }

  /** The writes for one table. */
  function TableWrites(t: string, create: string, rows: seq<Row>): seq<string> {
    var chunks := PageChunks(t, rows);
    PageWrites(TableHead(t, create), chunks, |chunks|)
  }

  /** The writes for a list of tables the dump gets through. */
  function TablesWrites(db: Database, tables: seq<string>): seq<string>
    requires AllDumpable(db, tables)
  {
    if |tables| == 0 then []
    else
      var t := tables[|tables| - 1];
      assert Dumpable(db, t);
      TablesWrites(db, tables[..|tables| - 1]) + TableWrites(t, db.schema[t], db.data[t])
  }

  /** Dropping the empty texts keeps the order and the glued text, and every
      text kept is one of the list's, not empty. */
  lemma {:induction false} NonEmptyKeeps(xs: seq<string>)
    ensures Concat(NonEmpty(xs)) == Concat(xs)
    ensures forall i | 0 <= i < |NonEmpty(xs)| :: NonEmpty(xs)[i] != "" && NonEmpty(xs)[i] in xs
  {
    if |xs| > 0 {
      var init, last := xs[..|xs| - 1], xs[|xs| - 1];
      var tail := if last == "" then [] else [last];
      NonEmptyKeeps(init);
      assert xs == init + [last];
      ConcatAppend(init, [last]);
      ConcatAppend(NonEmpty(init), tail);
      assert Concat([last]) == last + Concat([]);
      if last != "" {
        assert Concat(tail) == last + Concat([]);
      }
      forall i | 0 <= i < |NonEmpty(xs)|
        ensures NonEmpty(xs)[i] != "" && NonEmpty(xs)[i] in xs
      {
        if i < |NonEmpty(init)| {
          assert NonEmpty(xs)[i] == NonEmpty(init)[i];
          assert NonEmpty(init)[i] in init;
        } else {
          assert NonEmpty(xs)[i] == last;
        }
      }
    }
  }

  /** One more page of the loop, one more write unless its chunk is empty. */
  lemma PageWritesNext(head: string, chunks: seq<string>, n: nat)
    requires 1 <= n < |chunks|
    ensures PageWrites(head, chunks, n + 1)
      == PageWrites(head, chunks, n) + (if chunks[n] == "" then [] else [chunks[n]])
  {
    var tail := if chunks[n] == "" then [] else [chunks[n]];
    assert chunks[1..n + 1][..n - 1] == chunks[1..n];
    assert NonEmpty(chunks[1..n + 1]) == NonEmpty(chunks[1..n]) + tail;
    SeqAssoc([head + chunks[0]], NonEmpty(chunks[1..n]), tail);
  }

  /** The page loop streams: its first write is the head with page 1's
      chunk, each later write is exactly one later page's chunk, none is
      empty, and together they are the head and all the chunks. */
  lemma PageWritesStream(head: string, chunks: seq<string>)
    requires |chunks| >= 1 && head != ""
    ensures var w := PageWrites(head, chunks, |chunks|);
      && |w| >= 1
      && w[0] == head + chunks[0]
      && (forall i | 1 <= i < |w| :: w[i] != "" && w[i] in chunks[1..])
      && Concat(w) == head + Concat(chunks)
  {
    var rest := chunks[1..];
    NonEmptyKeeps(rest);
    assert chunks[1..|chunks|] == rest;
    var w := [head + chunks[0]] + NonEmpty(rest);
    assert forall i | 1 <= i < |w| :: w[i] == NonEmpty(rest)[i - 1];
    ConcatCons(head + chunks[0], NonEmpty(rest));
    HeadTail(chunks);
    ConcatCons(chunks[0], rest);
    AppendAssoc(head, chunks[0], Concat(rest));
    assert |head + chunks[0]| > 0;
  }

  /** The writes for a table, glued together, are the table's text. */
  lemma TableWritesText(t: string, create: string, rows: seq<Row>)
    ensures Concat(TableWrites(t, create, rows)) == TableText(t, create, rows)
  {
    HeadLength(t, create);
    PageWritesStream(TableHead(t, create), PageChunks(t, rows));
  }

  /** The position of the first table the dump cannot get through, or the
      length of the list when it gets through them all. */
  function FirstFailing(db: Database, tables: seq<string>): (k: nat)
    ensures k <= |tables|
    ensures forall j | 0 <= j < k :: Dumpable(db, tables[j])
    ensures k < |tables| ==> !Dumpable(db, tables[k])
  {
    if |tables| == 0 || !Dumpable(db, tables[0]) then 0
    else 1 + FirstFailing(db, tables[1..])
  }

  /** One more table of a list, one more table's text. */
  lemma TablesTextNext(db: Database, tables: seq<string>, i: nat)
    requires i < |tables|
    requires AllDumpable(db, tables[..i]) && Dumpable(db, tables[i])
    ensures AllDumpable(db, tables[..i + 1])
    ensures TablesText(db, tables[..i + 1])
      == TablesText(db, tables[..i]) + TableText(tables[i], db.schema[tables[i]], db.data[tables[i]])
    ensures TablesWrites(db, tables[..i + 1])
      == TablesWrites(db, tables[..i]) + TableWrites(tables[i], db.schema[tables[i]], db.data[tables[i]])
  {
    assert tables[..i + 1][..i] == tables[..i];
  }

  /** The first table the dump cannot get through is at `i`. */
  lemma FirstFailingAt(db: Database, tables: seq<string>, i: nat)
    requires i <= |tables|
    requires AllDumpable(db, tables[..i])
    requires i < |tables| ==> !Dumpable(db, tables[i])
    ensures FirstFailing(db, tables) == i
  {
  }

  /** Line 156 for page `b`: the statement built from the page's tuples is
      the page's chunk, and there is none when the page is empty. */
  lemma PageChunk(t: string, rows: seq<Row>, b: nat, registers: seq<string>)
    requires b >= 1
    requires registers == EncodeRows(Batch(rows, b))
    ensures |registers| > 0 ==> InsertChunk(t, Batch(rows, b)) == InsertText(t, registers) + "\n\n"
    ensures |registers| == 0 ==> InsertChunk(t, Batch(rows, b)) == ""
  {
  }

  /** The table's head is never read as false by `saveFile`, whatever follows it. */
  lemma HeadLength(t: string, create: string)
    ensures |TableHead(t, create)| >= 2
  {
    assert TableHead(t, create)[..2] == "/*";
  }

  /** A later page writes nothing or a text `saveFile` does not read as false. */
  lemma ChunkNotFalsy(t: string, page: seq<Row>)
    ensures InsertChunk(t, page) == "" || !Falsy(InsertChunk(t, page))
  {
    if |page| > 0 {
      assert InsertChunk(t, page)[0] == 'I';
    }
  }

  /** One page written: what was pending and page `k`'s chunk are now in the
      file, so the file holds the head and the first `k + 1` chunks. */
  lemma PageAdvance(before: string, pending: string, after: string, start: string,
                    head: string, chunks: seq<string>, k: nat)
    requires k < |chunks|
    requires before + pending == start + (head + Concat(chunks[..k]))
    requires after == before + (pending + chunks[k])
    ensures after + "" == start + (head + Concat(chunks[..k + 1]))
  {
    var written := head + Concat(chunks[..k]);
    AppendEmpty(after);
    AppendAssoc(before, pending, chunks[k]);
    AppendAssoc(start, written, chunks[k]);
    ConcatNext(chunks, k);
    AppendAssoc(head, Concat(chunks[..k]), chunks[k]);
  }

  /** One page written: the loop's writes grow by that page's write. */
  lemma PageWritesAdvance(start: seq<string>, before: seq<string>, after: seq<string>, pending: string,
                          head: string, chunks: seq<string>, b: nat)
    requires 1 <= b <= |chunks|
    requires pending == if b == 1 then head else ""
    requires before == start + PageWrites(head, chunks, b - 1)
    requires after == before + (if pending + chunks[b - 1] == "" then [] else [pending + chunks[b - 1]])
    requires head != ""
    ensures after == start + PageWrites(head, chunks, b)
  {
    if b == 1 {
      assert PageWrites(head, chunks, 1) == [head + chunks[0]] + NonEmpty([]);
      assert PageWrites(head, chunks, 0) == [];
    } else {
      PageWritesNext(head, chunks, b - 1);
      AppendEmpty(chunks[b - 1]);
      SeqAssoc(start, PageWrites(head, chunks, b - 1), if chunks[b - 1] == "" then [] else [chunks[b - 1]]);
    }
  }

  /** The first `k + 1` strings are the first `k` and then string `k`. */
  lemma ConcatNext(xs: seq<string>, k: nat)
    requires k < |xs|
    ensures Concat(xs[..k + 1]) == Concat(xs[..k]) + xs[k]
  {
    assert xs[..k + 1] == xs[..k] + [xs[k]];
    ConcatAppend(xs[..k], [xs[k]]);
    assert Concat([xs[k]]) == xs[k] + Concat([]);
  }

  lemma AppendEmpty(a: string)
    ensures a + "" == a && "" + a == a
  {
  }

  // ---------------------------------------------------------------------
  // The engine

  class MySQLBkp {
    const dbName: string
    const backupFile: string
    /** Whether the finished file is to be gzipped. */
    const gzip: bool
    /** The backup file: only ever appended to. */
    var contents: string
    /** The successive appends `saveFile` made to the file. */
    ghost var appends: seq<string>

    /** The file is its appends, none of which is empty. */
    ghost predicate Valid()
      reads this
    {
      && contents == Concat(appends)
      && forall i | 0 <= i < |appends| :: appends[i] != ""
    }

    /** Lines 65-76, minus the connection: the file is named after the
        database and the timestamp, and starts out empty. */
    constructor (dbName: string, timestamp: string, zip: bool)
      ensures Valid()
      ensures this.dbName == dbName && backupFile == BackupFileName(dbName, timestamp) && gzip == zip
      ensures contents == "" && appends == []
    {
      this.dbName := dbName;
      backupFile := BackupFileName(dbName, timestamp);
      gzip := zip;
      contents := "";
      appends := [];
    }

    /** `saveFile`: appends `sql` to the file unless PHP reads it as false. */
    method SaveFile(sql: string) returns (saved: bool)
      requires Valid()
      modifies this`contents, this`appends
      ensures Valid()
      ensures saved == !Falsy(sql)
      ensures contents == old(contents) + (if saved then sql else "")
      ensures appends == if saved then old(appends) + [sql] else old(appends)
    {
      if Falsy(sql) {
        return false;
      }
      ConcatAppend(appends, [sql]);
      contents := contents + sql;
      appends := appends + [sql];
      saved := true;
    }

    /** `backupTables`: writes the header, then each table in list order; stops
        with false, leaving what it wrote, at the first table whose name is too
        long for the progress line or that the server does not know. The gzip
        step's result is not looked at. */
    method BackupTables(db: Database, spec: TableSpec) returns (ok: bool)
      requires Valid()
      modifies this`contents, this`appends
      ensures Valid()
      ensures var tables := ResolveTables(db, spec);
        var k := FirstFailing(db, tables);
        && ok == (k == |tables|)
        && AllDumpable(db, tables[..k])
        && contents == old(contents) + Header(dbName) + TablesText(db, tables[..k])
        && appends == old(appends) + [Header(dbName)] + TablesWrites(db, tables[..k])
    {
      var tables := ResolveTables(db, spec);
      var sql := Header(dbName);
      assert sql[0] == 'C';
      var saved := SaveFile(sql);
      var i := 0;
      while i < |tables|
        invariant 0 <= i <= |tables|
        invariant Valid()
        invariant AllDumpable(db, tables[..i])
        invariant contents == old(contents) + Header(dbName) + TablesText(db, tables[..i])
        invariant appends == old(appends) + [Header(dbName)] + TablesWrites(db, tables[..i])
      {
        var table := tables[i];
        if |table| > ProgressWidth {
          FirstFailingAt(db, tables, i);
          return false;
        }
        if !(table in db.schema && table in db.data) {
          FirstFailingAt(db, tables, i);
          return false;
        }
        ghost var written := TablesText(db, tables[..i]);
        ghost var writes := TablesWrites(db, tables[..i]);
        BackupTable(table, db.schema[table], db.data[table]);
        TablesTextNext(db, tables, i);
        AppendAssoc(old(contents) + Header(dbName), written, TableText(table, db.schema[table], db.data[table]));
        SeqAssoc(old(appends) + [Header(dbName)], writes, TableWrites(table, db.schema[table], db.data[table]));
        i := i + 1;
      }
      assert tables[..|tables|] == tables;
      FirstFailingAt(db, tables, |tables|);
      ok := true;
    }

    /** One pass of the page loop (lines 137-160): page `b` of the table is
        read, its tuples encoded, and what is pending plus the page's INSERT
        statement goes to the file. */
    method SavePage(table: string, rows: seq<Row>, b: nat, pending: string)
      requires Valid()
      requires b >= 1
      requires pending == "" || |pending| >= 2
      modifies this`contents, this`appends
      ensures Valid()
      ensures contents == old(contents) + (pending + InsertChunk(table, Batch(rows, b)))
      ensures var sql := pending + InsertChunk(table, Batch(rows, b));
        appends == old(appends) + (if sql == "" then [] else [sql])
    {
      var offset := b * BatchSize - BatchSize;
      var result := Limit(rows, offset, BatchSize);
      assert result == Batch(rows, b);
      var registers := BuildRegisters(result);
      var sql := pending;
      PageChunk(table, rows, b, registers);
      if |registers| > 0 {
        sql := sql + (InsertText(table, registers) + "\n\n");
      } else {
        AppendEmpty(sql);
      }
      ChunkNotFalsy(table, Batch(rows, b));
      var saved := SaveFile(sql);
      AppendEmpty(old(contents));
    }

    /** The body of the table loop (lines 116-161): the table's head goes out
        with its first page, every later non-empty page on its own. */
    method BackupTable(table: string, create: string, rows: seq<Row>)
      requires Valid()
      modifies this`contents, this`appends
      ensures Valid()
      ensures contents == old(contents) + TableText(table, create, rows)
      ensures appends == old(appends) + TableWrites(table, create, rows)
    {
      HeadLength(table, create);
      WritePages(table, TableHead(table, create), rows);
    }

    /** The page loop of lines 135-161: page 1 goes out together with the
        table's head, every later page that holds rows on its own. Any head of
        two or more bytes will do; `saveFile` never reads it as false. */
    method WritePages(table: string, head: string, rows: seq<Row>)
      requires Valid()
      requires |head| >= 2
      modifies this`contents, this`appends
      ensures Valid()
      ensures contents == old(contents) + (head + Concat(PageChunks(table, rows)))
      ensures appends == old(appends) + PageWrites(head, PageChunks(table, rows), NumBatches(|rows|))
    {
      var sql := head;
      var numBatches := NumBatches(|rows|);
      var b := 1;
      ghost var chunks := PageChunks(table, rows);
      assert chunks[..0] == [];
      AppendEmpty(head);
      while b <= numBatches
        invariant 1 <= b <= numBatches + 1
        invariant Valid()
        invariant sql == if b == 1 then head else ""
        invariant contents + sql == old(contents) + (head + Concat(chunks[..b - 1]))
        invariant appends == old(appends) + PageWrites(head, chunks, b - 1)
      {
        ghost var before := contents;
        ghost var writes := appends;
        assert chunks[b - 1] == InsertChunk(table, Batch(rows, b));
        SavePage(table, rows, b, sql);
        PageAdvance(before, sql, contents, old(contents), head, chunks, b - 1);
        PageWritesAdvance(old(appends), writes, appends, sql, head, chunks, b);
        sql := "";
        b := b + 1;
      }
      assert chunks[..numBatches] == chunks;
      AppendEmpty(contents);
    }
  }
}
