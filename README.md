# mysqlbkp in Dafny

A model of the two engines of `sincco/mysqlbkp`, a PHP tool that dumps a
MySQL database to an SQL script and restores it again.

- **Dump** (`MySQLBkp::backupTables`, `saveFile`), in `backup.dfy`:
  - Writes a `CREATE DATABASE`/`USE` header, then, for each table in list order:
    - a comment block naming the table;
    - `DROP TABLE IF EXISTS`;
    - the server's `CREATE TABLE` text;
    - one `INSERT` per non-empty page of 1000 rows.
  - The server is plain data (`Backup.Database`).
  - The backup file is the `contents` field of a `Backup.MySQLBkp` object. `SaveFile` only ever appends to it.
  - The page loop, the tuple loop and the field loop are methods proved against the functions that describe the text: `InsertChunk`, `EncodeRows`, `EncodeFields`.
- **Restore** (`MySQLRestore::restoreDb`), in `restore.dfy`:
  - A loop over the lines `fgets` returns. It trims each line, drops short lines and comment lines, glues the other lines together, and hands the buffer to the server whenever a line ends in `;`.
  - `Restore.Feed` states what one line does. `Restore.Reassemble` is the list of statements a whole script yields. `Restore.Replay` adds the server, an oracle that may refuse a statement.
  - `Restore.MySQLRestore.RestoreDb` is the loop itself, proved equal to `Replay`.
  - Also modelled: the `.gz` test and the name of the decompressed copy.
- **Reading values back**, in `sql_reader.dfy`:
  - A reader for the dump's `INSERT` statements, following MySQL's rules for double-quoted string literals and backslash escapes.
  - It is an independent definition of what the encoding means. Every value, row and page reads back unchanged, so the encoding is injective.
- **Dump, then restore**, in `dump_replay.dfy`:
  - The lines of a generated dump are fed to the restore loop.
  - The server receives, for each table in order, its `DROP`, its `CREATE` (lines trimmed and glued) and its `INSERT`s.
  - The header never reaches the server: the comment flag starts up and is only lowered by the first table's ` */` line.
  - The `INSERT`s of a table read back as the table's rows, in order.
- **PHP string built-ins**, in `php_strings.dfy`: `trim`, `explode`, `implode`, `str_replace`, `addslashes`, `substr`, and PHP's truthiness of a string.

Every non-null value is written quoted, numbers included (src/MySQLBkp.php:145-150); `Backup.EncodeValue` does the same.

## Definitions

The functions the contracts below are stated against, with the lines each one follows:

- `Backup.ResolveTables` (src/MySQLBkp.php:96-105): `*` gives the server's table list; any other text is split at `,` after its spaces are removed.
- `Backup.Dumpable` (src/MySQLBkp.php:116-139): a table the loop gets through: its name is at most 50 bytes (`str_repeat('.', 50-strlen($table))`) and the server answers its queries.
- `Backup.Escape`, `Backup.EncodeValue` (src/MySQLBkp.php:145-150): `addslashes`, then newline to `\n`; NULL bare, any other value in double quotes.
- `Backup.EncodeRow`, `Backup.InsertStatement` (src/MySQLBkp.php:153-156): a row is `(` fields joined by `,` `)`; a page is `INSERT INTO` the tuples joined by `,`, then `;`.
- `Backup.NumBatches`, `Backup.BatchOffset`, `Backup.Batch` (src/MySQLBkp.php:135-138): `intval(n / 1000) + 1` pages; page `b` starts at row `b*1000-1000`.
- `Backup.Header` (src/MySQLBkp.php:108-109): the `CREATE DATABASE` and `USE` lines.
- `Backup.TableHead` (src/MySQLBkp.php:120-125): the comment block, DROP and the server's CREATE text.
- `Backup.InsertChunk` (src/MySQLBkp.php:155-157): a page's INSERT, or nothing for an empty page.
- `Backup.TableText`, `Backup.TablesText` (src/MySQLBkp.php:115-161): a table's head followed by its chunks; the tables one after the other.
- `PhpStrings.Trim` (src/MySQLRestore.php:97): `ltrim(rtrim($line))` with PHP's default character list.
- `PhpStrings.Explode`, `PhpStrings.Implode` (src/MySQLBkp.php:104, 153, 156): `explode` and `implode` on one-byte separators.
- `PhpStrings.RemoveChar`, `PhpStrings.ReplaceAll` (src/MySQLBkp.php:104, 149): `str_replace` with a one-byte needle.
- `PhpStrings.AddSlashes` (src/MySQLBkp.php:148): a backslash before `'`, `"`, `\`; NUL becomes `\0`.
- `PhpStrings.Falsy` (src/MySQLBkp.php:178): PHP reads a string as false exactly when it is `""` or `"0"`.
- `Restore.Feed`, `Restore.Reassemble` (src/MySQLRestore.php:96-125): one line of the read loop; all lines, giving the statements handed out and the final state.
- `Restore.Replay` (src/MySQLRestore.php:96-126): the read loop with the server answering each statement; stops at the first refusal.
- `Restore.FileLines` (src/MySQLRestore.php:96): the lines `fgets` returns.
- `Restore.IsGzipped`, `Restore.GunzippedName` (src/MySQLRestore.php:85, 150, 177): the `.gz` test; `timestamp_` plus the name without its last three bytes, the directory removed again.
- `Backup.NonEmpty`, `Backup.PageWrites`, `Backup.TableWrites`, `Backup.TablesWrites` (src/MySQLBkp.php:110, 135-160, 178): the texts `saveFile` writes, one per call that is not skipped: for a table, its head together with page 1's chunk, then each later page's chunk that is not empty.
- `Restore.MySQLRestore.ReadPath` (src/MySQLRestore.php:85-94): the file the loop opens: the decompressed copy for a `.gz` backup, the backup itself otherwise.
- `Restore.MySQLRestore.GunzipFails` (src/MySQLRestore.php:86-89): a `.gz` backup whose decompression fails or returns a name PHP reads as false.
- `DumpReplay.NameLineOpen`, `DumpReplay.ReplayableTable`, `DumpReplay.SchemaReplays` (src/MySQLBkp.php:120, 125; src/MySQLRestore.php:100-121): the tables whose text the restore reads as the dump meant it: no newline in the name, a comment line ` * name ` that does not itself end in `*/`, and a CREATE text whose lines form one statement.
- `DumpReplay.DumpStatements` (src/MySQLBkp.php:115-157): each table's DROP, CREATE (trimmed lines glued) and INSERTs, in list order.

## Model

| member | source | states |
|---|---|---|
| Backup.MySQLBkp.constructor | src/MySQLBkp.php:65-76 | the file is named `db-timestamp.sql`; the model's file starts empty (see "## Left out" for an existing file of that name) |
| Backup.MySQLBkp.SaveFile | src/MySQLBkp.php:177-189 | `sql` is appended exactly when PHP does not read it as false ("" or "0"); the file stays the concatenation of its non-empty appends |
| Backup.MySQLBkp.BackupTables | src/MySQLBkp.php:94-172 | the file grows by the header and then each table's text in list order, and the writes are the header and then each table's writes; it stops with false after the tables before the first one whose name is over 50 bytes or that the server does not know, and returns true exactly when every table passes |
| Backup.MySQLBkp.BackupTable | src/MySQLBkp.php:115-161 | one table appends its comment, DROP, CREATE and then its page chunks in page order, in the writes `TableWrites` lists |
| Backup.MySQLBkp.WritePages | src/MySQLBkp.php:135-161 | the page loop appends the head and every page's chunk in page order, in exactly the writes `PageWrites` lists: the head with page 1's chunk, then each later non-empty chunk on its own |
| Backup.MySQLBkp.SavePage | src/MySQLBkp.php:137-160 | one pass appends what was pending and then page `b`'s INSERT as a single write, or writes nothing when both are empty |
| Backup.BuildFields | src/MySQLBkp.php:143-152 | the `$fields` loop yields the encoding of every value, in column order |
| Backup.BuildRegisters | src/MySQLBkp.php:141-154 | the `$registers` loop yields one tuple per row, in row order |
| Backup.ExplicitTableList | src/MySQLBkp.php:104 | an explicit list gives at least one name; no name holds a space or a comma; re-joining with `,` gives the list without its spaces |
| Backup.EscapeCons | src/MySQLBkp.php:148-149 | the escape works byte by byte: a newline becomes `\n`, NUL becomes `\0`, `'` `"` `\` get a backslash; the newline step never doubles a backslash `addslashes` added |
| Backup.EscapeSingleLine | src/MySQLBkp.php:148-149 | an escaped value holds no newline |
| Backup.EncodedValueShape | src/MySQLBkp.php:145-150 | NULL is the bare word `NULL`; any other value starts and ends with `"`; no encoding holds a newline |
| Backup.InsertSingleLine | src/MySQLBkp.php:153-156 | an INSERT statement is a single line when the table name is |
| Backup.Limit | src/MySQLBkp.php:138 | `LIMIT offset,count` yields at most `count` rows starting at `offset`, none past the end |
| Backup.BatchCount | src/MySQLBkp.php:135-136 | there is at least one page; the pages reach just past the last row |
| Backup.LastBatchEmpty | src/MySQLBkp.php:136-138 | the last page is empty exactly when the row count is a multiple of 1000, zero included |
| Backup.FullBatches | src/MySQLBkp.php:136-138 | every page but the last holds exactly 1000 rows |
| Backup.BatchSlice | src/MySQLBkp.php:138 | page `k` is rows `(k-1)*1000` up to `k*1000`, cut at the end of the table |
| Backup.BatchesCover | src/MySQLBkp.php:137-138 | pages 1 to `k` are exactly the first `k*1000` rows in order: no gap, no overlap |
| Backup.AllBatchesAreTable | src/MySQLBkp.php:136-138 | all pages one after the other are the table's rows |
| Backup.PagesAreTable | src/MySQLBkp.php:137-140 | the sequence of pages the loop reads, flattened, is the table |
| Backup.HeadLength | src/MySQLBkp.php:120-125 | a table's head is never read as false by `saveFile` |
| Backup.ChunkNotFalsy | src/MySQLBkp.php:155-159 | a page writes nothing or a text `saveFile` does not read as false |
| Backup.NonEmptyKeeps | src/MySQLBkp.php:178 | skipping the empty texts keeps the others in order: glued, they are the whole list glued, and each is a non-empty text of the list |
| Backup.PageWritesStream | src/MySQLBkp.php:135-160 | the page loop streams: its first write is the head with page 1's chunk, every later write is one later page's chunk and not empty, and together they are the head and all the chunks |
| Backup.TableWritesText | src/MySQLBkp.php:115-161 | a table's writes, glued together, are the table's text |
| Backup.FirstFailing | src/MySQLBkp.php:115-139 | the first table with a name over 50 bytes or unknown to the server: every table before it passes |
| SqlReader.QuotedRoundTrip | src/MySQLBkp.php:148-150 | the escaped value and the closing quote read back, under MySQL's literal rules, as the value and whatever follows |
| SqlReader.EscapeInjective | src/MySQLBkp.php:148-149 | two values with the same escape are equal |
| SqlReader.ValueRoundTrip | src/MySQLBkp.php:145-150 | an encoded value, NULL or not, reads back as itself |
| SqlReader.FieldsRoundTrip | src/MySQLBkp.php:143-153 | a row's fields joined by `,` read back as the row, columns in order |
| SqlReader.TupleRoundTrip | src/MySQLBkp.php:153 | a row's tuple reads back as the row, the empty row included |
| SqlReader.TuplesRoundTrip | src/MySQLBkp.php:141-156 | a page's tuples joined by `,` read back as the page, rows in order |
| SqlReader.InsertRoundTrip | src/MySQLBkp.php:156 | the INSERT of a non-empty page reads back as exactly that page |
| SqlReader.InsertInjective | src/MySQLBkp.php:156 | two non-empty pages with the same INSERT are the same page |
| PhpStrings.RTrim | src/MySQLRestore.php:97 | `rtrim` strips exactly the trailing run of trim characters |
| PhpStrings.LTrim | src/MySQLRestore.php:97 | `ltrim` strips exactly the leading run of trim characters |
| PhpStrings.TrimAround | src/MySQLRestore.php:97 | trimming removes exactly the trim characters around a text that neither starts nor ends with one |
| PhpStrings.Explode | src/MySQLBkp.php:104 | `explode` gives at least one piece, none holds the separator, and `implode` undoes it |
| PhpStrings.ExplodeImplode | src/MySQLBkp.php:104 | `explode` undoes `implode` on separator-free pieces |
| PhpStrings.RemoveChar | src/MySQLBkp.php:104 | removing spaces leaves none and leaves a space-free text alone |
| PhpStrings.RemoveCharKeeps | src/MySQLBkp.php:104 | removing spaces keeps a character other than a space exactly when the text holds it |
| PhpStrings.RemoveCharAppend | src/MySQLBkp.php:104 | removing spaces distributes over concatenation, so the kept characters stay in their order |
| PhpStrings.RemoveCharOne | src/MySQLBkp.php:104 | one space becomes nothing and any other character stays, once |
| PhpStrings.ImplodeAvoids | src/MySQLBkp.php:153-156 | `implode` adds no character that neither the separator nor a part holds |
| PhpStrings.ReplaceAllAppend | src/MySQLBkp.php:149 | replacing a one-byte needle distributes over concatenation |
| PhpStrings.ReplaceAllAbsent | src/MySQLBkp.php:149 | a needle whose last byte is absent changes nothing |
| PhpStrings.SubstrTail | src/MySQLRestore.php:85 | `substr($s, -3, 3)` is the last three bytes, or all of a shorter string |
| PhpStrings.SubstrDrop | src/MySQLRestore.php:150 | `substr($s, 0, -3)` is all but the last three bytes, or empty |
| Restore.Feed | src/MySQLRestore.php:97-123 | a short line changes nothing; the flag goes up only at a line starting `/*` and down only at a comment line ending `*/`; a code line is appended to the buffer, and a code line ending in `;` hands out the buffer and empties it; other lines leave the buffer alone |
| Restore.ScanLine | src/MySQLRestore.php:97-123 | the loop body for one line does what `Feed` says |
| Restore.OneLineBlock | src/MySQLRestore.php:100-123 | a `/* ... */` line leaves the flag down and the buffer alone |
| Restore.CommentSwallows | src/MySQLRestore.php:78-106 | while the flag is up, no line that does not close a block comment reaches the server or the buffer |
| Restore.ReassembleAppend | src/MySQLRestore.php:96-125 | two pieces of a script yield the first piece's statements, then the second's |
| Restore.ReassembleSplits | src/MySQLRestore.php:107-117 | the statements are the code lines grouped at each line ending in `;`; the unterminated tail is left in the buffer and never handed over |
| Restore.GroupConserves | src/MySQLRestore.php:107-117 | grouping loses and adds nothing: statements and tail, glued back, are the code lines; every statement ends in `;` |
| Restore.ReplayPrefix | src/MySQLRestore.php:96-126 | the server is given the script's statements in order, each once; all of them when the restore succeeds |
| Restore.ReplaySucceeds | src/MySQLRestore.php:111-119 | the restore succeeds exactly when the server accepts every statement |
| Restore.ReplayStopsAtRefusal | src/MySQLRestore.php:112-119 | a failed restore accepted everything before its last statement and stopped at that refused one |
| Restore.LineEnd | src/MySQLRestore.php:96 | `fgets` stops just after the first newline, or at the end of the text |
| Restore.FileLinesConcat | src/MySQLRestore.php:96 | the lines `fgets` returns, glued back, are the file |
| Restore.FileLinesAppend | src/MySQLRestore.php:96 | a text ending in a newline is read as its own lines, then the rest's |
| Restore.IsGzipped | src/MySQLRestore.php:85 | a backup is gzipped exactly when its name ends in `.gz` |
| Restore.GunzippedNameShape | src/MySQLRestore.php:150-177 | the decompressed copy is `timestamp_` plus the name minus `.gz`, which PHP never reads as false |
| Restore.MySQLRestore.constructor | src/MySQLRestore.php:49-58 | the restorer keeps the database name, directory and file |
| Restore.MySQLRestore.RestoreDb | src/MySQLRestore.php:75-139 | a failed decompression and a file that does not open fail with nothing run; otherwise the result and the statements run are those of `Replay` from the initial state (flag up, empty buffer); the decompressed copy is deleted exactly on success |
| DumpReplay.HeaderText | src/MySQLBkp.php:108-109 | for a database name without a newline, the header is the CREATE DATABASE line, a blank line, the USE line, and a blank line |
| DumpReplay.HeaderSwallowed | src/MySQLRestore.php:78-106 | for a database name without a newline: read from the initial state, the header hands the server nothing and leaves the flag up |
| DumpReplay.TableHeadText | src/MySQLBkp.php:120-125 | for a table name without a newline, a table's head is the comment block, the DROP line, a blank line, the CREATE text's lines ending in `;`, and a blank line |
| DumpReplay.CommentBlock | src/MySQLBkp.php:120 | for a name whose comment line does not itself end in `*/`, the `/** table */` block, whatever the flag before it, lowers the flag and hands the server nothing |
| DumpReplay.DropReplays | src/MySQLBkp.php:120 | for every table name, the DROP line is handed to the server as one statement |
| DumpReplay.HeadReplays | src/MySQLBkp.php:120 | for a name whose comment line does not itself end in `*/`, the comment block and the DROP hand the server only the DROP, with the flag down afterwards |
| DumpReplay.NameLineOpenWhen | src/MySQLBkp.php:120 | every name whose last byte is neither a blank nor `/` (such as `order-items`) keeps its comment line open |
| DumpReplay.ClosingName | src/MySQLBkp.php:120 | every name ending in `*/` closes its comment block on its own line, so the comment-line condition cannot be dropped |
| DumpReplay.SchemaRun | src/MySQLRestore.php:107-117 | lines made of inert lines and then one line ending in `;` yield exactly one statement, the code lines glued onto the buffer |
| DumpReplay.SchemaReplaysOnce | src/MySQLBkp.php:125 | a CREATE text whose lines are inert and end with one line ending in `;` (`SchemaReplays`) yields one statement, its trimmed lines glued together |
| DumpReplay.ChunksAreInserts | src/MySQLBkp.php:155-157 | the chunks of a list of pages are the INSERTs of its non-empty pages, in page order, each followed by a blank line |
| DumpReplay.PageChunksAreInserts | src/MySQLBkp.php:136-157 | the page loop's chunks for a table are the INSERTs of its non-empty pages of 1000 rows, in page order, each followed by a blank line |
| DumpReplay.ChunksReplay | src/MySQLBkp.php:155-157 | for a table name without a newline, the INSERT chunks of a table's pages yield one statement per non-empty page, in page order |
| DumpReplay.TableLines | src/MySQLBkp.php:120-157 | for a table name without a newline, a table's text is read as its head's lines, then its chunks' lines |
| DumpReplay.TableReplays | src/MySQLBkp.php:115-161 | for a `ReplayableTable`, one table's text, whatever the flag before it, yields its DROP, its CREATE and its INSERTs, in that order |
| DumpReplay.TablesReplay | src/MySQLBkp.php:115-162 | for tables that are all `ReplayableTable`, after a swallowed header, the tables' texts yield each table's statements in list order |
| DumpReplay.DumpReplays | src/MySQLBkp.php:94-172 | for a database name without a newline and tables that are all `ReplayableTable`, a whole dump, read by the restore, yields each table's DROP, CREATE and INSERTs in list order, and nothing for the header |
| DumpReplay.DumpRestores | src/MySQLRestore.php:75-139 | under the conditions of `DumpReplays`, restoring a dump succeeds exactly when the server accepts all of the dump's statements, and then runs exactly those, in order |
| DumpReplay.ReadBackInserts | src/MySQLBkp.php:137-157 | the INSERTs of a list of pages read back as the pages' rows, flattened |
| DumpReplay.TableRowsRestored | src/MySQLBkp.php:135-157 | the INSERTs the restore runs for a table hold exactly the table's rows, in order, each once |

## Left out

- The database connection (`initializeDatabase`, `prepare`, `execute`, `fetchAll`). The dump reads a `Database` value, and the restore's server is the oracle `exec`, which sees the statements run before. The undefined `$err` in the connection error paths is not modelled.
- Failures are modelled as the code evidently intends: abort and return false. In `namespace Sincco\Tools` the unqualified `Exception` does not name PHP's `\Exception` (src/MySQLRestore.php:88, 118, 128, 130; src/MySQLBkp.php:167), so in PHP these paths would not be caught as written.
- A table whose queries fail is a table absent from `schema` or `data`. `BackupTables` stops there with false and keeps what it already wrote.
- A table name over 50 bytes makes `str_repeat` get a negative count (src/MySQLBkp.php:116). PHP 8 raises an error there, before anything of that table is written; the model stops with false at that table, like a failed query. Under PHP 7 `str_repeat` only warns and the table would be dumped; that version is not modelled.
- Backup.MySQLBkp.BackupTables: a query that fails after a table's first page is saved (src/MySQLBkp.php:138-139) leaves that table's head and earlier pages in the file. The model fails only before a table is written, because the server is a fixed value whose tables answer every query or none.
- Backup.MySQLBkp.constructor: the source appends to whatever file already has the name `db-timestamp.sql` (`FILE_APPEND`, src/MySQLBkp.php:183), so two dumps of one database in the same second share a file. The model's file starts empty.
- The gzip step of the dump (src/MySQLBkp.php:163-164, 196-223) is a foreign compression library. Its result is discarded by the code, and the model only records the `gzip` choice.
- The decompression copy loop (src/MySQLRestore.php:145-178) is replaced by the input flag `gunzipOk`. Only the name of the copy is modelled.
- File-system effects (`mkdir`, `file_put_contents` with its lock, `fopen`, `fclose`, `unlink`) are not modelled:
  - the dump file is an append-only string;
  - the restore input is the list of lines `fgets` returns, plus a flag saying whether the file opens;
  - the deletion is the returned path.
- `date()` and `time()` are not modelled: the timestamp is a parameter.
- Console output (CLImate, `obfPrint`) and the `CREATE TABLE` name extraction at src/MySQLRestore.php:113 are left out. They only print, except the progress line's `str_repeat`, whose failure is modelled (above).
- The four regular expressions are anchored literals, modelled as prefix and suffix tests.
- `intval($numRows / $batchSize)` is modelled as integer division. The float division agrees for any row count below 2^53.
- The rows of a table are assumed to come back from `LIMIT` in one fixed order. The query has no `ORDER BY`.
- MySQL's `ANSI_QUOTES` mode, where double quotes delimit identifiers, and its `NO_BACKSLASH_ESCAPES` mode, where a backslash is an ordinary character, are not modelled. The reader follows the default mode; under either of those modes the dump's values would not read back as written.
- DumpReplay.DumpReplays: stated only for dumps that meet three conditions:
  - a database name without a newline;
  - table names without a newline whose comment line ` * name ` does not, trimmed, end in `*/` (`NameLineOpen`);
  - CREATE texts the restore reads as one statement (`SchemaReplays`: no line starting a comment, `//` or ending in `;` before the last).

  A newline in a name splits the dump into other lines: a database named `x*/` newline `y` ends its CREATE DATABASE line in `*/`, which lowers the comment flag and hands the server `` y`; ``. A table named `a*/` closes its own comment block; its ` */` line is then read as code and glued in front of the DROP. A CREATE text with a `/*!50100 ...` partition clause sets the comment flag, and the restore would swallow what follows. None of these cases is proved.
- DumpReplay.DumpRestores, DumpReplay.TableReplays, DumpReplay.TablesReplay: the same conditions (the database name only where the header is part of the text).
- DumpReplay.HeaderText, DumpReplay.HeaderSwallowed: stated for a database name without a newline, for the reason above.
- DumpReplay.TableHeadText, DumpReplay.ChunksReplay, DumpReplay.TableLines: stated for a table name without a newline, whose head and INSERTs are then whole lines of their own.
- DumpReplay.CommentBlock, DumpReplay.HeadReplays: stated for names that keep the comment line open (`NameLineOpen`); `ClosingName` shows that no name ending in `*/` does.
- DumpReplay.SchemaReplaysOnce: stated only for CREATE texts that meet `SchemaReplays`.
- Restore.GunzippedNameShape: stated for a timestamp and a file name without `/`, as `date("Ymd_His")` and a bare file name give. For other names, `Restore.GunzippedName` still computes what `str_replace` does.
