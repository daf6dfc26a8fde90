/**
  The restore engine of `MySQLRestore` (src/MySQLRestore.php): it reads a
  script line by line, drops blank and comment lines, glues the other lines
  together and hands the text to the server each time a line ends in `;`.

  The line-level behaviour is specified by `Feed`; what a whole script
  yields when every statement succeeds is `Reassemble`, and `Replay` adds
  the server, an oracle that may refuse a statement. `RestoreDb` is the
  loop itself, proved to behave as `Replay` says.
 */
module Restore {
  import opened Optional
  import opened PhpStrings
  import opened Seqs

  // ---------------------------------------------------------------------
  // Line classification (the four anchored patterns)

  /** The line starts a block comment (slash, star). */
  predicate OpensBlock(line: string) {
    StartsWith(line, "/*")
  }

  /** The line starts with two slashes. */
  predicate LineComment(line: string) {
    StartsWith(line, "//")
  }

  /** The line ends a block comment (star, slash). */
  predicate ClosesBlock(line: string) {
    EndsWith(line, "*/")
  }

  /** The line ends in a semicolon. */
  predicate Terminates(line: string) {
    EndsWith(line, ";")
  }

  /** A line the loop appends to the statement buffer when the comment flag
      is `inComment` before it: long enough, no block comment in progress,
      and neither comment prefix. */
  predicate IsCode(inComment: bool, raw: string) {
    var line := Trim(raw);
    |line| > 1 && !inComment && !OpensBlock(line) && !LineComment(line)
  }

  /** The comment flag after a line: untouched by a short line; otherwise set
      by a line that opens a block comment, and cleared by a comment line
      that closes one. */
  function NextFlag(inComment: bool, raw: string): bool {
    var line := Trim(raw);
    if |line| <= 1 then inComment
    else if (inComment || OpensBlock(line) || LineComment(line)) && ClosesBlock(line) then false
    else inComment || OpensBlock(line)
  }

  // ---------------------------------------------------------------------
  // One line

  /** The loop's state between two lines: the comment flag and the statement
      being gathered. */
  datatype Scanner = Scanner(inComment: bool, buffer: string)

  /** Lines 77-78: empty buffer, and the flag up. */
  const Start := Scanner(true, "")

  /** The state after a line, and the statement the line completed, if any. */
  datatype Fed = Fed(next: Scanner, stmt: Option<string>)

  /** Lines 97-123 for one line, when the server accepts what it is given. */
  function Feed(sc: Scanner, raw: string): (r: Fed)
    ensures |Trim(raw)| <= 1 ==> r == Fed(sc, None)
    ensures r.next.inComment == NextFlag(sc.inComment, raw)
    ensures !sc.inComment && r.next.inComment ==> OpensBlock(Trim(raw))
    ensures sc.inComment && !r.next.inComment ==> ClosesBlock(Trim(raw))
    ensures !IsCode(sc.inComment, raw) ==> r.stmt == None && r.next.buffer == sc.buffer
    ensures IsCode(sc.inComment, raw) && Terminates(Trim(raw)) ==>
      r.stmt == Some(sc.buffer + Trim(raw)) && r.next.buffer == ""
    ensures IsCode(sc.inComment, raw) && !Terminates(Trim(raw)) ==>
      r.stmt == None && r.next.buffer == sc.buffer + Trim(raw)
  {
    var line := Trim(raw);
    if |line| <= 1 then Fed(sc, None)
    else
      var flag := sc.inComment || OpensBlock(line);
      var isComment := flag || LineComment(line);
      if !isComment then
        var buffer := sc.buffer + line;
        if Terminates(line) then Fed(Scanner(flag, ""), Some(buffer))
        else Fed(Scanner(flag, buffer), None)
      else if ClosesBlock(line) then Fed(Scanner(false, sc.buffer), None)
      else Fed(Scanner(flag, sc.buffer), None)
  }

  /** A block comment opened and closed on one line leaves the flag down. */
  lemma OneLineBlock(sc: Scanner, raw: string)
    requires |Trim(raw)| > 1 && OpensBlock(Trim(raw)) && ClosesBlock(Trim(raw))
    ensures Feed(sc, raw) == Fed(Scanner(false, sc.buffer), None)
  {
  }

  // ---------------------------------------------------------------------
  // A whole script, every statement accepted

  /** The final state and the statements handed to the server, in order. */
  datatype Parsed = Parsed(final: Scanner, stmts: seq<string>)

  function Reassemble(sc: Scanner, lines: seq<string>): Parsed
    decreases |lines|
  {
    if |lines| == 0 then Parsed(sc, [])
    else
      var f := Feed(sc, lines[0]);
      var p := Reassemble(f.next, lines[1..]);
      Parsed(p.final, (if f.stmt.Some? then [f.stmt.value] else []) + p.stmts)
  }

  /** Two pieces of a script are read one after the other. */
  lemma {:induction false} ReassembleAppend(sc: Scanner, a: seq<string>, b: seq<string>)
    ensures var pa := Reassemble(sc, a);
      var pb := Reassemble(pa.final, b);
      Reassemble(sc, a + b) == Parsed(pb.final, pa.stmts + pb.stmts)
    decreases |a|
  {
    if |a| == 0 {
      assert a + b == b;
    } else {
      var f := Feed(sc, a[0]);
      var head := if f.stmt.Some? then [f.stmt.value] else [];
      var pa' := Reassemble(f.next, a[1..]);
      var pb := Reassemble(pa'.final, b);
      assert Reassemble(sc, a) == Parsed(pa'.final, head + pa'.stmts);
      ReassembleAppend(f.next, a[1..], b);
      assert Reassemble(f.next, a[1..] + b) == Parsed(pb.final, pa'.stmts + pb.stmts);
      ReassembleFirst(sc, a, b);
      assert Reassemble(sc, a + b) == Parsed(pb.final, head + (pa'.stmts + pb.stmts));
      SeqAssoc(head, pa'.stmts, pb.stmts);
    }
  }

  /** The first line of `a + b` is the first line of `a`. */
  lemma ReassembleFirst(sc: Scanner, a: seq<string>, b: seq<string>)
    requires |a| > 0
    ensures var f := Feed(sc, a[0]);
      var p := Reassemble(f.next, a[1..] + b);
      Reassemble(sc, a + b) == Parsed(p.final, (if f.stmt.Some? then [f.stmt.value] else []) + p.stmts)
  {
    assert (a + b)[0] == a[0];
    assert (a + b)[1..] == a[1..] + b;
  }

  /** With the flag up, nothing reaches the server and nothing changes until
      a line closes a block comment: the header of a dump is read as a comment. */
  lemma {:induction false} CommentSwallows(buffer: string, lines: seq<string>)
    requires forall i | 0 <= i < |lines| :: |Trim(lines[i])| <= 1 || !ClosesBlock(Trim(lines[i]))
    ensures Reassemble(Scanner(true, buffer), lines) == Parsed(Scanner(true, buffer), [])
    decreases |lines|
  {
    if |lines| > 0 {
      CommentSwallows(buffer, lines[1..]);
    }
  }

  // ---------------------------------------------------------------------
  // The same, in two stages: classify the lines, then group the code lines

  /** The comment flag after a run of lines. */
  function FinalFlag(inComment: bool, lines: seq<string>): bool
    decreases |lines|
  {
    if |lines| == 0 then inComment else FinalFlag(NextFlag(inComment, lines[0]), lines[1..])
  }

  /** The trimmed lines that are appended to the buffer, in order. */
  function CodeLines(inComment: bool, lines: seq<string>): seq<string>
    decreases |lines|
  {
    if |lines| == 0 then []
    else
      (if IsCode(inComment, lines[0]) then [Trim(lines[0])] else [])
      + CodeLines(NextFlag(inComment, lines[0]), lines[1..])
  }

  /** Statements cut from code lines, and the unterminated rest. */
  datatype Grouped = Grouped(stmts: seq<string>, leftover: string)

  /** Each statement runs from after the previous one up to and including
      the next line that ends in `;`. */
  function Group(buffer: string, code: seq<string>): Grouped
    decreases |code|
  {
    if |code| == 0 then Grouped([], buffer)
    else if Terminates(code[0]) then
      var g := Group("", code[1..]);
      Grouped([buffer + code[0]] + g.stmts, g.leftover)
    else Group(buffer + code[0], code[1..])
  }

  /** The reassembler is the two stages: the statements are the code lines
      grouped at each `;`, and what is left in the buffer at the end is the
      unterminated tail, never executed. */
  lemma {:induction false} ReassembleSplits(sc: Scanner, lines: seq<string>)
    ensures var g := Group(sc.buffer, CodeLines(sc.inComment, lines));
      Reassemble(sc, lines) == Parsed(Scanner(FinalFlag(sc.inComment, lines), g.leftover), g.stmts)
    decreases |lines|
  {
    if |lines| > 0 {
      var f := Feed(sc, lines[0]);
      ReassembleSplits(f.next, lines[1..]);
      var rest := CodeLines(f.next.inComment, lines[1..]);
      if IsCode(sc.inComment, lines[0]) {
        assert CodeLines(sc.inComment, lines) == [Trim(lines[0])] + rest;
        assert ([Trim(lines[0])] + rest)[1..] == rest;
      } else {
        assert CodeLines(sc.inComment, lines) == [] + rest;
        assert [] + rest == rest;
      }
    }
  }

  /** Grouping loses and adds nothing: the statements and the leftover, one
      after the other, are the buffer and the code lines; every statement
      ends in `;`. */
  lemma {:induction false} GroupConserves(buffer: string, code: seq<string>)
    ensures var g := Group(buffer, code);
      && Concat(g.stmts) + g.leftover == buffer + Concat(code)
      && forall i | 0 <= i < |g.stmts| :: Terminates(g.stmts[i])
    decreases |code|
  {
    if |code| > 0 {
      assert code == [code[0]] + code[1..];
      ConcatCons(code[0], code[1..]);
      if Terminates(code[0]) {
        GroupConserves("", code[1..]);
        GroupCut(buffer, code[0], Group("", code[1..]), Concat(code[1..]));
      } else {
        GroupConserves(buffer + code[0], code[1..]);
        AppendAssoc(buffer, code[0], Concat(code[1..]));
      }
    }
  }

  /** A statement cut at a line ending in `;`, in front of the groups of the rest. */
  lemma GroupCut(buffer: string, line: string, g: Grouped, rest: string)
    requires Terminates(line)
    requires Concat(g.stmts) + g.leftover == "" + rest
    requires forall i | 0 <= i < |g.stmts| :: Terminates(g.stmts[i])
    ensures Concat([buffer + line] + g.stmts) + g.leftover == buffer + (line + rest)
    ensures forall i | 0 <= i < |[buffer + line] + g.stmts| :: Terminates(([buffer + line] + g.stmts)[i])
  {
    var s := buffer + line;
    assert s[|s| - 1..] == line[|line| - 1..];
    ConcatCons(s, g.stmts);
    assert "" + rest == rest;
    AppendAssoc(s, Concat(g.stmts), g.leftover);
    AppendAssoc(buffer, line, rest);
  }

  // ---------------------------------------------------------------------
  // With the server

  /** The server: whether it accepts a statement, given the statements it
      accepted before it during this restore. */
  type Server = (seq<string>, string) -> bool

  /** Whether the restore succeeded, and the statements handed to the server,
      the refused one included. */
  datatype Outcome = Outcome(ok: bool, executed: seq<string>)

  /** The loop with the server in it: the first refusal ends the restore. */
  function Replay(sc: Scanner, lines: seq<string>, exec: Server, history: seq<string>): Outcome
    decreases |lines|
  {
    if |lines| == 0 then Outcome(true, [])
    else
      var f := Feed(sc, lines[0]);
      match f.stmt
      case None => Replay(f.next, lines[1..], exec, history)
      case Some(st) =>
        if exec(history, st) then
          var o := Replay(f.next, lines[1..], exec, history + [st]);
          Outcome(o.ok, [st] + o.executed)
        else Outcome(false, [st])
  }

  /** The server accepts each statement in turn. */
  predicate Accepts(exec: Server, history: seq<string>, stmts: seq<string>)
    decreases |stmts|
  {
    |stmts| == 0 || (exec(history, stmts[0]) && Accepts(exec, history + [stmts[0]], stmts[1..]))
  }

  /** The statements of a script that begins with a line. */
  lemma ReassembleHead(sc: Scanner, lines: seq<string>)
    requires |lines| > 0
    ensures var f := Feed(sc, lines[0]);
      var p := Reassemble(f.next, lines[1..]);
      Reassemble(sc, lines).stmts == if f.stmt.Some? then [f.stmt.value] + p.stmts else p.stmts
  {
    var f := Feed(sc, lines[0]);
    var p := Reassemble(f.next, lines[1..]);
    if f.stmt.None? {
      assert [] + p.stmts == p.stmts;
    }
  }

  /** The server sees the reassembled statements in order, each once, and
      all of them when the restore succeeds. */
  lemma {:induction false} ReplayPrefix(sc: Scanner, lines: seq<string>, exec: Server, history: seq<string>)
    ensures var p := Reassemble(sc, lines);
      var o := Replay(sc, lines, exec, history);
      && |o.executed| <= |p.stmts|
      && o.executed == p.stmts[..|o.executed|]
      && (o.ok ==> o.executed == p.stmts)
    decreases |lines|
  {
    if |lines| > 0 {
      var f := Feed(sc, lines[0]);
      var p := Reassemble(f.next, lines[1..]);
      ReassembleHead(sc, lines);
      if f.stmt.None? {
        ReplayPrefix(f.next, lines[1..], exec, history);
        assert Replay(sc, lines, exec, history) == Replay(f.next, lines[1..], exec, history);
        assert Reassemble(sc, lines).stmts == p.stmts;
      } else {
        var st := f.stmt.value;
        if exec(history, st) {
          ReplayPrefix(f.next, lines[1..], exec, history + [st]);
          var o := Replay(f.next, lines[1..], exec, history + [st]);
          assert Replay(sc, lines, exec, history) == Outcome(o.ok, [st] + o.executed);
          PrefixCons(st, o.executed, p.stmts);
        } else {
          assert Replay(sc, lines, exec, history) == Outcome(false, [st]);
          assert ([st] + p.stmts)[..1] == [st];
        }
      }
    }
  }

  lemma PrefixCons(x: string, a: seq<string>, b: seq<string>)
    requires |a| <= |b| && a == b[..|a|]
    ensures |[x] + a| <= |[x] + b| && [x] + a == ([x] + b)[..|[x] + a|]
  {
  }

  /** The restore succeeds exactly when the server accepts every statement. */
  lemma {:induction false} ReplaySucceeds(sc: Scanner, lines: seq<string>, exec: Server, history: seq<string>)
    ensures Replay(sc, lines, exec, history).ok <==> Accepts(exec, history, Reassemble(sc, lines).stmts)
    decreases |lines|
  {
    if |lines| > 0 {
      var f := Feed(sc, lines[0]);
      ReassembleHead(sc, lines);
      match f.stmt
      case None =>
        ReplaySucceeds(f.next, lines[1..], exec, history);
      case Some(st) =>
        ReplaySucceeds(f.next, lines[1..], exec, history + [st]);
        var stmts := [st] + Reassemble(f.next, lines[1..]).stmts;
        assert stmts[0] == st && stmts[1..] == Reassemble(f.next, lines[1..]).stmts;
    }
  }

  /** A failed restore stops at the first refusal: every statement before
      the last one handed over was accepted, and the last one was refused. */
  lemma {:induction false} ReplayStopsAtRefusal(sc: Scanner, lines: seq<string>, exec: Server, history: seq<string>)
    ensures var o := Replay(sc, lines, exec, history);
      !o.ok ==> RefusedLast(exec, history, o.executed)
    decreases |lines|
  {
    if |lines| > 0 {
      var f := Feed(sc, lines[0]);
      if f.stmt.None? {
        ReplayStopsAtRefusal(f.next, lines[1..], exec, history);
        assert Replay(sc, lines, exec, history) == Replay(f.next, lines[1..], exec, history);
      } else {
        var st := f.stmt.value;
        if exec(history, st) {
          ReplayStopsAtRefusal(f.next, lines[1..], exec, history + [st]);
          var o := Replay(f.next, lines[1..], exec, history + [st]);
          assert Replay(sc, lines, exec, history) == Outcome(o.ok, [st] + o.executed);
          if !o.ok {
            RefusalCons(exec, history, st, o.executed);
          }
        } else {
          assert Replay(sc, lines, exec, history) == Outcome(false, [st]);
          assert [st][..0] == [];
          assert history + [st][..0] == history;
          assert RefusedLast(exec, history, [st]);
        }
      }
    }
  }

  /** The server accepted every statement of `e` but the last, and refused that one. */
  predicate RefusedLast(exec: Server, history: seq<string>, e: seq<string>) {
    && |e| >= 1
    && Accepts(exec, history, e[..|e| - 1])
    && !exec(history + e[..|e| - 1], e[|e| - 1])
  }

  /** An accepted statement in front of a run that ends in a refusal. */
  lemma RefusalCons(exec: Server, history: seq<string>, st: string, e: seq<string>)
    requires exec(history, st)
    requires RefusedLast(exec, history + [st], e)
    ensures RefusedLast(exec, history, [st] + e)
  {
    var e' := [st] + e;
    var n := |e'|;
    assert e'[..n - 1] == [st] + e[..n - 2];
    assert e'[..n - 1][0] == st && e'[..n - 1][1..] == e[..n - 2];
    assert history + [st] + e[..n - 2] == history + e'[..n - 1];
  }

  // ---------------------------------------------------------------------
  // Reading a file with fgets

  /** Where the first line of a non-empty text ends: just after its first
      newline, or at the end of the text. */
  function LineEnd(s: string): (k: nat)
    requires |s| > 0
    ensures 0 < k <= |s|
    ensures forall j | 0 <= j < k - 1 :: s[j] != '\n'
    ensures s[k - 1] == '\n' || k == |s|
  {
    if s[0] == '\n' || |s| == 1 then 1 else 1 + LineEnd(s[1..])
  }

  /** The lines successive `fgets` calls return: each ends in its newline,
      except a last line the text does not end with one. */
  function FileLines(s: string): seq<string>
    decreases |s|
  {
    if |s| == 0 then [] else [s[..LineEnd(s)]] + FileLines(s[LineEnd(s)..])
  }

  /** The lines, put back together, are the text. */
  lemma {:induction false} FileLinesConcat(s: string)
    ensures Concat(FileLines(s)) == s
    decreases |s|
  {
    if |s| > 0 {
      var k := LineEnd(s);
      FileLinesConcat(s[k..]);
      assert ([s[..k]] + FileLines(s[k..]))[1..] == FileLines(s[k..]);
      assert s[..k] + s[k..] == s;
    }
  }

  /** A text of one line and its newline. */
  lemma OneLine(x: string)
    requires '\n' !in x
    ensures FileLines(x + "\n") == [x + "\n"]
  {
    var s := x + "\n";
    assert forall j | 0 <= j < |x| :: s[j] == x[j];
    assert LineEnd(s) == |s|;
    assert s[..|s|] == s;
    assert s[|s|..] == [];
  }

  /** A text that ends with a newline is read up to it, then the rest. */
  lemma {:induction false} FileLinesAppend(a: string, b: string)
    requires a == "" || a[|a| - 1] == '\n'
    ensures FileLines(a + b) == FileLines(a) + FileLines(b)
    decreases |a|
  {
    if |a| == 0 {
      assert a + b == b;
    } else {
      var k := LineEnd(a);
      FirstLineOf(a, b);
      if k < |a| {
        FileLinesAppend(a[k..], b);
      } else {
        assert a[k..] == "";
        assert a[k..] + b == b;
      }
    }
  }

  /** The first line of `a + b` is that of `a` when `a` ends with a newline. */
  lemma FirstLineOf(a: string, b: string)
    requires |a| > 0 && a[|a| - 1] == '\n'
    ensures var k := LineEnd(a);
      FileLines(a + b) == [a[..k]] + FileLines(a[k..] + b)
  {
    var k := LineEnd(a);
    var s := a + b;
    LineEndPrefix(a, b);
    assert s[..k] == a[..k];
    assert s[k..] == a[k..] + b;
  }

  /** A line that ends within `a` ends at the same place in `a + b`. */
  lemma {:induction false} LineEndPrefix(a: string, b: string)
    requires |a| > 0 && a[|a| - 1] == '\n'
    ensures LineEnd(a + b) == LineEnd(a)
    decreases |a|
  {
    if a[0] != '\n' && |a| > 1 {
      assert (a + b)[1..] == a[1..] + b;
      LineEndPrefix(a[1..], b);
    }
  }

  // ---------------------------------------------------------------------
  // File names

  /** Line 85: the name's last three bytes are `.gz`. */
  function IsGzipped(file: string): (r: bool)
    ensures r <==> EndsWith(file, ".gz")
  {
    SubstrTail(file, 3) == ".gz"
  }

  /** Lines 150 and 177: the decompressed copy is named after the timestamp
      and the file's name without its last three bytes, and the directory
      prefix is then removed from the full path. */
  function GunzippedName(dir: string, file: string, timestamp: string): string {
    ReplaceAll(dir + "/" + timestamp + "_" + SubstrDrop(file, 3), dir + "/", "")
  }

  /** When neither the timestamp nor the file name holds a `/`, removing the
      directory leaves exactly `timestamp_` and the name minus `.gz`, a name
      PHP never reads as false. */
  lemma GunzippedNameShape(dir: string, file: string, timestamp: string)
    requires '/' !in timestamp && '/' !in file
    requires IsGzipped(file)
    ensures GunzippedName(dir, file, timestamp) == timestamp + "_" + file[..|file| - 3]
    ensures !Falsy(GunzippedName(dir, file, timestamp))
  {
    var pat := dir + "/";
    var stem := timestamp + "_" + file[..|file| - 3];
    assert '/' !in stem by {
      assert forall k | 0 <= k < |stem| :: stem[k] in timestamp || stem[k] == '_' || stem[k] in file;
    }
    assert dir + "/" + timestamp + "_" + SubstrDrop(file, 3) == pat + stem;
    assert (pat + stem)[..|pat|] == pat && (pat + stem)[|pat|..] == stem;
    ReplaceAllAbsent(stem, pat, "");
    assert stem[|timestamp|] == '_';
  }

  // ---------------------------------------------------------------------
  // The engine

  /** The result of `then`: a prefix of statements, then an outcome. */
  function Then(done: seq<string>, o: Outcome): Outcome {
    Outcome(o.ok, done + o.executed)
  }

  /** One line of the loop, written the way `Replay` takes it. */
  lemma ReplayAt(sc: Scanner, lines: seq<string>, i: nat, exec: Server, history: seq<string>)
    requires i < |lines|
    ensures var f := Feed(sc, lines[i]);
      Replay(sc, lines[i..], exec, history) ==
        match f.stmt
        case None => Replay(f.next, lines[i + 1..], exec, history)
        case Some(st) =>
          if exec(history, st) then Then([st], Replay(f.next, lines[i + 1..], exec, history + [st]))
          else Outcome(false, [st])
  {
    assert lines[i..][0] == lines[i];
    assert lines[i..][1..] == lines[i + 1..];
  }

  /** The loop's invariant carried over line `i`, whose effect is known: it
      holds again after the line, or the line ends the run with a refusal. */
  lemma LoopStep(lines: seq<string>, i: nat, exec: Server, done: seq<string>, sc: Scanner, next: Scanner, stmt: Option<string>)
    requires i < |lines|
    requires Feed(sc, lines[i]) == Fed(next, stmt)
    requires Replay(Start, lines, exec, []) == Then(done, Replay(sc, lines[i..], exec, done))
    ensures stmt.None? ==>
      Replay(Start, lines, exec, []) == Then(done, Replay(next, lines[i + 1..], exec, done))
    ensures stmt.Some? && exec(done, stmt.value) ==>
      Replay(Start, lines, exec, []) == Then(done + [stmt.value], Replay(next, lines[i + 1..], exec, done + [stmt.value]))
    ensures stmt.Some? && !exec(done, stmt.value) ==>
      Replay(Start, lines, exec, []) == Outcome(false, done + [stmt.value])
  {
    ReplayAt(sc, lines, i, exec, done);
    if stmt.Some? && exec(done, stmt.value) {
      var st := stmt.value;
      ThenStep(done, st, Replay(next, lines[i + 1..], exec, done + [st]));
    }
  }

  /** A statement accepted: it moves from the outcome into the done prefix. */
  lemma ThenStep(done: seq<string>, st: string, o: Outcome)
    ensures Then(done, Then([st], o)) == Then(done + [st], o)
  {
    assert done + ([st] + o.executed) == (done + [st]) + o.executed;
  }

  /** The body of the loop of lines 96-126 for one line, up to the call to
      the server: the new comment flag, the new buffer, and the statement to
      run, if the line completed one. */
  method ScanLine(inComment: bool, buffer: string, raw: string)
    returns (flag: bool, sql: string, stmt: Option<string>)
    ensures Feed(Scanner(inComment, buffer), raw) == Fed(Scanner(flag, sql), stmt)
  {
    flag, sql, stmt := inComment, buffer, None;
    var line := Trim(raw);
    if |line| > 1 {
      var lineIsComment := false;
      if StartsWith(line, "/*") {
        flag := true;
        lineIsComment := true;
      }
      if flag || StartsWith(line, "//") {
        lineIsComment := true;
      }
      if !lineIsComment {
        sql := sql + line;
        if EndsWith(line, ";") {
          stmt := Some(sql);
          sql := "";
        }
      } else if EndsWith(line, "*/") {
        flag := false;
      }
    }
  }

  class MySQLRestore {
    const dbName: string
    const backupDir: string
    const backupFile: string

    /** Lines 49-58, minus the connection. */
    constructor (dbName: string, dir: string, file: string)
      ensures this.dbName == dbName && backupDir == dir && backupFile == file
    {
      this.dbName := dbName;
      backupDir := dir;
      backupFile := file;
    }

    /** The file the loop reads: the decompressed copy for a gzipped backup. */
    function ReadPath(timestamp: string): string
      reads this
    {
      backupDir + "/" + (if IsGzipped(backupFile) then GunzippedName(backupDir, backupFile, timestamp) else backupFile)
    }

    /** Lines 86-89: a gzipped backup is abandoned when decompression fails or
        when the name it returns is one PHP reads as false. */
    predicate GunzipFails(timestamp: string, gunzipOk: bool)
      reads this
    {
      IsGzipped(backupFile) && (!gunzipOk || Falsy(GunzippedName(backupDir, backupFile, timestamp)))
    }

    /** `restoreDb`. `gunzipOk` says whether decompression worked, `fileOpens`
        whether the file to read could be opened, `lines` is what `fgets`
        returns from it, `exec` the server. The result, the statements the
        server was given, and the file deleted at the end. */
    method RestoreDb(timestamp: string, gunzipOk: bool, fileOpens: bool, lines: seq<string>, exec: Server)
      returns (ok: bool, executed: seq<string>, removed: Option<string>)
      ensures GunzipFails(timestamp, gunzipOk) ==> !ok && executed == [] && removed == None
      ensures !GunzipFails(timestamp, gunzipOk) && !fileOpens ==> !ok && executed == [] && removed == None
      ensures !GunzipFails(timestamp, gunzipOk) && fileOpens ==>
        var o := Replay(Start, lines, exec, []);
        && ok == o.ok
        && executed == o.executed
        && removed == if ok && IsGzipped(backupFile) then Some(ReadPath(timestamp)) else None
    {
      executed := [];
      removed := None;
      var sql := "";
      var multiLineComment := true;
      var isGzipped := SubstrTail(backupFile, 3) == ".gz";
      if isGzipped {
        if !gunzipOk {
          return false, executed, removed;
        }
        var gunzipped := GunzippedName(backupDir, backupFile, timestamp);
        if Falsy(gunzipped) {
          return false, executed, removed;
        }
      }
      if !fileOpens {
        return false, executed, removed;
      }
      var i := 0;
      while i < |lines|
        invariant 0 <= i <= |lines|
        invariant Replay(Start, lines, exec, []) == Then(executed, Replay(Scanner(multiLineComment, sql), lines[i..], exec, executed))
      {
        var flag, buffer, stmt := ScanLine(multiLineComment, sql, lines[i]);
        LoopStep(lines, i, exec, executed, Scanner(multiLineComment, sql), Scanner(flag, buffer), stmt);
        multiLineComment := flag;
        if stmt.Some? {
          var accepted := exec(executed, stmt.value);
          executed := executed + [stmt.value];
          if !accepted {
            return false, executed, removed;
          }
        }
        sql := buffer;
        i := i + 1;
      }
      assert executed + [] == executed;
      ok := true;
      if isGzipped {
        removed := Some(ReadPath(timestamp));
      }
    }
  }
}
