/**
 The migration script splitter (internal/app/bootstrap/migrate.go), for scripts whose lines fit the line
 scanner's buffer.
 */
module SqlSplit {
  import opened Text

  // ---------- lines ----------

  ghost predicate OneLine(s: string) {
    forall i | 0 <= i < |s| :: s[i] != '\n'
  }

  /** Where the first line of s ends. */
  function LineEnd(s: string): (n: nat)
    ensures n <= |s|
    ensures forall i | 0 <= i < n :: s[i] != '\n'
    ensures n < |s| ==> s[n] == '\n'
  {
    if s == "" || s[0] == '\n' then 0 else 1 + LineEnd(s[1..])
  }

  function DropCR(line: string): (r: string)
    ensures r <= line
  {
    if line != "" && line[|line| - 1] == '\r' then line[..|line| - 1] else line
  }

  /** bufio.ScanLines */
  function Lines(s: string): seq<string>
    decreases |s|
  {
    if s == "" then []
    else
      var n := LineEnd(s);
      if n == |s| then [DropCR(s)] else [DropCR(s[..n])] + Lines(s[n + 1..])
  }

  lemma LineEndAt(line: string, rest: string)
    requires OneLine(line)
    ensures LineEnd(line + "\n" + rest) == |line|
  {
    var s := line + "\n" + rest;
    assert s[|line|] == '\n';
    assert forall i | 0 <= i < |line| :: s[i] == line[i];
  }

  /** Lines read line by line, whatever they hold: each loses its line break and one carriage return before
      it, and a last line needs no line break. */
  lemma LinesAre(line: string, rest: string)
    requires OneLine(line)
    ensures Lines("") == [] && (line != "" ==> Lines(line) == [DropCR(line)])
    ensures Lines(line + "\n" + rest) == [DropCR(line)] + Lines(rest)
    ensures DropCR(line + "\r") == line && (line != "" && line[|line| - 1] != '\r' ==> DropCR(line) == line)
  {
    var s := line + "\n" + rest;
    LineEndAt(line, rest);
    assert s[..|line|] == line && s[|line| + 1..] == rest;
    assert (line + "\r")[..|line|] == line;
    if line != "" {
      NoLineBreak(line);
      assert line[..|line|] == line;
    }
  }

  lemma {:induction false} NoLineBreak(line: string)
    requires OneLine(line)
    ensures LineEnd(line) == |line|
  {
    var n := LineEnd(line);
  }

  /** Lines undoes putting a line in front; a trimmed line has no carriage return to lose. */
  lemma LinesCons(line: string, rest: string)
    requires OneLine(line) && line != "" && Trimmed(line)
    ensures Lines(line + "\n" + rest) == [line] + Lines(rest)
  {
    var s := line + "\n" + rest;
    LineEndAt(line, rest);
    assert s[..|line|] == line && s[|line| + 1..] == rest;
  }

  // ---------- the splitter ----------

  predicate IsComment(line: string) {
    "--" <= line || "#" <= line
  }

  predicate Kept(line: string) {
    line != "" && !IsComment(line)
  }

  predicate EndsStatement(line: string) {
    line != "" && line[|line| - 1] == ';'
  }

  datatype Split = Split(statements: seq<string>, current: string)

  function Extend(current: string, line: string): string {
    if current == "" then line else current + "\n" + line
  }

  function AddStatement(statements: seq<string>, statement: string): seq<string> {
    if statement == "" then statements else statements + [statement]
  }

  /** A kept line joins the statement being collected, and a semicolon at its end closes it. */
  function TakeLine(st: Split, line: string): Split {
    var current := Extend(st.current, line);
    if EndsStatement(line) then Split(AddStatement(st.statements, Trim(current[..|current| - 1])), "")
    else st.(current := current)
  }

  function StepLine(st: Split, raw: string): Split {
    var line := Trim(raw);
    if Kept(line) then TakeLine(st, line) else st
  }

  function Fold(st: Split, lines: seq<string>): Split
    decreases |lines|
  {
    if lines == [] then st else Fold(StepLine(st, lines[0]), lines[1..])
  }

  /** What follows the scanner loop. */
  function Finish(st: Split): seq<string> {
    AddStatement(st.statements, Trim(st.current))
  }

  function SplitOf(lines: seq<string>): seq<string> {
    Finish(Fold(Split([], ""), lines))
  }

  function SplitStatements(content: string): seq<string> {
    SplitOf(Lines(content))
  }

  /** One round of the scanner loop. */
  method AddLine(statements: seq<string>, current: string, raw: string) returns (statements': seq<string>, current': string)
    ensures Split(statements', current') == StepLine(Split(statements, current), raw)
  {
    statements', current' := statements, current;
    var line := Trim(raw);
    if !Kept(line) {
      return;
    }
    current' := Extend(current', line);
    if EndsStatement(line) {
      var statement := Trim(current'[..|current'| - 1]);
      statements' := AddStatement(statements', statement);
      current' := "";
    }
  }

  /** splitSQLStatements: no text is lost, every statement is clean, and splitting the printed statements gives
      them back. */
  method SplitSQLStatements(content: string) returns (statements: seq<string>)
    ensures statements == SplitStatements(content)
    ensures LinesOfAll(statements) == Remaining(Lines(content))
    ensures forall s | s in statements :: s != "" && Trimmed(s) && CleanLines(Lines(s))
    ensures SplitStatements(Print(statements)) == statements
  {
    NoBlankOrComment(content);
    SplitIsStable(content);
    LinesConserved(content);
    statements := SplitLines(Lines(content));
  }

  /** The scanner loop and what follows it. */
  method SplitLines(lines: seq<string>) returns (statements: seq<string>)
    ensures statements == SplitOf(lines)
  {
    statements := [];
    var current := "";
    ghost var all := Fold(Split([], ""), lines);
    for i := 0 to |lines|
      invariant Fold(Split(statements, current), lines[i..]) == all
    {
      assert lines[i..][0] == lines[i] && lines[i..][1..] == lines[i + 1..];
      statements, current := AddLine(statements, current, lines[i]);
    }
    var trailing := Trim(current);
    if trailing != "" {
      statements := statements + [trailing];
    }
  }

  // ---------- the shape of a statement ----------

  /** A line as it stands in a statement. */
  ghost predicate GoodLine(line: string) {
    Kept(line) && Trimmed(line) && OneLine(line)
  }

  /** Good lines none of which ends a statement. */
  ghost predicate Open(lines: seq<string>) {
    forall k | 0 <= k < |lines| :: GoodLine(lines[k]) && !EndsStatement(lines[k])
  }

  function ExtendAll(current: string, lines: seq<string>): string
    decreases |lines|
  {
    if lines == [] then current else ExtendAll(Extend(current, lines[0]), lines[1..])
  }

  /** The text of lines `init` followed by `last`. */
  function Body(init: seq<string>, last: string): string {
    Extend(ExtendAll("", init), last)
  }

  /** A statement: good lines, none but the last of which ends in a semicolon. */
  ghost predicate IsStatement(s: string) {
    exists init, last :: Open(init) && GoodLine(last) && s == Body(init, last)
  }

  lemma {:induction false} ExtendAllAppend(current: string, lines: seq<string>, line: string)
    ensures ExtendAll(current, lines + [line]) == Extend(ExtendAll(current, lines), line)
    decreases |lines|
  {
    var all := lines + [line];
    if lines != [] {
      assert all[1..] == lines[1..] + [line];
      ExtendAllAppend(Extend(current, lines[0]), lines[1..], line);
    } else {
      assert all[1..] == [];
    }
  }

  lemma ExtendTrimmed(current: string, line: string)
    requires Trimmed(current) && Trimmed(line) && line != ""
    ensures Extend(current, line) != "" && Trimmed(Extend(current, line))
  {
    if current != "" {
      var r := current + "\n" + line;
      assert r[0] == current[0] && r[|r| - 1] == line[|line| - 1];
    }
  }

  lemma {:induction false} ExtendAllTrimmed(current: string, lines: seq<string>)
    requires Trimmed(current) && Open(lines)
    ensures Trimmed(ExtendAll(current, lines))
    ensures current != "" || lines != [] ==> ExtendAll(current, lines) != ""
    decreases |lines|
  {
    if lines != [] {
      assert GoodLine(lines[0]);
      ExtendTrimmed(current, lines[0]);
      ExtendAllTrimmed(Extend(current, lines[0]), lines[1..]);
    }
  }

  lemma StatementTrimmed(init: seq<string>, last: string)
    requires Open(init) && GoodLine(last)
    ensures Body(init, last) != "" && Trimmed(Body(init, last))
  {
    ExtendAllTrimmed("", init);
    ExtendTrimmed(ExtendAll("", init), last);
  }

  // ---------- trimming ----------

  lemma TrimRightIs(s: string, r: string)
    requires r <= s && (r != "" ==> !IsSpace(r[|r| - 1])) && forall i | |r| <= i < |s| :: IsSpace(s[i])
    ensures TrimRight(s) == r
  {
    var t := TrimRight(s);
    assert t != "" ==> s[|t| - 1] == t[|t| - 1];
    assert r != "" ==> s[|r| - 1] == r[|r| - 1];
  }

  /** Trimming what follows a trimmed text leaves that text alone. */
  lemma TrimAfter(a: string, x: string)
    requires a != "" && Trimmed(a)
    ensures Trim(a + x) == a + TrimRight(x)
  {
    TrimLeftKeeps(a + x);
    TrimRightAfter(a, x);
  }

  lemma TrimLeftKeeps(s: string)
    requires s != "" && !IsSpace(s[0])
    ensures TrimLeft(s) == s
  {
  }

  lemma TrimRightAfter(a: string, x: string)
    requires a != "" && !IsSpace(a[|a| - 1])
    ensures TrimRight(a + x) == a + TrimRight(x)
  {
    var s, t := a + x, TrimRight(x);
    var r := a + t;
    PrefixAfter(a, t, x);
    assert r[|r| - 1] == if t == "" then a[|a| - 1] else t[|t| - 1];
    forall i | |r| <= i < |s| ensures IsSpace(s[i]) {
      assert s[i] == x[i - |a|];
    }
    TrimRightIs(s, r);
  }

  lemma PrefixAfter(a: string, t: string, x: string)
    requires t <= x
    ensures a + t <= a + x
  {
  }

  lemma TrimOneLine(s: string)
    requires OneLine(s)
    ensures OneLine(Trim(s))
  {
    var left := TrimLeft(s);
    assert forall i | 0 <= i < |left| :: left[i] == s[|s| - |left| + i];
  }

  lemma {:induction false} LinesAreLines(s: string)
    ensures forall k | 0 <= k < |Lines(s)| :: OneLine(Lines(s)[k])
    decreases |s|
  {
    if s != "" {
      var n := LineEnd(s);
      assert OneLine(DropCR(s[..n]));
      if n < |s| {
        LinesAreLines(s[n + 1..]);
      } else {
        assert s[..n] == s;
      }
    }
  }

  // ---------- every result is a statement ----------

  /** What is left of a kept line once its semicolon and the space before it are gone: nothing, or a line
      that is still good. */
  lemma ClosingLine(line: string)
    requires GoodLine(line) && EndsStatement(line)
    ensures var rest := TrimRight(line[..|line| - 1]); rest == "" || GoodLine(rest)
    ensures Trim(line[..|line| - 1]) == TrimRight(line[..|line| - 1])
  {
    var body := line[..|line| - 1];
    var rest := TrimRight(body);
    assert rest <= line;
    if body != "" {
      assert body[0] == line[0];
      assert rest != "" && rest[0] == line[0];
      assert TrimLeft(body) == body;
    }
  }

  lemma {:induction false} TrimNewLine(body: string)
    ensures TrimRight("\n" + body) == if TrimRight(body) == "" then "" else "\n" + TrimRight(body)
  {
    if body == "" {
      assert TrimRight("\n") == TrimRight("");
    } else if IsSpace(body[|body| - 1]) {
      DropLast("\n", body);
      TrimNewLine(body[..|body| - 1]);
    }
  }

  lemma DropLast(a: string, b: string)
    requires b != ""
    ensures (a + b)[..|a + b| - 1] == a + b[..|b| - 1]
  {
  }

  lemma Assoc<T>(a: seq<T>, b: seq<T>, c: seq<T>)
    ensures (a + b) + c == a + (b + c)
  {
  }

  /** The statement that a closing line makes of the collected text: the semicolon and the space around it
      go. */
  function Closed(current: string, line: string): string
    requires line != ""
  {
    var rest := TrimRight(line[..|line| - 1]);
    if rest == "" then current else Extend(current, rest)
  }

  lemma CloseLater(current: string, line: string)
    requires current != "" && Trimmed(current) && line != ""
    ensures Trim(current + "\n" + line[..|line| - 1]) == Closed(current, line)
  {
    var body := line[..|line| - 1];
    Assoc(current, "\n", body);
    TrimAfter(current, "\n" + body);
    TrimNewLine(body);
    Assoc(current, "\n", TrimRight(body));
  }

  lemma TakeFirst(statements: seq<string>, line: string)
    requires EndsStatement(line) && Trim(line[..|line| - 1]) == TrimRight(line[..|line| - 1])
    ensures TakeLine(Split(statements, ""), line) == Split(AddStatement(statements, Closed("", line)), "")
  {
    assert Extend("", line) == line;
  }

  lemma TakeLater(statements: seq<string>, current: string, line: string)
    requires EndsStatement(line) && current != "" && Trimmed(current)
    ensures TakeLine(Split(statements, current), line) == Split(AddStatement(statements, Closed(current, line)), "")
  {
    DropLast(current + "\n", line);
    CloseLater(current, line);
  }

  lemma TakeCloses(st: Split, line: string)
    requires Trimmed(st.current) && GoodLine(line) && EndsStatement(line)
    ensures TakeLine(st, line) == Split(AddStatement(st.statements, Closed(st.current, line)), "")
  {
    if st.current == "" {
      ClosingLine(line);
      TakeFirst(st.statements, line);
    } else {
      TakeLater(st.statements, st.current, line);
    }
  }

  /** The text collected so far: good lines none of which ends in a semicolon. */
  ghost predicate IsOpen(current: string) {
    exists lines :: Open(lines) && current == ExtendAll("", lines)
  }

  ghost predicate AllStatements(statements: seq<string>) {
    forall k | 0 <= k < |statements| :: IsStatement(statements[k])
  }

  lemma OpenTextIsStatement(lines: seq<string>)
    requires Open(lines) && lines != []
    ensures IsStatement(ExtendAll("", lines))
  {
    var n := |lines| - 1;
    assert lines == lines[..n] + [lines[n]];
    ExtendAllAppend("", lines[..n], lines[n]);
    assert Open(lines[..n]) && GoodLine(lines[n]);
    assert ExtendAll("", lines) == Body(lines[..n], lines[n]);
  }

  lemma ClosedIsStatement(lines: seq<string>, line: string)
    requires Open(lines) && GoodLine(line) && EndsStatement(line)
    ensures var s := Closed(ExtendAll("", lines), line); s == "" || IsStatement(s)
  {
    var rest := TrimRight(line[..|line| - 1]);
    ClosingLine(line);
    if rest != "" {
      assert Body(lines, rest) == Extend(ExtendAll("", lines), rest);
    } else if lines != [] {
      OpenTextIsStatement(lines);
    }
  }

  lemma NothingIsOpen()
    ensures IsOpen("")
  {
    assert Open([]) && ExtendAll("", []) == "";
  }

  lemma TakeKeeps(st: Split, line: string)
    requires AllStatements(st.statements) && IsOpen(st.current) && GoodLine(line)
    ensures AllStatements(TakeLine(st, line).statements) && IsOpen(TakeLine(st, line).current)
  {
    var lines :| Open(lines) && st.current == ExtendAll("", lines);
    if EndsStatement(line) {
      ExtendAllTrimmed("", lines);
      TakeCloses(st, line);
      ClosedIsStatement(lines, line);
      NothingIsOpen();
    } else {
      ExtendAllAppend("", lines, line);
      assert Open(lines + [line]);
    }
  }

  lemma StepKeeps(st: Split, raw: string)
    requires AllStatements(st.statements) && IsOpen(st.current) && OneLine(raw)
    ensures AllStatements(StepLine(st, raw).statements) && IsOpen(StepLine(st, raw).current)
  {
    TrimOneLine(raw);
    if Kept(Trim(raw)) {
      TakeKeeps(st, Trim(raw));
    }
  }

  lemma {:induction false} FoldKeeps(st: Split, lines: seq<string>)
    requires AllStatements(st.statements) && IsOpen(st.current) && forall k | 0 <= k < |lines| :: OneLine(lines[k])
    ensures AllStatements(Fold(st, lines).statements) && IsOpen(Fold(st, lines).current)
    decreases |lines|
  {
    if lines != [] {
      StepKeeps(st, lines[0]);
      FoldKeeps(StepLine(st, lines[0]), lines[1..]);
    }
  }

  lemma ResultsAreStatements(content: string)
    ensures AllStatements(SplitStatements(content))
  {
    LinesAreLines(content);
    NothingIsOpen();
    FoldKeeps(Split([], ""), Lines(content));
    var current := Fold(Split([], ""), Lines(content)).current;
    var lines :| Open(lines) && current == ExtendAll("", lines);
    ExtendAllTrimmed("", lines);
    if lines != [] {
      OpenTextIsStatement(lines);
    }
  }

  // ---------- nothing is lost ----------

  /** The line closes a statement. */
  predicate Closes(raw: string) {
    var line := Trim(raw);
    line != "" && !("--" <= line) && !("#" <= line) && line[|line| - 1] == ';'
  }

  /** What a script line leaves in the result: nothing when it is blank or a comment, otherwise the trimmed
      line, without the semicolon at its end and the space before that. */
  function Remains(raw: string): string {
    RemainsOf(Trim(raw))
  }

  function RemainsOf(line: string): string {
    if line == "" || "--" <= line || "#" <= line then ""
    else if line[|line| - 1] == ';' then TrimRight(line[..|line| - 1])
    else line
  }

  function AddLineText(lines: seq<string>, line: string): seq<string> {
    if line == "" then lines else lines + [line]
  }

  /** What all lines leave, in order. */
  function Remaining(lines: seq<string>): seq<string> {
    if lines == [] then [] else AddLineText(Remaining(lines[..|lines| - 1]), Remains(lines[|lines| - 1]))
  }

  function LinesOfAll(statements: seq<string>): seq<string> {
    if statements == [] then [] else LinesOfAll(statements[..|statements| - 1]) + Lines(statements[|statements| - 1])
  }

  lemma LinesOfAdded(statements: seq<string>, s: string)
    ensures LinesOfAll(AddStatement(statements, s)) == LinesOfAll(statements) + Lines(s)
  {
    if s == "" {
      assert LinesOfAll(statements) + Lines(s) == LinesOfAll(statements);
    } else {
      var more := statements + [s];
      assert more[..|more| - 1] == statements;
    }
  }

  /** The lines of the text collected so far are the lines it was collected from. */
  lemma OpenLines(lines: seq<string>)
    requires Open(lines)
    ensures Lines(ExtendAll("", lines)) == lines
  {
    if lines != [] {
      var n := |lines| - 1;
      assert lines == lines[..n] + [lines[n]];
      ExtendAllAppend("", lines[..n], lines[n]);
      assert Open(lines[..n]) && GoodLine(lines[n]);
      LinesOfBody(lines[..n], lines[n]);
    }
  }

  lemma ClosedLines(lines: seq<string>, line: string)
    requires Open(lines) && GoodLine(line) && EndsStatement(line)
    ensures Lines(Closed(ExtendAll("", lines), line)) == AddLineText(lines, TrimRight(line[..|line| - 1]))
  {
    var rest := TrimRight(line[..|line| - 1]);
    ClosingLine(line);
    if rest == "" {
      OpenLines(lines);
    } else {
      assert Body(lines, rest) == Extend(ExtendAll("", lines), rest);
      LinesOfBody(lines, rest);
    }
  }

  lemma AppendText(a: seq<string>, b: seq<string>, line: string)
    ensures a + AddLineText(b, line) == AddLineText(a + b, line)
  {
  }

  /** All text taken so far, in statements or not. */
  function TextOf(st: Split): seq<string> {
    LinesOfAll(st.statements) + Lines(st.current)
  }

  lemma CloseConserves(st: Split, lines: seq<string>, line: string)
    requires Open(lines) && st.current == ExtendAll("", lines) && GoodLine(line) && EndsStatement(line)
    ensures TextOf(TakeLine(st, line)) == AddLineText(TextOf(st), TrimRight(line[..|line| - 1]))
  {
    var s := Closed(st.current, line);
    OpenLines(lines);
    ExtendAllTrimmed("", lines);
    TakeCloses(st, line);
    ClosedLines(lines, line);
    LinesOfAdded(st.statements, s);
    AppendText(LinesOfAll(st.statements), lines, TrimRight(line[..|line| - 1]));
    NothingMore(AddStatement(st.statements, s));
  }

  lemma NothingMore(statements: seq<string>)
    ensures TextOf(Split(statements, "")) == LinesOfAll(statements)
  {
    assert LinesOfAll(statements) + [] == LinesOfAll(statements);
  }

  lemma OpenConserves(st: Split, lines: seq<string>, line: string)
    requires Open(lines) && st.current == ExtendAll("", lines) && GoodLine(line) && !EndsStatement(line)
    ensures TextOf(TakeLine(st, line)) == AddLineText(TextOf(st), line)
  {
    OpenLines(lines);
    ExtendAllAppend("", lines, line);
    assert Open(lines + [line]);
    OpenLines(lines + [line]);
    AppendText(LinesOfAll(st.statements), lines, line);
  }

  lemma KeptConserves(st: Split, line: string)
    requires IsOpen(st.current) && GoodLine(line)
    ensures TextOf(TakeLine(st, line)) == AddLineText(TextOf(st), RemainsOf(line))
  {
    var lines :| Open(lines) && st.current == ExtendAll("", lines);
    if EndsStatement(line) {
      CloseConserves(st, lines, line);
    } else {
      OpenConserves(st, lines, line);
    }
  }

  lemma StepConserves(st: Split, raw: string)
    requires IsOpen(st.current) && OneLine(raw)
    ensures TextOf(StepLine(st, raw)) == AddLineText(TextOf(st), Remains(raw))
  {
    TrimOneLine(raw);
    if Kept(Trim(raw)) {
      KeptConserves(st, Trim(raw));
    }
  }

  lemma {:induction false} FoldSnoc(st: Split, lines: seq<string>)
    requires lines != []
    ensures Fold(st, lines) == StepLine(Fold(st, lines[..|lines| - 1]), lines[|lines| - 1])
  {
    var init, last := lines[..|lines| - 1], lines[|lines| - 1];
    assert lines == init + [last];
    FoldConcat(st, init, [last]);
    assert [last][1..] == [];
  }

  ghost predicate AllOneLine(lines: seq<string>) {
    forall k | 0 <= k < |lines| :: OneLine(lines[k])
  }

  lemma {:induction false} FoldConserves(lines: seq<string>)
    requires AllOneLine(lines)
    ensures TextOf(Fold(Split([], ""), lines)) == Remaining(lines)
    ensures IsOpen(Fold(Split([], ""), lines).current)
  {
    NothingIsOpen();
    if lines != [] {
      var init, last := lines[..|lines| - 1], lines[|lines| - 1];
      FoldConserves(init);
      FoldSnoc(Split([], ""), lines);
      StepConserves(Fold(Split([], ""), init), last);
      FoldKeeps(Split([], ""), lines);
    }
  }

  lemma SplitConserves(lines: seq<string>)
    requires AllOneLine(lines)
    ensures LinesOfAll(SplitOf(lines)) == Remaining(lines)
  {
    FoldConserves(lines);
    var st := Fold(Split([], ""), lines);
    var open :| Open(open) && st.current == ExtendAll("", open);
    ExtendAllTrimmed("", open);
    LinesOfAdded(st.statements, st.current);
  }

  /** For every script, the lines of its statements, in order, are what its lines leave: each line that is
      neither blank nor a comment, trimmed, without a closing semicolon. */
  lemma LinesConserved(content: string)
    ensures LinesOfAll(SplitStatements(content)) == Remaining(Lines(content))
  {
    LinesAreLines(content);
    SplitConserves(Lines(content));
  }

  /** Statements already done have no part in what follows. */
  lemma {:induction false} FoldFrame(done: seq<string>, st: Split, lines: seq<string>)
    ensures Fold(Split(done + st.statements, st.current), lines)
         == Split(done + Fold(st, lines).statements, Fold(st, lines).current)
    decreases |lines|
  {
    if lines != [] {
      StepFrame(done, st, lines[0]);
      FoldFrame(done, StepLine(st, lines[0]), lines[1..]);
    }
  }

  lemma AddFrame(done: seq<string>, statements: seq<string>, s: string)
    ensures AddStatement(done + statements, s) == done + AddStatement(statements, s)
  {
  }

  lemma StepFrame(done: seq<string>, st: Split, raw: string)
    ensures StepLine(Split(done + st.statements, st.current), raw)
         == Split(done + StepLine(st, raw).statements, StepLine(st, raw).current)
  {
    var line := Trim(raw);
    var current := Extend(st.current, line);
    if Kept(line) && EndsStatement(line) {
      AddFrame(done, st.statements, Trim(current[..|current| - 1]));
    }
  }

  lemma FinishClosed(st: Split)
    requires st.current == ""
    ensures Finish(st) == st.statements
  {
    assert Trimmed("");
  }

  lemma FinishFrame(done: seq<string>, st: Split)
    ensures Finish(Split(done + st.statements, st.current)) == done + Finish(st)
  {
    AddFrame(done, st.statements, Trim(st.current));
  }

  lemma ClosingStep(st: Split, raw: string)
    requires Closes(raw)
    ensures StepLine(st, raw).current == "" && |StepLine(st, raw).statements| <= |st.statements| + 1
  {
    assert Kept(Trim(raw)) && EndsStatement(Trim(raw));
  }

  lemma OtherStep(st: Split, raw: string)
    requires !Closes(raw)
    ensures StepLine(st, raw).statements == st.statements
  {
    assert Kept(Trim(raw)) ==> !EndsStatement(Trim(raw));
  }

  lemma NothingOpenAfter(a: seq<string>, raw: string)
    requires Closes(raw)
    ensures Fold(Split([], ""), a + [raw]).current == ""
  {
    FoldConcat(Split([], ""), a, [raw]);
    FoldOne(Fold(Split([], ""), a), raw);
    ClosingStep(Fold(Split([], ""), a), raw);
  }

  lemma FoldOne(st: Split, raw: string)
    ensures Fold(st, [raw]) == StepLine(st, raw)
  {
    assert [raw][1..] == [];
  }

  lemma ResumeAt(st: Split, b: seq<string>)
    requires st.current == ""
    ensures Finish(Fold(st, b)) == st.statements + SplitOf(b)
  {
    var start: Split := Split([], "");
    assert st == Split(st.statements + start.statements, start.current);
    FoldFrame(st.statements, start, b);
    FinishFrame(st.statements, Fold(start, b));
  }

  /** A closing line cuts the script in two: what follows it is split as if it stood alone. */
  lemma CutAtClosingLine(a: seq<string>, raw: string, b: seq<string>)
    requires Closes(raw)
    ensures SplitOf(a + [raw] + b) == SplitOf(a + [raw]) + SplitOf(b)
  {
    NothingOpenAfter(a, raw);
    CutWhereClosed(a + [raw], b);
  }

  lemma CutWhereClosed(before: seq<string>, b: seq<string>)
    requires Fold(Split([], ""), before).current == ""
    ensures SplitOf(before + b) == SplitOf(before) + SplitOf(b)
  {
    var st := Fold(Split([], ""), before);
    FoldConcat(Split([], ""), before, b);
    FinishClosed(st);
    ResumeAt(st, b);
  }

  /** Without a closing line before the last there is at most one statement. */
  lemma OneStatementUpToClosingLine(lines: seq<string>)
    requires forall k | 0 <= k < |lines| - 1 :: !Closes(lines[k])
    ensures |SplitOf(lines)| <= 1
  {
    if lines != [] {
      var init, last := lines[..|lines| - 1], lines[|lines| - 1];
      NoClosingLine(init);
      FoldSnoc(Split([], ""), lines);
      var st := Fold(Split([], ""), init);
      if Closes(last) {
        ClosingStep(st, last);
        FinishClosed(StepLine(st, last));
      } else {
        OtherStep(st, last);
      }
    }
  }

  lemma {:induction false} NoClosingLine(lines: seq<string>)
    requires forall k | 0 <= k < |lines| :: !Closes(lines[k])
    ensures Fold(Split([], ""), lines).statements == []
  {
    if lines != [] {
      var init, last := lines[..|lines| - 1], lines[|lines| - 1];
      NoClosingLine(init);
      FoldSnoc(Split([], ""), lines);
      OtherStep(Fold(Split([], ""), init), last);
    }
  }

  // ---------- printing and splitting again ----------

  function Print(statements: seq<string>): string {
    if statements == [] then "" else statements[0] + (";\n" + Print(statements[1..]))
  }

  lemma GoodLineClosed(line: string)
    requires GoodLine(line)
    ensures GoodLine(line + ";") && EndsStatement(line + ";")
  {
    var l := line + ";";
    assert l[0] == line[0];
    assert |line| >= 2 ==> l[1] == line[1];
  }

  lemma LinesOfLast(line: string, rest: string)
    requires GoodLine(line)
    ensures Lines(line + (";\n" + rest)) == [line + ";"] + Lines(rest)
  {
    GoodLineClosed(line);
    LinesCons(line + ";", rest);
    SemicolonNewLine(line, rest);
  }

  lemma SemicolonNewLine(line: string, rest: string)
    ensures line + (";\n" + rest) == (line + ";") + "\n" + rest
  {
  }

  /** Text after a first line starts on a new line. */
  lemma {:induction false} BodyAfter(current: string, init: seq<string>, last: string)
    requires current != "" && Open(init)
    ensures Extend(ExtendAll(current, init), last) == current + "\n" + Body(init, last)
    decreases |init|
  {
    if init != [] {
      var x, more := init[0], init[1..];
      assert GoodLine(x) && Open(more);
      BodyAfter(current + "\n" + x, more, last);
      BodyAfter(x, more, last);
      MoveOut(current, x, Body(more, last));
    }
  }

  lemma MoveOut(a: string, b: string, c: string)
    ensures a + "\n" + b + "\n" + c == a + "\n" + (b + "\n" + c)
  {
  }

  lemma HeadAndMore(lines: seq<string>, tail: seq<string>)
    requires lines != []
    ensures [lines[0]] + (lines[1..] + tail) == lines + tail
  {
  }

  /** The lines of a printed statement: its own, the last with a semicolon. */
  lemma {:induction false} LinesOfPrinted(init: seq<string>, last: string, rest: string)
    requires Open(init) && GoodLine(last)
    ensures Lines(Body(init, last) + (";\n" + rest)) == init + ([last + ";"] + Lines(rest))
    decreases |init|
  {
    if init == [] {
      LinesOfLast(last, rest);
      assert init + ([last + ";"] + Lines(rest)) == [last + ";"] + Lines(rest);
    } else {
      var x, more, tail := init[0], init[1..], ";\n" + rest;
      assert GoodLine(x) && Open(more);
      LinesOfPrinted(more, last, rest);
      BodyAfter(x, more, last);
      Assoc(x + "\n", Body(more, last), tail);
      LinesCons(x, Body(more, last) + tail);
      HeadAndMore(init, [last + ";"] + Lines(rest));
    }
  }

  lemma {:induction false} LinesOfBody(init: seq<string>, last: string)
    requires Open(init) && GoodLine(last)
    ensures Lines(Body(init, last)) == init + [last]
    decreases |init|
  {
    if init != [] {
      var x, more := init[0], init[1..];
      assert GoodLine(x) && Open(more);
      LinesOfBody(more, last);
      BodyAfter(x, more, last);
      LinesCons(x, Body(more, last));
      HeadAndMore(init, [last]);
    }
  }

  /** No statement is empty or padded, and none of its lines is blank or a comment. */
  lemma NoBlankOrComment(content: string)
    ensures forall s | s in SplitStatements(content) :: s != "" && Trimmed(s) && CleanLines(Lines(s))
  {
    ResultsAreStatements(content);
    forall s | s in SplitStatements(content) ensures s != "" && Trimmed(s) && CleanLines(Lines(s)) {
      StatementIsClean(s);
    }
  }

  lemma StatementIsClean(s: string)
    requires IsStatement(s)
    ensures s != "" && Trimmed(s) && CleanLines(Lines(s))
  {
    var init, last :| Open(init) && GoodLine(last) && s == Body(init, last);
    StatementTrimmed(init, last);
    LinesOfBody(init, last);
    GoodLinesAreClean(init, last);
  }

  lemma GoodLinesAreClean(init: seq<string>, last: string)
    requires Open(init) && GoodLine(last)
    ensures CleanLines(init + [last])
  {
  }

  ghost predicate CleanLines(lines: seq<string>) {
    forall i | 0 <= i < |lines| :: Kept(lines[i]) && Trimmed(lines[i])
  }

  lemma {:induction false} FoldConcat(st: Split, a: seq<string>, b: seq<string>)
    ensures Fold(st, a + b) == Fold(Fold(st, a), b)
    decreases |a|
  {
    if a == [] {
      assert a + b == b;
    } else {
      assert (a + b)[0] == a[0] && (a + b)[1..] == a[1..] + b;
      FoldConcat(StepLine(st, a[0]), a[1..], b);
    }
  }

  /** Reading good lines that do not end a statement just collects them. */
  lemma {:induction false} FoldOpen(st: Split, lines: seq<string>)
    requires Open(lines)
    ensures Fold(st, lines) == st.(current := ExtendAll(st.current, lines))
    decreases |lines|
  {
    if lines != [] {
      assert GoodLine(lines[0]) && !EndsStatement(lines[0]);
      FoldOpen(st.(current := Extend(st.current, lines[0])), lines[1..]);
    }
  }

  lemma TakeLast(statements: seq<string>, current: string, line: string)
    requires GoodLine(line) && Trimmed(current)
    ensures StepLine(Split(statements, current), line + ";") == Split(statements + [Extend(current, line)], "")
  {
    GoodLineClosed(line);
    ExtendTrimmed(current, line);
    var closed := Extend(current, line + ";");
    if current == "" {
      DropLast(line, ";");
    } else {
      Assoc(current + "\n", line, ";");
      DropLast(current + "\n" + line, ";");
    }
    assert closed[..|closed| - 1] == Extend(current, line);
  }

  /** Reading a printed statement gives back that statement. */
  lemma ReadOne(done: seq<string>, s: string, rest: string)
    requires IsStatement(s)
    ensures Fold(Split(done, ""), Lines(s + (";\n" + rest))) == Fold(Split(done + [s], ""), Lines(rest))
  {
    var init, last :| Open(init) && GoodLine(last) && s == Body(init, last);
    var st := Split(done, "");
    LinesOfPrinted(init, last, rest);
    FoldConcat(st, init, [last + ";"] + Lines(rest));
    FoldOpen(st, init);
    ExtendAllTrimmed("", init);
    TakeLast(done, ExtendAll("", init), last);
    assert ([last + ";"] + Lines(rest))[1..] == Lines(rest);
  }

  lemma MoveHead(done: seq<string>, statements: seq<string>)
    requires statements != []
    ensures done + [statements[0]] + statements[1..] == done + statements
  {
  }

  lemma PrintCons(statements: seq<string>)
    requires statements != []
    ensures Print(statements) == statements[0] + (";\n" + Print(statements[1..]))
  {
  }

  lemma {:induction false} SplitPrinted(done: seq<string>, statements: seq<string>)
    requires AllStatements(statements)
    ensures Fold(Split(done, ""), Lines(Print(statements))) == Split(done + statements, "")
    decreases |statements|
  {
    if statements == [] {
      assert done + [] == done;
    } else {
      var s, more := statements[0], statements[1..];
      assert IsStatement(s) && AllStatements(more);
      ReadOne(done, s, Print(more));
      SplitPrinted(done + [s], more);
      MoveHead(done, statements);
      PrintCons(statements);
    }
  }

  /** Printing statements, each followed by ";" and a newline, and splitting again gives the same list. */
  lemma PrintThenSplit(statements: seq<string>)
    requires AllStatements(statements)
    ensures SplitStatements(Print(statements)) == statements
  {
    SplitPrinted([], statements);
    assert [] + statements == statements;
  }

  /** So splitting is stable: for every script, splitting the printed result changes nothing. */
  lemma SplitIsStable(content: string)
    ensures SplitStatements(Print(SplitStatements(content))) == SplitStatements(content)
  {
    ResultsAreStatements(content);
    PrintThenSplit(SplitStatements(content));
  }
}
