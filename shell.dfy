/**
 * The interactive loop of the libSQL shell: it reads lines, gathers them
 * until a statement is complete, and hands complete text either to the
 * statement splitter or, for a line that starts with `.`, to the dot-command
 * interpreter.
 */
module Shell {

  import opened Wrappers
  import opened Text
  import opened Statements

  /**
   * The start of the query `.tables` runs, written in the source as the one
   * literal
   *   SELECT name FROM sqlite_schema WHERE type ='table' AND name NOT LIKE 'sqlite_%'
   * and pieced together here so that its quoted words stand apart.
   */
  const TablesQuery := ("SELECT name FROM sqlite_schema" + " WHERE type =") + ("'" + "table" + "'") + " AND name NOT LIKE " + ("'" + "sqlite_%" + "'")

  /**
   * `list_tables`: the query for the table names, narrowed by a `LIKE`
   * pattern when one is given. The pattern is pasted into the text as it is,
   * right after the closing quote of `'sqlite_%'` and without a space.
   */
  function ListTablesQuery(pattern: Option<string>): (q: string)
    ensures |q| > |TablesQuery| && q[..|TablesQuery|] == TablesQuery && q[|q| - 1] == ';'
    ensures pattern.None? ==> |q| == |TablesQuery| + 1
    ensures pattern.Some? ==> q[|TablesQuery|..|q| - 1] == "AND name LIKE " + pattern.value
  {
    match pattern
    case Some(p) => TablesQuery + "AND name LIKE " + p + ";"
    case None => TablesQuery + ";"
  }

  /** Text with neither `;` nor quotes. */
  predicate PlainText(s: string) {
    ';' !in s && '\'' !in s
  }

  /** Two quoted words set in plain text: no `;`, and every quote closed. */
  lemma TwoQuotedWords(a: string, w1: string, c: string, w2: string, e: string)
    requires PlainText(a) && PlainText(w1) && PlainText(c) && PlainText(w2) && PlainText(e)
    ensures var s := a + ("'" + w1 + "'") + c + ("'" + w2 + "'");
      && ';' !in s && Quotes(s) == 4
      && ';' !in s + e && Quotes(s + e) == 4
  {
    var s := a + ("'" + w1 + "'") + c + ("'" + w2 + "'");
    QuotedWord(w1);
    QuotedWord(w2);
    QuotesAppend(a, "'" + w1 + "'");
    QuotesAppend(a + ("'" + w1 + "'"), c);
    QuotesAppend(a + ("'" + w1 + "'") + c, "'" + w2 + "'");
    QuotesAppend(s, e);
  }

  lemma QuotedWord(w: string)
    requires '\'' !in w
    ensures Quotes("'" + w + "'") == 2
  {
    QuotesAppend("'", w);
    QuotesAppend("'" + w, "'");
  }

  /**
   * Fixed text `h` with neither `;` nor an open quote, followed by `p` and a
   * closing `;`, runs as one statement when `p` closes every quote it opens
   * and holds no unquoted `;`.
   */
  lemma PatternStatement(h: string, p: string)
    requires h != [] && h[0] != ';' && !IsWhitespace(h[0])
    requires ';' !in h && Quotes(h) % 2 == 0
    requires Quotes(p) % 2 == 0 && forall j :: 0 <= j < |p| ==> !UnquotedSemicolon(p, j)
    ensures var q := h + p + ";"; AllStatements(q) == [q]
  {
    PatternScan(h, p);
    WholeStatement(h + p + ";");
  }

  /** The only unquoted `;` of such a query is its last character. */
  lemma PatternScan(h: string, p: string)
    requires h != [] && h[0] != ';'
    requires ';' !in h && Quotes(h) % 2 == 0
    requires Quotes(p) % 2 == 0 && forall j :: 0 <= j < |p| ==> !UnquotedSemicolon(p, j)
    ensures var q := h + p + ";";
      && q[0] == h[0] && UnquotedSemicolon(q, |q| - 1)
      && forall j :: 0 <= j < |q| - 1 ==> !UnquotedSemicolon(q, j)
  {
    var q := h + p + ";";
    assert q == h + (p + ";");
    assert q[0..|h|] == h;
    NoSemicolonIn(q, 0, |h|);
    forall j | |h| <= j < |h| + |p| ensures !UnquotedSemicolon(q, j) {
      UnquotedAfter(h, p + ";", j - |h|);
      UnquotedPrefix(p, ";", j - |h|);
    }
    assert q[..|q| - 1] == h + p;
    QuotesAppend(h, p);
  }

  /** The same text with an odd number of quotes in `p` and no `;` runs nothing. */
  lemma PatternUnclosed(h: string, p: string)
    requires ';' !in h && Quotes(h) % 2 == 0
    requires Quotes(p) % 2 == 1 && ';' !in p
    ensures AllStatements(h + p + ";") == []
  {
    var q := h + p + ";";
    assert q[0..|h| + |p|] == h + p;
    NoSemicolonIn(q, 0, |h| + |p|);
    assert q[..|q| - 1] == h + p;
    QuotesAppend(h, p);
    NoStatement(q);
  }

  /**
   * A query made of plain text with two quoted words and a plain tail `e`,
   * then a pattern `p` that closes its quotes and holds no unquoted `;`, then
   * the closing `;`, runs as one statement.
   */
  lemma QueryRuns(a: string, w1: string, c: string, w2: string, e: string, p: string)
    requires PlainText(a) && PlainText(w1) && PlainText(c) && PlainText(w2) && PlainText(e)
    requires a != [] && !IsWhitespace(a[0])
    requires Quotes(p) % 2 == 0 && forall j :: 0 <= j < |p| ==> !UnquotedSemicolon(p, j)
    ensures var q := a + ("'" + w1 + "'") + c + ("'" + w2 + "'") + e + p + ";";
      AllStatements(q) == [q]
  {
    var h := a + ("'" + w1 + "'") + c + ("'" + w2 + "'");
    TwoQuotedWords(a, w1, c, w2, e);
    assert (h + e)[0] == a[0];
    PatternStatement(h + e, p);
  }

  /** The same query with nothing after the quoted words runs as one statement. */
  lemma QueryAloneRuns(a: string, w1: string, c: string, w2: string)
    requires PlainText(a) && PlainText(w1) && PlainText(c) && PlainText(w2)
    requires a != [] && !IsWhitespace(a[0])
    ensures var q := a + ("'" + w1 + "'") + c + ("'" + w2 + "'") + ";";
      AllStatements(q) == [q]
  {
    var h := a + ("'" + w1 + "'") + c + ("'" + w2 + "'");
    TwoQuotedWords(a, w1, c, w2, []);
    assert h[0] == a[0];
    PatternStatement(h, []);
    assert h + [] == h;
  }

  /** The query with a pattern that leaves a quote open and holds no `;` runs nothing. */
  lemma QueryRunsNothing(a: string, w1: string, c: string, w2: string, e: string, p: string)
    requires PlainText(a) && PlainText(w1) && PlainText(c) && PlainText(w2) && PlainText(e)
    requires Quotes(p) % 2 == 1 && ';' !in p
    ensures var q := a + ("'" + w1 + "'") + c + ("'" + w2 + "'") + e + p + ";";
      AllStatements(q) == []
  {
    var h := a + ("'" + w1 + "'") + c + ("'" + w2 + "'");
    TwoQuotedWords(a, w1, c, w2, e);
    PatternUnclosed(h + e, p);
  }

  /**
   * `.tables` runs its query as one statement: always without a pattern,
   * and with a pattern that closes its quotes and holds no unquoted `;`.
   */
  lemma ListTablesRuns(pattern: Option<string>)
    requires pattern.Some? ==>
      Quotes(pattern.value) % 2 == 0 && forall j :: 0 <= j < |pattern.value| ==> !UnquotedSemicolon(pattern.value, j)
    ensures AllStatements(ListTablesQuery(pattern)) == [ListTablesQuery(pattern)]
  {
    assert PlainText("SELECT name FROM sqlite_schema") && PlainText(" WHERE type =");
    assert PlainText("SELECT name FROM sqlite_schema" + " WHERE type =");
    assert PlainText("table") && PlainText(" AND name NOT LIKE ") && PlainText("sqlite_%") && PlainText("AND name LIKE ");
    match pattern
    case None =>
      QueryAloneRuns("SELECT name FROM sqlite_schema" + " WHERE type =", "table", " AND name NOT LIKE ", "sqlite_%");
    case Some(p) =>
      QueryRuns("SELECT name FROM sqlite_schema" + " WHERE type =", "table", " AND name NOT LIKE ", "sqlite_%", "AND name LIKE ", p);
  }

  /**
   * `.tables` with a pattern that leaves a quote open and holds no `;` runs
   * nothing: the closing `;` of the query falls inside the literal.
   */
  lemma ListTablesUnclosedPattern(p: string)
    requires Quotes(p) % 2 == 1 && ';' !in p
    ensures AllStatements(ListTablesQuery(Some(p))) == []
  {
    assert PlainText("SELECT name FROM sqlite_schema") && PlainText(" WHERE type =");
    assert PlainText("SELECT name FROM sqlite_schema" + " WHERE type =");
    assert PlainText("table") && PlainText(" AND name NOT LIKE ") && PlainText("sqlite_%") && PlainText("AND name LIKE ");
    QueryRunsNothing("SELECT name FROM sqlite_schema" + " WHERE type =", "table", " AND name NOT LIKE ", "sqlite_%", "AND name LIKE ", p);
  }

  /** A dot command: its name and the whitespace-separated words after it. */
  datatype DotCommand = DotCommand(name: string, args: seq<string>)

  /**
   * The dot-command split of `main`, on the text after the leading `.`: it
   * is cut at its first space into the command name and an argument text,
   * which is split into words; with no space the whole text is the name and
   * there are no arguments.
   */
  function SplitCommand(cmd: string): (d: DotCommand)
    ensures ' ' !in d.name
    ensures forall i :: 0 <= i < |d.args| ==> IsWord(d.args[i])
    ensures ' ' !in cmd ==> d == DotCommand(cmd, [])
    ensures ' ' in cmd ==>
      && |d.name| < |cmd| && cmd[..|d.name|] == d.name && cmd[|d.name|] == ' '
      && d.args == SplitWhitespace(cmd[|d.name| + 1..])
  {
    match SplitOnce(cmd, ' ')
    case Some((command, args)) =>
      assert cmd[..|command|] == command && cmd[|command| + 1..] == args;
      DotCommand(command, SplitWhitespace(args))
    case None => DotCommand(cmd, [])
  }

  /** A command name alone is parsed back as that name with no arguments. */
  lemma SplitBareCommand(name: string)
    requires ' ' !in name
    ensures SplitCommand(name) == DotCommand(name, [])
  {
  }

  /** A command name followed by words joined with single spaces is parsed back as them. */
  lemma SplitCommandWithArgs(name: string, args: seq<string>)
    requires ' ' !in name
    requires forall i :: 0 <= i < |args| ==> IsWord(args[i])
    ensures SplitCommand(name + " " + JoinSpace(args)) == DotCommand(name, args)
  {
    SplitOnceAt(name, ' ', JoinSpace(args));
    SplitJoinRoundTrip(args);
  }

  /** What a dispatched line makes the shell do next. */
  datatype Effect =
    | Exit               // the process ends
    | Run(sql: string)   // the text goes to the statement splitter
    | Report(message: string)

  /**
   * `run_command`: `quit` ends the process, `tables` lists the tables
   * matching its first argument, if any, and every other name is reported as
   * unknown.
   */
  function RunCommand(command: string, args: seq<string>): (e: Effect)
    ensures e.Exit? <==> command == "quit"
    ensures e.Run? <==> command == "tables"
    ensures e.Run? ==> e.sql == ListTablesQuery(if args == [] then None else Some(args[0]))
    ensures e.Report? ==> e.message == "Unknown command '" + command + "'"
  {
    if command == "quit" then Exit
    else if command == "tables" then Run(ListTablesQuery(if args == [] then None else Some(args[0])))
    else Report("Unknown command '" + command + "'")
  }

  /**
   * What a dispatched line does: a line that starts with `.` is a dot
   * command, and any other line is SQL text for the statement splitter.
   */
  function LineEffect(line: string): (e: Effect)
    ensures !StartsWith(line, '.') ==> e == Run(line)
  {
    if StartsWith(line, '.') then
      var d := SplitCommand(line[1..]);
      RunCommand(d.name, d.args)
    else Run(line)
  }

  /** A dot line runs the command its name selects, without arguments. */
  lemma DotLineBare(name: string)
    requires ' ' !in name
    ensures LineEffect("." + name) == RunCommand(name, [])
  {
    assert StartsWith("." + name, '.') && ("." + name)[1..] == name;
    SplitBareCommand(name);
    assert SplitCommand(("." + name)[1..]) == DotCommand(name, []);
  }

  /** A dot line runs the command its name selects, with the words after it. */
  lemma DotLineArgs(name: string, args: seq<string>)
    requires ' ' !in name
    requires forall i :: 0 <= i < |args| ==> IsWord(args[i])
    ensures LineEffect("." + name + " " + JoinSpace(args)) == RunCommand(name, args)
  {
    var line := "." + name + " " + JoinSpace(args);
    DotArgsPrefix(name, JoinSpace(args));
    SplitCommandWithArgs(name, args);
    assert SplitCommand(line[1..]) == DotCommand(name, args);
  }

  /**
   * A dot line with a space after the name runs that command with the words
   * of the rest of the line, however many spaces or tabs separate them.
   */
  lemma DotLineText(name: string, text: string)
    requires ' ' !in name
    ensures LineEffect("." + name + " " + text) == RunCommand(name, SplitWhitespace(text))
  {
    DotArgsPrefix(name, text);
    SplitOnceAt(name, ' ', text);
    assert SplitCommand(name + " " + text) == DotCommand(name, SplitWhitespace(text));
  }

  /** The text after the leading `.` of a dot line with arguments. */
  lemma DotArgsPrefix(name: string, j: string)
    ensures StartsWith("." + name + " " + j, '.') && ("." + name + " " + j)[1..] == name + " " + j
  {
    var line := "." + name + " " + j;
    assert |line| == |name| + |j| + 2;
    forall k | 0 <= k < |name| + |j| + 1 ensures line[1..][k] == (name + " " + j)[k] {
      if k < |name| {
        assert line[k + 1] == name[k];
      } else if k == |name| {
        assert line[k + 1] == ' ';
      } else {
        assert line[k + 1] == j[k - |name| - 1];
      }
    }
  }

  /** The prompt `readline` shows: a continuation prompt while text is pending. */
  function Prompt(leftovers: string): (p: string)
    ensures |p| == 8 && p[7] == ' '
    ensures p[0] == 'l' <==> leftovers == []
  {
    if leftovers == [] then "libsql> " else "...   > "
  }

  /** One input line added to the pending text: a line to dispatch, or new pending text. */
  datatype Gathered = Gathered(dispatch: Option<string>, leftovers: string)

  /**
   * The input step of the loop in `main`: the pending text followed by the
   * line without its trailing whitespace is dispatched when it ends with `;`
   * or starts with `.`, and the pending text is then cleared; otherwise it
   * becomes the pending text, followed by one space.
   */
  function Gather(leftovers: string, input: string): (g: Gathered)
    ensures var line := leftovers + TrimEnd(input);
      && (g.dispatch.Some? <==> EndsWith(line, ';') || StartsWith(line, '.'))
      && (g.dispatch.Some? ==> g.dispatch.value == line && g.leftovers == [])
      && (g.dispatch.None? ==> g.leftovers == line + " ")
  {
    var line := leftovers + TrimEnd(input);
    if EndsWith(line, ';') || StartsWith(line, '.') then Gathered(Some(line), [])
    else Gathered(None, line + " ")
  }

  /**
   * Pending text is empty, or it ends with the space that joins it to the
   * next line and it does not start with `.`.
   */
  predicate PendingText(leftovers: string) {
    leftovers == [] || (EndsWith(leftovers, ' ') && !StartsWith(leftovers, '.'))
  }

  /**
   * `Gather` keeps pending text well formed, and after text is pending a
   * line starting with `.` is not a dot command: it only continues the text.
   */
  lemma GatherPending(leftovers: string, input: string)
    requires PendingText(leftovers)
    ensures PendingText(Gather(leftovers, input).leftovers)
    ensures leftovers != [] && !EndsWith(TrimEnd(input), ';') ==> Gather(leftovers, input).dispatch.None?
    ensures leftovers != [] ==> Prompt(leftovers) == "...   > "
  {
    var line := leftovers + TrimEnd(input);
    if leftovers != [] {
      assert line[0] == leftovers[0];
      if TrimEnd(input) == [] {
        assert line == leftovers;
      } else {
        assert line[|line| - 1] == TrimEnd(input)[|TrimEnd(input)| - 1];
      }
    }
    if Gather(leftovers, input).dispatch.None? && line != [] {
      assert (line + " ")[0] == line[0];
    }
  }

  /** An input event of the loop: a line, Ctrl-C, end of input, or a reading error. */
  datatype Event = Line(text: string) | Interrupted | Eof | Failed(error: string)

  /**
   * What a session shows and does: the prompts shown, the lines dispatched
   * (the lines passed to `add_history_entry`), the statements handed to the database,
   * and the messages printed by the shell itself.
   */
  datatype Trace = Trace(prompts: seq<string>, history: seq<string>, prepared: seq<string>, messages: seq<string>)

  /** One trace followed by another. */
  function Then(a: Trace, b: Trace): Trace {
    Trace(a.prompts + b.prompts, a.history + b.history, a.prepared + b.prepared, a.messages + b.messages)
  }

  /** The trace of reading one line with no further effect. */
  function Shown(prompt: string): Trace {
    Trace([prompt], [], [], [])
  }

  /**
   * The loop of `main` from pending text `leftovers` over `events`: a line
   * is gathered, and a dispatched line runs its effect; Ctrl-C drops the
   * pending text; end of input or a reading error ends the session, and so
   * does `.quit`.
   */
  function Session(leftovers: string, events: seq<Event>): (t: Trace)
    ensures |t.history| <= |t.prompts| <= |events|
    ensures events != [] ==> t.prompts != [] && t.prompts[0] == Prompt(leftovers)
    decreases |events|
  {
    if events == [] then Trace([], [], [], [])
    else
      var prompt := Prompt(leftovers);
      match events[0]
      case Line(text) =>
        var g := Gather(leftovers, text);
        if g.dispatch.None? then Then(Shown(prompt), Session(g.leftovers, events[1..]))
        else
          var line := g.dispatch.value;
          var shown := Trace([prompt], [line], [], []);
          (match LineEffect(line)
           case Exit => shown
           case Run(sql) => Then(Then(shown, Trace([], [], AllStatements(sql), [])), Session([], events[1..]))
           case Report(m) => Then(Then(shown, Trace([], [], [], [m])), Session([], events[1..])))
      case Interrupted => Then(Shown(prompt), Session([], events[1..]))
      case Eof => Shown(prompt)
      case Failed(error) => Trace([prompt], [], [], ["Error: " + error])
  }

  /**
   * The loop of `main`, with `readline` replaced by the sequence of events
   * it returns and the database by the statements prepared on it.
   */
  method Repl(events: seq<Event>) returns (trace: Trace)
    ensures trace == Session([], events)
  {
    var leftovers := "";
    trace := Trace([], [], [], []);
    var i := 0;
    while i < |events|
      invariant 0 <= i <= |events|
      invariant Then(trace, Session(leftovers, events[i..])) == Session([], events)
      decreases |events| - i
    {
      var rest := events[i + 1..];
      assert events[i..] == [events[i]] + rest;
      var prompt := if leftovers == [] then "libsql> " else "...   > ";
      match events[i] {
      case Line(text) =>
        var line := leftovers + TrimEnd(text);
        if EndsWith(line, ';') || StartsWith(line, '.') {
          leftovers := "";
        } else {
          leftovers := line + " ";
          ThenAssoc(trace, Shown(prompt), Session(leftovers, rest));
          trace := Then(trace, Shown(prompt));
          i := i + 1;
          continue;
        }
        var shown := Trace([prompt], [line], [], []);
        var effect := LineEffect(line);
        match effect {
          case Exit =>
            trace := Then(trace, shown);
            return;
          case Run(sql) =>
            var prepared := RunStatement(sql);
            var ran := Then(shown, Trace([], [], prepared, []));
            ThenAssoc(trace, ran, Session(leftovers, rest));
            trace := Then(trace, ran);
          case Report(m) =>
            var reported := Then(shown, Trace([], [], [], [m]));
            ThenAssoc(trace, reported, Session(leftovers, rest));
            trace := Then(trace, reported);
        }
      case Interrupted =>
        leftovers := "";
        ThenAssoc(trace, Shown(prompt), Session(leftovers, rest));
        trace := Then(trace, Shown(prompt));
      case Eof =>
        trace := Then(trace, Shown(prompt));
        return;
      case Failed(error) =>
        trace := Then(trace, Trace([prompt], [], [], ["Error: " + error]));
        return;
      }
      i := i + 1;
    }
    assert events[i..] == [];
    assert Then(trace, Trace([], [], [], [])) == trace;
  }

  lemma ThenAssoc(a: Trace, b: Trace, c: Trace)
    ensures Then(Then(a, b), c) == Then(a, Then(b, c))
  {
    assert (a.prompts + b.prompts) + c.prompts == a.prompts + (b.prompts + c.prompts);
    assert (a.history + b.history) + c.history == a.history + (b.history + c.history);
    assert (a.prepared + b.prepared) + c.prepared == a.prepared + (b.prepared + c.prepared);
    assert (a.messages + b.messages) + c.messages == a.messages + (b.messages + c.messages);
  }

  /** A line the loop hands on: it ends a statement or is a dot command. */
  predicate Dispatchable(line: string) {
    EndsWith(line, ';') || StartsWith(line, '.')
  }

  /**
   * What every session keeps: each line it dispatches ends with `;` or
   * starts with `.`, and each statement it hands to the database is
   * non-empty and ends with `;`.
   */
  predicate WellFormed(t: Trace) {
    && (forall i :: 0 <= i < |t.history| ==> Dispatchable(t.history[i]))
    && (forall i :: 0 <= i < |t.prepared| ==> Terminated(t.prepared[i]))
  }

  lemma ThenWellFormed(a: Trace, b: Trace)
    requires WellFormed(a) && WellFormed(b)
    ensures WellFormed(Then(a, b))
  {
    var t := Then(a, b);
    forall i | |a.history| <= i < |t.history| ensures Dispatchable(t.history[i]) {
      assert t.history[i] == b.history[i - |a.history|];
    }
    forall i | |a.prepared| <= i < |t.prepared| ensures Terminated(t.prepared[i]) {
      assert t.prepared[i] == b.prepared[i - |a.prepared|];
    }
  }

  /** Every session, from any pending text, is well formed. */
  lemma {:induction false} SessionWellFormed(leftovers: string, events: seq<Event>)
    ensures WellFormed(Session(leftovers, events))
    decreases |events|
  {
    if events != [] {
      var prompt := Prompt(leftovers);
      match events[0]
      case Line(text) =>
        var g := Gather(leftovers, text);
        if g.dispatch.None? {
          SessionWellFormed(g.leftovers, events[1..]);
          ThenWellFormed(Shown(prompt), Session(g.leftovers, events[1..]));
        } else {
          var line := g.dispatch.value;
          var shown := Trace([prompt], [line], [], []);
          SessionWellFormed([], events[1..]);
          match LineEffect(line)
          case Exit =>
          case Run(sql) =>
            AllStatementsShape(sql);
            ThenWellFormed(shown, Trace([], [], AllStatements(sql), []));
            ThenWellFormed(Then(shown, Trace([], [], AllStatements(sql), [])), Session([], events[1..]));
          case Report(m) =>
            ThenWellFormed(shown, Trace([], [], [], [m]));
            ThenWellFormed(Then(shown, Trace([], [], [], [m])), Session([], events[1..]));
        }
      case Interrupted =>
        SessionWellFormed([], events[1..]);
        ThenWellFormed(Shown(prompt), Session([], events[1..]));
      case Eof =>
      case Failed(error) =>
    }
  }

  /** Each input line without its trailing whitespace. */
  function TrimEnds(texts: seq<string>): (r: seq<string>)
    ensures |r| == |texts| && forall i :: 0 <= i < |texts| ==> r[i] == TrimEnd(texts[i])
  {
    seq(|texts|, i requires 0 <= i < |texts| => TrimEnd(texts[i]))
  }

  /** Input lines typed one after another, glued with single spaces. */
  function Glued(texts: seq<string>): string {
    JoinSpace(TrimEnds(texts))
  }

  /** The pending text after `texts` were typed and none was dispatched. */
  function Pending(texts: seq<string>): string {
    if texts == [] then [] else Glued(texts) + " "
  }

  /** The events of typing `texts` line by line. */
  function Lines(texts: seq<string>): (r: seq<Event>)
    ensures |r| == |texts| && forall i :: 0 <= i < |texts| ==> r[i] == Line(texts[i])
  {
    seq(|texts|, i requires 0 <= i < |texts| => Line(texts[i]))
  }

  /** Typing one more line extends the pending text by that line. */
  lemma PendingLine(all: seq<string>, m: nat)
    requires m < |all|
    ensures Pending(all[..m]) + TrimEnd(all[m]) == Glued(all[..m + 1])
  {
    var pre := all[..m];
    assert all[..m + 1] == pre + [all[m]];
    assert TrimEnds(pre + [all[m]]) == TrimEnds(pre) + [TrimEnd(all[m])];
    if m == 0 {
      assert TrimEnds([all[0]]) == [TrimEnd(all[0])];
    } else {
      JoinSpaceSnoc(TrimEnds(pre), TrimEnd(all[m]));
    }
  }

  /** The prompts shown while typing lines `m` to `n` of a statement. */
  function PromptsFrom(m: nat, n: nat): (r: seq<string>)
    ensures |r| == if m <= n then n - m else 0
    decreases n - m
  {
    if m >= n then [] else [if m == 0 then "libsql> " else "...   > "] + PromptsFrom(m + 1, n)
  }

  /** One line that leaves the text pending. */
  lemma SessionContinues(leftovers: string, text: string, rest: seq<Event>)
    requires Gather(leftovers, text).dispatch.None?
    ensures Session(leftovers, [Line(text)] + rest)
      == Then(Shown(Prompt(leftovers)), Session(Gather(leftovers, text).leftovers, rest))
  {
    assert ([Line(text)] + rest)[1..] == rest;
  }

  /** One line that completes SQL text, which then runs. */
  lemma SessionRuns(leftovers: string, text: string, rest: seq<Event>)
    requires Gather(leftovers, text).dispatch.Some?
    requires !StartsWith(Gather(leftovers, text).dispatch.value, '.')
    ensures var line := Gather(leftovers, text).dispatch.value;
      Session(leftovers, [Line(text)] + rest)
      == Then(Then(Trace([Prompt(leftovers)], [line], [], []), Trace([], [], AllStatements(line), [])), Session([], rest))
  {
    assert ([Line(text)] + rest)[1..] == rest;
  }

  /**
   * A statement typed over several lines: as long as the glued text is
   * neither a complete statement nor a dot command, the loop keeps reading
   * with the continuation prompt; the line that completes it dispatches the
   * whole text, the lines glued with single spaces, and runs its statements.
   */
  lemma {:induction false} MultiLineFrom(all: seq<string>, m: nat, rest: seq<Event>)
    requires m < |all|
    requires forall k :: m < k < |all| ==> !Dispatchable(Glued(all[..k]))
    requires EndsWith(Glued(all), ';') && !StartsWith(Glued(all), '.')
    ensures Session(Pending(all[..m]), Lines(all[m..]) + rest)
      == Then(Trace(PromptsFrom(m, |all|), [Glued(all)], AllStatements(Glued(all)), []), Session([], rest))
    decreases |all| - m
  {
    if m < |all| - 1 {
      MultiLineFrom(all, m + 1, rest);
      MultiLineStep(all, m, rest);
    } else {
      MultiLineLast(all, rest);
    }
  }

  lemma ThenPrepared(prompts: seq<string>, history: seq<string>, prepared: seq<string>)
    ensures Then(Trace(prompts, history, [], []), Trace([], [], prepared, [])) == Trace(prompts, history, prepared, [])
  {
    assert prompts + [] == prompts && history + [] == history && [] + prepared == prepared;
  }

  lemma ShownThen(prompt: string, prompts: seq<string>, history: seq<string>, prepared: seq<string>)
    ensures Then(Shown(prompt), Trace(prompts, history, prepared, [])) == Trace([prompt] + prompts, history, prepared, [])
  {
    assert [] + history == history && [] + prepared == prepared;
  }

  /** The line that completes the statement. */
  lemma MultiLineLast(all: seq<string>, rest: seq<Event>)
    requires all != []
    requires EndsWith(Glued(all), ';') && !StartsWith(Glued(all), '.')
    ensures var m := |all| - 1;
      Session(Pending(all[..m]), Lines(all[m..]) + rest)
      == Then(Trace(PromptsFrom(m, |all|), [Glued(all)], AllStatements(Glued(all)), []), Session([], rest))
  {
    var m := |all| - 1;
    var left := Pending(all[..m]);
    assert Lines(all[m..]) + rest == [Line(all[m])] + rest;
    PendingLine(all, m);
    assert all[..m + 1] == all;
    SessionRuns(left, all[m], rest);
    assert PromptsFrom(m, |all|) == [Prompt(left)];
    ThenPrepared([Prompt(left)], [Glued(all)], AllStatements(Glued(all)));
  }

  /** A line that leaves the statement pending, in front of the rest of it. */
  lemma MultiLineStep(all: seq<string>, m: nat, rest: seq<Event>)
    requires m < |all| - 1
    requires !Dispatchable(Glued(all[..m + 1]))
    requires Session(Pending(all[..m + 1]), Lines(all[m + 1..]) + rest)
      == Then(Trace(PromptsFrom(m + 1, |all|), [Glued(all)], AllStatements(Glued(all)), []), Session([], rest))
    ensures Session(Pending(all[..m]), Lines(all[m..]) + rest)
      == Then(Trace(PromptsFrom(m, |all|), [Glued(all)], AllStatements(Glued(all)), []), Session([], rest))
  {
    var left := Pending(all[..m]);
    var tail := Lines(all[m + 1..]) + rest;
    LinesCons(all, m, rest);
    GatherContinues(all, m);
    SessionContinues(left, all[m], tail);
    var later := Trace(PromptsFrom(m + 1, |all|), [Glued(all)], AllStatements(Glued(all)), []);
    ThenAssoc(Shown(Prompt(left)), later, Session([], rest));
    PromptsStep(all, m);
    ShownThen(Prompt(left), PromptsFrom(m + 1, |all|), [Glued(all)], AllStatements(Glued(all)));
  }

  lemma LinesCons(all: seq<string>, m: nat, rest: seq<Event>)
    requires m < |all|
    ensures Lines(all[m..]) + rest == [Line(all[m])] + (Lines(all[m + 1..]) + rest)
  {
    var l, r := Lines(all[m..]) + rest, [Line(all[m])] + (Lines(all[m + 1..]) + rest);
    assert |l| == |r|;
    forall k | 0 <= k < |l| ensures l[k] == r[k] {
      if k == 0 {
      } else if k < |all| - m {
        assert l[k] == Line(all[m + k]);
        assert r[k] == Lines(all[m + 1..])[k - 1];
      } else {
        assert l[k] == rest[k - (|all| - m)];
      }
    }
  }

  /** A line that does not complete the text extends the pending text by itself. */
  lemma GatherContinues(all: seq<string>, m: nat)
    requires m < |all| && !Dispatchable(Glued(all[..m + 1]))
    ensures Gather(Pending(all[..m]), all[m]) == Gathered(None, Pending(all[..m + 1]))
  {
    PendingLine(all, m);
  }

  lemma PromptsStep(all: seq<string>, m: nat)
    requires m < |all|
    ensures PromptsFrom(m, |all|) == [Prompt(Pending(all[..m]))] + PromptsFrom(m + 1, |all|)
  {
    if m > 0 {
      assert all[..m] != [];
    }
  }

  /**
   * A statement typed over several lines is dispatched once, as the lines
   * without their trailing whitespace glued with single spaces, and its
   * statements run; the first line shows the main prompt and the others the
   * continuation prompt.
   */
  lemma MultiLine(texts: seq<string>, rest: seq<Event>)
    requires texts != []
    requires forall k :: 0 < k < |texts| ==> !Dispatchable(Glued(texts[..k]))
    requires EndsWith(Glued(texts), ';') && !StartsWith(Glued(texts), '.')
    ensures Session([], Lines(texts) + rest)
      == Then(Trace(PromptsFrom(0, |texts|), [Glued(texts)], AllStatements(Glued(texts)), []), Session([], rest))
  {
    assert texts[..0] == [] && texts[0..] == texts;
    MultiLineFrom(texts, 0, rest);
  }
}
