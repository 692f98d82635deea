# libSQL shell: statement splitting and the input loop

This project models the core of `libsql-shell`, the interactive SQL shell of
libSQL, in Dafny, and proves properties of that model. The shell reads lines
with `readline`. It gathers them until the text ends with `;` or starts with
`.`, then dispatches it:

- a dot line is split into a command name and argument words;
- `.quit` ends the process, `.tables [pattern]` runs a query over
  `sqlite_schema`, and any other name is reported as unknown;
- SQL text goes to `StrStatements`, an iterator that cuts the buffer into
  `;`-terminated statements. It keeps a `;` inside a single-quoted literal
  in its statement and skips empty statements. Each statement it yields is
  handed to the database.

Modules:

- `Wrappers`: `Option`.
- `Text`: the Rust `str` operations the shell uses (`trim`, `trim_end`,
  `split_once`, `split_whitespace`), each characterised by lemmas for all inputs,
  and the predicates `StartsWith` and `EndsWith` for the `starts_with` and
  `ends_with` tests with a character at main.rs:60, 152 and 159.
- `Statements`: the iterator as a class whose `Next` method keeps the source's
  scan loop. `Step` is the specification of one call and `AllStatements` the
  specification of driving the iterator to its end. Lemmas characterise both:
  what is yielded is exactly the first statement of a decomposition of the
  buffer, a quoted `;` does not cut, empty statements are skipped, and the
  shell's unit test holds.
- `Shell`: the `.tables` query, the dot-command split and dispatch, and the
  input step that gathers lines. The loop of `main` is the method `Repl`,
  proved equal to the function `Session` over a sequence of input events.
  Lemmas about `Session` cover a statement typed over several lines and the
  invariant that every dispatched line and every prepared statement is well
  formed.

## Model

| member | source | states |
|---|---|---|
| Text.TrimEnd | src/rust/libsql-shell/src/main.rs:151 | the result is a prefix of the line, everything dropped is whitespace, and the result does not end in whitespace |
| Text.Trim | src/rust/libsql-shell/src/main.rs:65 | the result neither starts nor ends with whitespace, keeps a last character that is not whitespace, and leaves text without whitespace at its ends unchanged |
| Text.TrimSlice | src/rust/libsql-shell/src/main.rs:65 | trimming yields a slice of the text with only whitespace before and after it |
| Text.TrimEmpty | src/rust/libsql-shell/src/main.rs:65 | trimming gives the empty text if and only if the text is all whitespace |
| Text.TrimKeepsCount | src/rust/libsql-shell/src/main.rs:65 | trimming keeps every occurrence of a character that is not whitespace, so a statement keeps its quotes |
| Text.SplitOnce | src/rust/libsql-shell/src/main.rs:161 | a split gives the text before the first space and the text after it, and there is no split if and only if there is no space |
| Text.SplitOnceAt | src/rust/libsql-shell/src/main.rs:161 | a name without a space, a space and any text split at that space into the name and the text |
| Text.SplitWhitespace | src/rust/libsql-shell/src/main.rs:162 | every argument is a non-empty word without whitespace |
| Text.SplitWhitespaceBlank | src/rust/libsql-shell/src/main.rs:162 | text made of whitespace alone has no arguments |
| Text.SplitWhitespaceFirst | src/rust/libsql-shell/src/main.rs:162 | for any text made of whitespace of any length, then a word ending at whitespace or at the end, then the rest, the first argument is that word and the arguments of the rest follow; with `SplitWhitespaceBlank` this fixes the result for every input |
| Text.SplitJoinRoundTrip | src/rust/libsql-shell/src/main.rs:162 | splitting words joined with single spaces gives back the same words |
| Statements.LeadingSemicolons | src/rust/libsql-shell/src/main.rs:59-62 | the count covers exactly the run of `;` at the front of the buffer, the empty statements the scan passes over |
| Statements.FirstUnquotedSemicolon | src/rust/libsql-shell/src/main.rs:51-58 | the position found holds a `;` after an even number of quotes, and no earlier position from the start does |
| Statements.FirstUnquotedSemicolonAt | src/rust/libsql-shell/src/main.rs:51-58 | an unquoted `;` with none before it is the one the scan stops at |
| Statements.Step | src/rust/libsql-shell/src/main.rs:48-68 | a call that yields leaves a strictly shorter suffix of the buffer, so the iterator ends |
| Statements.StepSound | src/rust/libsql-shell/src/main.rs:59-65 | a yielded statement is the trimmed first statement of a decomposition of the buffer: empty statements, then text that ends at its first unquoted `;`, then the new buffer |
| Statements.StepComplete | src/rust/libsql-shell/src/main.rs:48-68 | any such decomposition of the buffer is the one `next` finds, so the yielded statement and new buffer are determined |
| Statements.StepNone | src/rust/libsql-shell/src/main.rs:51-67 | `next` returns `None` if and only if every unquoted `;` is one of the leading empty statements |
| Statements.StatementShape | src/rust/libsql-shell/src/main.rs:59-65 | a yielded statement is non-empty, does not start with whitespace, ends with `;` and closes all its quotes |
| Statements.SkipsEmptyStatement | src/rust/libsql-shell/src/main.rs:60-62 | an empty statement in front of the buffer changes nothing `next` yields or leaves |
| Statements.BlankStatementYieldsSemicolon | src/rust/libsql-shell/src/main.rs:59-65 | the buffer ` ;` yields the statement `;`, because the skip test looks at the untrimmed slice |
| Statements.AllStatements | src/rust/libsql-shell/src/main.rs:76 | the iterator yields no more statements than the buffer has characters |
| Statements.AllStatementsShape | src/rust/libsql-shell/src/main.rs:76-83 | every statement handed to `prepare` is non-empty and ends with `;` |
| Statements.WholeStatement | src/rust/libsql-shell/src/main.rs:59-65 | a single complete statement is handed over whole and unchanged |
| Statements.NoStatement | src/rust/libsql-shell/src/main.rs:51-67 | text without an unquoted `;` hands nothing to the database |
| Statements.QuotedSemicolonStaysInStatement | src/rust/libsql-shell/src/main.rs:52-58 | a `;` between quotes does not end the statement: the cut is at the `;` after the closing quote |
| Statements.PlainStatement | src/rust/libsql-shell/src/main.rs:56-65 | a statement without quotes or inner `;` is yielded trimmed, and the buffer becomes the text after its `;` |
| Statements.StrStatements.constructor | src/rust/libsql-shell/src/main.rs:71-73 | a new iterator holds the whole buffer |
| Statements.StrStatements.Next | src/rust/libsql-shell/src/main.rs:45-69 | the scan returns what `Step` yields and consumes the buffer up to the cut, or returns `None` and leaves the buffer unchanged |
| Statements.RunStatement | src/rust/libsql-shell/src/main.rs:75-76 | driving a fresh iterator to its end hands `AllStatements` to the database, in order |
| Statements.UnitTestStatements | src/rust/libsql-shell/src/main.rs:191-203 | on the unit test's input, `next` yields `SELECT ';' FROM test;`, then `SELECT * FROM test;`, then `None` |
| Statements.UnitTestAllStatements | src/rust/libsql-shell/src/main.rs:191-203 | the iterator yields exactly the unit test's two statements |
| Shell.ListTablesQuery | src/rust/libsql-shell/src/main.rs:105-110 | the query is the fixed `sqlite_schema` query, followed by `AND name LIKE ` and the pattern pasted in as it is when a pattern is given, and closed by `;` |
| Shell.ListTablesRuns | src/rust/libsql-shell/src/main.rs:105-111 | without a pattern, or with a pattern that closes its quotes and has no unquoted `;`, the query runs as exactly one statement |
| Shell.ListTablesUnclosedPattern | src/rust/libsql-shell/src/main.rs:105-111 | a pattern that leaves a quote open and holds no `;` makes `.tables` run nothing |
| Shell.SplitCommand | src/rust/libsql-shell/src/main.rs:159-164 | the command name has no space and is the text before the first space, the arguments are the words after it, and text without a space is the name alone with no arguments |
| Shell.SplitBareCommand | src/rust/libsql-shell/src/main.rs:163 | a name without a space is parsed as that name with no arguments |
| Shell.SplitCommandWithArgs | src/rust/libsql-shell/src/main.rs:161-162 | a name, a space and words joined by spaces are parsed back as that name and those words |
| Shell.RunCommand | src/rust/libsql-shell/src/main.rs:114-119 | the process exits if and only if the name is `quit`, the table query runs with the first argument as pattern if and only if the name is `tables`, and any other name gives `Unknown command '<name>'` |
| Shell.LineEffect | src/rust/libsql-shell/src/main.rs:159-167 | a line that does not start with `.` goes to the statement splitter whole |
| Shell.DotLineText | src/rust/libsql-shell/src/main.rs:159-164 | `.`, a name, a space and any text runs that command with the words of that text as arguments, whatever whitespace separates them |
| Shell.DotLineBare | src/rust/libsql-shell/src/main.rs:159-164 | `.` and a name runs that command with no arguments |
| Shell.DotLineArgs | src/rust/libsql-shell/src/main.rs:159-164 | `.`, a name and space-separated words runs that command with those words as arguments |
| Shell.Prompt | src/rust/libsql-shell/src/main.rs:143-147 | the prompt is eight characters ending in a space, and it starts with `l` (the main prompt `libsql> `) exactly when no text is pending; otherwise it is the continuation prompt `...   > ` |
| Shell.Gather | src/rust/libsql-shell/src/main.rs:150-157 | the pending text plus the line without its trailing whitespace is dispatched, and the pending text cleared, if and only if it ends with `;` or starts with `.`; otherwise it becomes the pending text with a space added |
| Shell.GatherPending | src/rust/libsql-shell/src/main.rs:141-157 | pending text stays empty or ends with a space and does not start with `.`; while text is pending the continuation prompt shows, and only a line ending with `;` dispatches |
| Shell.Session | src/rust/libsql-shell/src/main.rs:141-181 | the loop event by event: a line is gathered and a dispatched line runs its effect, Ctrl-C drops the pending text, and end of input, a reading error or `.quit` end the session; its contract: a session shows at most one prompt per event, the first being the prompt for the pending text, and records no more history lines than prompts |
| Shell.Repl | src/rust/libsql-shell/src/main.rs:141-181 | the loop's prompts, history entries, prepared statements and messages are those of `Session` from no pending text |
| Shell.SessionWellFormed | src/rust/libsql-shell/src/main.rs:141-181 | in every session, each dispatched line ends with `;` or starts with `.`, and each prepared statement is non-empty and ends with `;` |
| Shell.MultiLine | src/rust/libsql-shell/src/main.rs:141-167 | a statement typed over several lines shows the main prompt and then continuation prompts, and is dispatched once as the lines without their trailing whitespace joined by single spaces; its statements are prepared |

## Left out

- Terminal I/O: `readline` is replaced by a sequence of input events (a line, Ctrl-C, end of input, a reading error). Printing is recorded as the prompts and messages of a trace. Loading and saving the history file are not modelled; the history is the sequence of lines passed to `add_history_entry`; the de-duplication `rustyline` applies to its own history is not modelled.
- The database: opening the connection, `prepare`, `execute`, and table formatting with `format_value` and `tabled`. A statement is recorded as handed to `prepare`. Only a failed `prepare` (main.rs:77-81) and an error from `query_map` itself (the `?` at main.rs:37) print `Error: ...` and move on to the next statement; neither is modelled.
- Row failures: the model assumes fetching and formatting rows never fails, so a session always goes on after SQL text runs. In the source, an error while a row is fetched panics at the `unwrap` of main.rs:38 (a UNIQUE violation on an `INSERT`, for example), as does `get_ref` at main.rs:34 and non-UTF-8 text in `format_value` at main.rs:22. The panic ends the process: the rest of the buffer's statements are not prepared and the history is not saved.
- Ending the process: `std::process::exit(0)` for `.quit` is modelled as the end of the session. The history is not saved on that path, which matches the source because `exit` skips `save_history`.
- Reading errors: the message is `"Error: " + error`, where `error` stands for the `Debug` rendering of the error; that rendering is not modelled.
- Byte indexing: Rust slices the buffer at byte offsets but counts characters with `chars().enumerate()`. The model treats each character as one byte, which is exact for ASCII text only. For non-ASCII input before a cut, the source slices at the wrong offset or panics, and this is not modelled.
- Command-line parsing, logging setup, and the banner lines printed before the loop are not modelled.
