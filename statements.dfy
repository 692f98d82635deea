/**
 * The shell's SQL statement splitter, `StrStatements`: an iterator that cuts
 * a buffer into `;`-terminated statements, treats a `;` between single quotes
 * as part of a literal, skips empty statements, and consumes the buffer from
 * the front.
 *
 * Each character stands for one byte of the buffer (exact for ASCII text), so
 * the character positions the scan counts are the byte offsets it slices at.
 */
module Statements {

  import opened Wrappers
  import opened Text

  /** The number of single-quote characters in `s`. */
  function Quotes(s: string): nat {
    multiset(s)['\'']
  }

  /**
   * Position `i` of `s` holds a `;` outside every single-quoted literal: an
   * even number of quotes comes before it. These are the only places the
   * splitter cuts.
   */
  predicate UnquotedSemicolon(s: string, i: int) {
    0 <= i < |s| && s[i] == ';' && Quotes(s[..i]) % 2 == 0
  }

  /** Extending a prefix by one character adds a quote exactly when it is one. */
  lemma QuotesExtend(s: string, i: nat)
    requires i < |s|
    ensures Quotes(s[..i + 1]) == Quotes(s[..i]) + (if s[i] == '\'' then 1 else 0)
  {
    assert s[..i + 1] == s[..i] + [s[i]];
  }

  /** `k` lone semicolons: a run of empty statements. */
  function Semicolons(k: nat): (s: string)
    ensures |s| == k && Quotes(s) == 0
    ensures forall j :: 0 <= j < k ==> s[j] == ';'
  {
    if k == 0 then "" else ";" + Semicolons(k - 1)
  }

  /** The length of the run of `;` that `s` starts with. */
  function LeadingSemicolons(s: string): (n: nat)
    ensures n <= |s|
    ensures forall j :: 0 <= j < n ==> s[j] == ';'
    ensures n < |s| ==> s[n] != ';'
  {
    if s != [] && s[0] == ';' then 1 + LeadingSemicolons(s[1..]) else 0
  }

  /** The first unquoted `;` of `s` at or after position `from`, if any. */
  function FirstUnquotedSemicolon(s: string, from: nat): (r: Option<nat>)
    ensures r.Some? ==> from <= r.value && UnquotedSemicolon(s, r.value)
    ensures forall j :: from <= j < (if r.Some? then r.value else |s|) ==> !UnquotedSemicolon(s, j)
    decreases |s| - from
  {
    if from >= |s| then None
    else if UnquotedSemicolon(s, from) then Some(from)
    else FirstUnquotedSemicolon(s, from + 1)
  }

  /** The first unquoted `;` at or after `from` is the one the scan stops at. */
  lemma {:induction false} FirstUnquotedSemicolonAt(s: string, from: nat, i: nat)
    requires from <= i && UnquotedSemicolon(s, i)
    requires forall j :: from <= j < i ==> !UnquotedSemicolon(s, j)
    ensures FirstUnquotedSemicolon(s, from) == Some(i)
    decreases i - from
  {
    if from < i {
      FirstUnquotedSemicolonAt(s, from + 1, i);
    }
  }

  /** What one call of `next` yields, and the buffer it leaves behind. */
  datatype Cut = Cut(statement: string, rest: string)

  /**
   * One call of `next` on the buffer `s`: the empty statements at the front
   * are passed over, the text up to and including the next unquoted `;` is
   * yielded trimmed, and the buffer becomes what follows that `;`. With no such
   * `;` there is nothing to yield. The buffer left behind is a strictly
   * shorter suffix of `s`.
   */
  function Step(s: string): (r: Option<Cut>)
    ensures r.Some? ==> |r.value.rest| < |s| && r.value.rest == s[|s| - |r.value.rest|..]
  {
    var n := LeadingSemicolons(s);
    match FirstUnquotedSemicolon(s, n)
    case None => None
    case Some(i) => Some(Cut(Trim(s[n..i + 1]), s[i + 1..]))
  }

  /**
   * `s` is made of `k` empty statements, then the raw text of one statement,
   * then `rest`. The raw statement does not start with `;`, and it ends at
   * its first `;` that lies outside quotes; a quoted `;` inside it does not
   * end it.
   */
  predicate IsCut(s: string, k: nat, raw: string, rest: string) {
    && |s| == k + |raw| + |rest|
    && s[..k] == Semicolons(k) && s[k..k + |raw|] == raw && s[k + |raw|..] == rest
    && raw != [] && raw[0] != ';'
    && UnquotedSemicolon(raw, |raw| - 1)
    && forall j :: 0 <= j < |raw| - 1 ==> !UnquotedSemicolon(raw, j)
  }

  /** `Step` at a buffer whose first statement ends at position `i`. */
  lemma StepAt(s: string, n: nat, i: nat)
    requires n == LeadingSemicolons(s) && FirstUnquotedSemicolon(s, n) == Some(i)
    ensures n <= i < |s| && Step(s) == Some(Cut(Trim(s[n..i + 1]), s[i + 1..]))
  {
    assert n <= i < |s|;
    var statement, rest := Trim(s[n..i + 1]), s[i + 1..];
    assert Step(s).Some? && Step(s).value.statement == statement && Step(s).value.rest == rest;
  }

  /** Quote parity of a prefix is unchanged by empty statements in front. */
  lemma UnquotedAfterSemicolons(s: string, k: nat, raw: string, j: int)
    requires k + |raw| <= |s| && s[..k] == Semicolons(k) && s[k..k + |raw|] == raw
    requires 0 <= j < |raw|
    ensures UnquotedSemicolon(s, k + j) <==> UnquotedSemicolon(raw, j)
  {
    assert s[..k + j] == s[..k] + raw[..j];
    assert s[k + j] == raw[j];
  }

  /** Whatever `next` yields is one statement of a decomposition of the buffer. */
  lemma StepSound(s: string) returns (k: nat, raw: string)
    requires Step(s).Some?
    ensures IsCut(s, k, raw, Step(s).value.rest) && Step(s).value.statement == Trim(raw)
  {
    var i := StepSomeAt(s);
    k, raw := LeadingSemicolons(s), s[LeadingSemicolons(s)..i + 1];
    CutAt(s, k, i);
  }

  /** The buffer cut at the first unquoted `;` after its leading empty statements. */
  lemma CutAt(s: string, n: nat, i: nat)
    requires n == LeadingSemicolons(s) && n <= i < |s|
    requires FirstUnquotedSemicolon(s, n) == Some(i)
    ensures IsCut(s, n, s[n..i + 1], s[i + 1..])
  {
    var raw, rest := s[n..i + 1], s[i + 1..];
    assert s[n..n + |raw|] == raw && s[n + |raw|..] == rest;
    assert raw[0] == s[n] != ';';
    SemicolonsPrefix(s);
    forall j | 0 <= j < |raw| - 1 ensures !UnquotedSemicolon(raw, j) {
      assert !UnquotedSemicolon(s, n + j);
      UnquotedAfterSemicolons(s, n, raw, j);
    }
    UnquotedAfterSemicolons(s, n, raw, |raw| - 1);
  }

  /** Where a yielded statement ends. */
  lemma StepSomeAt(s: string) returns (i: nat)
    requires Step(s).Some?
    ensures FirstUnquotedSemicolon(s, LeadingSemicolons(s)) == Some(i)
    ensures LeadingSemicolons(s) < i < |s|
    ensures Step(s).value.statement == Trim(s[LeadingSemicolons(s)..i + 1])
    ensures Step(s).value.rest == s[i + 1..]
  {
    i := FirstUnquotedSemicolon(s, LeadingSemicolons(s)).value;
  }

  /** The leading run of `;` is a run of empty statements. */
  lemma SemicolonsPrefix(s: string)
    ensures s[..LeadingSemicolons(s)] == Semicolons(LeadingSemicolons(s))
  {
  }

  /** Every decomposition of the buffer is the one `next` finds. */
  lemma StepComplete(s: string, k: nat, raw: string, rest: string)
    requires IsCut(s, k, raw, rest)
    ensures Step(s) == Some(Cut(Trim(raw), rest))
  {
    var n := LeadingSemicolons(s);
    assert s[k] == raw[0];
    assert n == k;
    var m := k + |raw| - 1;
    UnquotedAfterSemicolons(s, k, raw, |raw| - 1);
    forall j | k <= j < m ensures !UnquotedSemicolon(s, j) {
      UnquotedAfterSemicolons(s, k, raw, j - k);
    }
    assert FirstUnquotedSemicolon(s, n) == Some(m);
    StepAt(s, n, m);
    assert s[n..m + 1] == raw && s[m + 1..] == rest;
  }

  /**
   * `next` yields nothing exactly when every unquoted `;` of the buffer is
   * one of its leading empty statements; trailing text without an unquoted
   * `;`, such as an unterminated quote, is never yielded.
   */
  lemma StepNone(s: string)
    ensures Step(s).None? <==> forall i :: UnquotedSemicolon(s, i) ==> i < LeadingSemicolons(s)
  {
    var n := LeadingSemicolons(s);
    if Step(s).None? {
      forall i | UnquotedSemicolon(s, i) ensures i < n {
      }
    }
  }

  /**
   * A yielded statement is non-empty, does not start with whitespace, ends
   * with `;` and holds an even number of quotes, so every literal in it is
   * closed.
   */
  lemma StatementShape(s: string)
    requires Step(s).Some?
    ensures var st := Step(s).value.statement;
      && st != [] && !IsWhitespace(st[0]) && st[|st| - 1] == ';'
      && Quotes(st) % 2 == 0
  {
    var k, raw := StepSound(s);
    RawShape(raw);
  }

  /** Trimming a raw statement keeps its closing `;` and its quotes. */
  lemma RawShape(raw: string)
    requires UnquotedSemicolon(raw, |raw| - 1)
    ensures var st := Trim(raw);
      && st != [] && !IsWhitespace(st[0]) && st[|st| - 1] == ';'
      && Quotes(st) % 2 == 0
  {
    TrimKeepsCount(raw, '\'');
    QuotesExtend(raw, |raw| - 1);
    assert raw[..|raw|] == raw;
  }

  /** A `;` in front moves every unquoted `;` one place to the right. */
  lemma UnquotedShift(t: string, j: nat)
    ensures UnquotedSemicolon(";" + t, j + 1) <==> UnquotedSemicolon(t, j)
  {
    if 0 <= j < |t| {
      assert (";" + t)[..j + 1] == ";" + t[..j];
      assert multiset(";" + t[..j]) == multiset{';'} + multiset(t[..j]);
      assert (";" + t)[j + 1] == t[j];
    }
  }

  /** The scan of `";" + t` finds the `;` the scan of `t` finds, one place later. */
  lemma {:induction false} FirstShift(t: string, from: nat)
    ensures FirstUnquotedSemicolon(t, from).None? ==> FirstUnquotedSemicolon(";" + t, from + 1).None?
    ensures FirstUnquotedSemicolon(t, from).Some? ==>
      FirstUnquotedSemicolon(";" + t, from + 1) == Some(FirstUnquotedSemicolon(t, from).value + 1)
    decreases |t| - from
  {
    if from < |t| {
      UnquotedShift(t, from);
      if !UnquotedSemicolon(t, from) {
        FirstShift(t, from + 1);
      }
    }
  }

  /** An empty statement in front of the buffer changes nothing `next` yields. */
  lemma SkipsEmptyStatement(t: string)
    ensures Step(";" + t) == Step(t)
  {
    var f := FirstUnquotedSemicolon(t, LeadingSemicolons(t));
    if f.None? {
      SkipsEmptyStatementNone(t);
    } else {
      SkipsEmptyStatementAt(t, f.value);
    }
  }

  lemma SkipsEmptyStatementNone(t: string)
    requires FirstUnquotedSemicolon(t, LeadingSemicolons(t)).None?
    ensures Step(";" + t) == Step(t)
  {
    LeadingShift(t);
    FirstShift(t, LeadingSemicolons(t));
    StepNoneAt(t);
    StepNoneAt(";" + t);
  }

  lemma SkipsEmptyStatementAt(t: string, i: nat)
    requires FirstUnquotedSemicolon(t, LeadingSemicolons(t)) == Some(i)
    ensures Step(";" + t) == Step(t)
  {
    var n := LeadingSemicolons(t);
    StepAt(t, n, i);
    ShiftedStep(t, n, i);
  }

  /** What `next` yields behind one more empty statement. */
  lemma ShiftedStep(t: string, n: nat, i: nat)
    requires n == LeadingSemicolons(t) && FirstUnquotedSemicolon(t, n) == Some(i)
    ensures Step(";" + t) == Some(Cut(Trim(t[n..i + 1]), t[i + 1..]))
  {
    var s := ";" + t;
    LeadingShift(t);
    FirstShift(t, n);
    StepAt(s, n + 1, i + 1);
    SliceShift(t, n, i + 1);
  }

  lemma SliceShift(t: string, a: nat, b: nat)
    requires a <= b <= |t|
    ensures (";" + t)[a + 1..b + 1] == t[a..b] && (";" + t)[b + 1..] == t[b..]
  {
  }

  lemma LeadingShift(t: string)
    ensures LeadingSemicolons(";" + t) == LeadingSemicolons(t) + 1
  {
    assert (";" + t)[1..] == t;
  }

  /** `Step` at a buffer with no statement to yield. */
  lemma StepNoneAt(s: string)
    requires FirstUnquotedSemicolon(s, LeadingSemicolons(s)).None?
    ensures Step(s).None?
  {
  }

  /**
   * A statement made of whitespace alone is not an empty statement: after
   * `a;` the buffer ` ;` yields `;`, because the skip test looks at the
   * untrimmed text.
   */
  lemma BlankStatementYieldsSemicolon()
    ensures Step(" ;") == Some(Cut(";", ""))
  {
    var s := " ;";
    assert s[..1] == " ";
    FirstUnquotedSemicolonAt(s, 0, 1);
    StepAt(s, 0, 1);
    assert s[0..2] == s;
    assert s[1..] == ";";
  }

  /** The statements the iterator yields, in order, until it returns `None`. */
  function AllStatements(s: string): (r: seq<string>)
    ensures |r| <= |s|
    decreases |s|
  {
    match Step(s)
    case None => []
    case Some(c) => [c.statement] + AllStatements(c.rest)
  }

  /** A statement closed by its `;`. */
  predicate Terminated(st: string) {
    st != [] && st[|st| - 1] == ';'
  }

  /** Every statement handed to the database is non-empty and ends with `;`. */
  lemma {:induction false} AllStatementsShape(s: string)
    ensures forall i :: 0 <= i < |AllStatements(s)| ==> Terminated(AllStatements(s)[i])
    decreases |s|
  {
    if Step(s).Some? {
      var r, st, tail := AllStatements(s), Step(s).value.statement, AllStatements(Step(s).value.rest);
      StatementShape(s);
      AllStatementsShape(Step(s).value.rest);
      AllStatementsStep(s);
      assert r == [st] + tail;
      forall i | 0 <= i < |r| ensures Terminated(r[i]) {
        if i > 0 {
          assert r[i] == tail[i - 1];
        }
      }
    }
  }

  /** `AllStatements` yields what one `Step` yields, then the statements of the rest. */
  lemma AllStatementsStep(s: string)
    requires Step(s).Some?
    ensures AllStatements(s) == [Step(s).value.statement] + AllStatements(Step(s).value.rest)
  {
  }

  /**
   * Text that is one complete statement, with its only unquoted `;` at the
   * end, is handed to the database whole and unchanged.
   */
  lemma WholeStatement(s: string)
    requires s != [] && s[0] != ';' && !IsWhitespace(s[0])
    requires UnquotedSemicolon(s, |s| - 1)
    requires forall j :: 0 <= j < |s| - 1 ==> !UnquotedSemicolon(s, j)
    ensures AllStatements(s) == [s]
  {
    WholeStep(s);
    AllStatementsStep(s);
    assert AllStatements([]) == [];
  }

  lemma WholeStep(s: string)
    requires s != [] && s[0] != ';' && !IsWhitespace(s[0])
    requires UnquotedSemicolon(s, |s| - 1)
    requires forall j :: 0 <= j < |s| - 1 ==> !UnquotedSemicolon(s, j)
    ensures Step(s) == Some(Cut(s, []))
  {
    assert s[..0] == Semicolons(0) && s[0..|s|] == s && s[|s|..] == [];
    StepComplete(s, 0, s, []);
  }

  /** Text without an unquoted `;` runs nothing. */
  lemma NoStatement(s: string)
    requires forall j :: 0 <= j < |s| ==> !UnquotedSemicolon(s, j)
    ensures AllStatements(s) == []
  {
    StepNone(s);
  }

  /** Behind text with an even number of quotes, quoting is as if it were absent. */
  lemma UnquotedAfter(h: string, x: string, j: nat)
    requires Quotes(h) % 2 == 0 && j < |x|
    ensures UnquotedSemicolon(h + x, |h| + j) <==> UnquotedSemicolon(x, j)
  {
    assert (h + x)[..|h| + j] == h + x[..j];
    QuotesAppend(h, x[..j]);
  }

  /** Before a prefix's end, the rest of the text does not matter to quoting. */
  lemma UnquotedPrefix(x: string, y: string, j: nat)
    requires j < |x|
    ensures UnquotedSemicolon(x + y, j) <==> UnquotedSemicolon(x, j)
  {
    assert (x + y)[..j] == x[..j];
  }

  /** `StrStatements`: the iterator over the statements of `value`. */
  class StrStatements {

    var value: string

    /** `get_str_statements`: an iterator over the whole of `value`. */
    constructor (value: string)
      ensures this.value == value
    {
      this.value := value;
    }

    /**
     * `next`: scans `value` once, tracking whether it is inside a quoted
     * literal and where the current statement starts.
     */
    method Next() returns (r: Option<string>)
      modifies this
      ensures Step(old(value)).None? ==> r.None? && value == old(value)
      ensures Step(old(value)).Some? ==>
        r == Some(Step(old(value)).value.statement) && value == Step(old(value)).value.rest
    {
      var embedded := false;
      var pos := 0;
      var index := 0;
      ghost var n := LeadingSemicolons(value);
      while index < |value|
        invariant value == old(value)
        invariant 0 <= pos <= index <= |value|
        invariant pos == if index <= n then index else n
        invariant embedded <==> Quotes(value[..index]) % 2 == 1
        invariant index <= n ==> !embedded
        invariant forall j :: n <= j < index ==> !UnquotedSemicolon(value, j)
      {
        var c := value[index];
        QuotesExtend(value, index);
        if c == '\'' {
          embedded := !embedded;
        } else if embedded || c != ';' {
        } else {
          var statement := value[pos..index + 1];
          if StartsWith(statement, ';') || statement == [] {
            pos := index + 1;
          } else {
            FirstUnquotedSemicolonAt(value, n, index);
            StepAt(value, n, index);
            value := value[index + 1..];
            return Some(Trim(statement));
          }
        }
        index := index + 1;
      }
      r := None;
    }
  }

  /**
   * The `for` loop of `run_statement`: drives a fresh iterator to its end and
   * collects the statements it hands to the database, in order.
   */
  method RunStatement(sql: string) returns (prepared: seq<string>)
    ensures prepared == AllStatements(sql)
  {
    var statements := new StrStatements(sql);
    prepared := [];
    while true
      invariant prepared + AllStatements(statements.value) == AllStatements(sql)
      decreases |statements.value|
    {
      ghost var before := statements.value;
      var next := statements.Next();
      match next {
        case None =>
          assert AllStatements(before) == [];
          assert prepared + [] == prepared;
          return;
        case Some(statement) =>
          AllStatementsStep(before);
          assert AllStatements(before) == [statement] + AllStatements(statements.value);
          assert prepared + ([statement] + AllStatements(statements.value))
            == prepared + [statement] + AllStatements(statements.value);
          prepared := prepared + [statement];
      }
    }
  }

  /** Quotes add up over a concatenation. */
  lemma QuotesAppend(a: string, b: string)
    ensures Quotes(a + b) == Quotes(a) + Quotes(b)
  {
    assert multiset(a + b) == multiset(a) + multiset(b);
  }

  /** Text without `;` holds no `;` that could end a statement. */
  lemma NoSemicolonIn(s: string, from: nat, to: nat)
    requires from <= to <= |s| && ';' !in s[from..to]
    ensures forall j :: from <= j < to ==> !UnquotedSemicolon(s, j)
  {
    forall j | from <= j < to ensures !UnquotedSemicolon(s, j) {
      assert s[j] == s[from..to][j - from];
    }
  }

  /** Inside an open quote, no character ends a statement. */
  lemma InsideQuotes(s: string, from: nat, to: nat)
    requires from <= to <= |s| && Quotes(s[..from]) % 2 == 1 && '\'' !in s[from..to]
    ensures forall j :: from <= j < to ==> !UnquotedSemicolon(s, j)
  {
    forall j | from <= j < to ensures !UnquotedSemicolon(s, j) {
      assert s[..j] == s[..from] + s[from..j];
      QuotesAppend(s[..from], s[from..j]);
      assert s[from..to] == s[from..j] + s[j..to];
      QuotesAppend(s[from..j], s[j..to]);
    }
  }

  /** The raw text of a statement holding one quoted literal `q`, which may contain `;`. */
  lemma QuotedRaw(a: string, q: string, b: string)
    requires ';' !in a && '\'' !in a && '\'' !in q && ';' !in b && '\'' !in b
    ensures var raw := a + "'" + q + "'" + b + ";";
      && UnquotedSemicolon(raw, |raw| - 1)
      && forall j :: 0 <= j < |raw| - 1 ==> !UnquotedSemicolon(raw, j)
  {
    var h, t := a + "'" + q + "'", b + ";";
    var raw := h + t;
    assert raw == a + "'" + q + "'" + b + ";";
    QuotedHead(a, q);
    PlainTail(b);
    forall j | 0 <= j < |h| ensures !UnquotedSemicolon(raw, j) {
      UnquotedPrefix(h, t, j);
    }
    forall j | |h| <= j < |raw| ensures UnquotedSemicolon(raw, j) <==> UnquotedSemicolon(t, j - |h|) {
      UnquotedAfter(h, t, j - |h|);
    }
  }

  /** Text up to the closing quote of a literal: every quote closed, no unquoted `;`. */
  lemma QuotedHead(a: string, q: string)
    requires ';' !in a && '\'' !in a && '\'' !in q
    ensures var h := a + "'" + q + "'";
      && Quotes(h) % 2 == 0
      && forall j :: 0 <= j < |h| ==> !UnquotedSemicolon(h, j)
  {
    var h := a + "'" + q + "'";
    var p := |a|;
    var u := p + 1 + |q|;
    assert h[..p] == a;
    NoSemicolonIn(h, 0, p);
    assert h[..p + 1] == a + "'";
    QuotesAppend(a, "'");
    assert h[p + 1..u] == q;
    InsideQuotes(h, p + 1, u);
    QuotesAppend(a + "'", q);
    QuotesAppend(a + "'" + q, "'");
    assert h[p] == '\'' && h[u] == '\'';
  }

  /** Plain text closed by `;`: its only unquoted `;` is the last character. */
  lemma PlainTail(b: string)
    requires ';' !in b && '\'' !in b
    ensures var t := b + ";";
      && UnquotedSemicolon(t, |t| - 1)
      && forall j :: 0 <= j < |t| - 1 ==> !UnquotedSemicolon(t, j)
  {
    var t := b + ";";
    assert t[..|b|] == b;
    NoSemicolonIn(t, 0, |b|);
    assert '\'' !in multiset(b);
  }

  /**
   * A `;` inside a quoted literal does not end the statement: `next` yields
   * everything up to the `;` after the closing quote.
   */
  lemma QuotedSemicolonStaysInStatement(a: string, q: string, b: string, rest: string)
    requires a != [] && a[0] != ';'
    requires ';' !in a && '\'' !in a && '\'' !in q && ';' !in b && '\'' !in b
    ensures Step(a + "'" + q + "'" + b + ";" + rest) == Some(Cut(Trim(a + "'" + q + "'" + b + ";"), rest))
  {
    var raw := a + "'" + q + "'" + b + ";";
    var s := raw + rest;
    QuotedRaw(a, q, b);
    assert s[..0] == Semicolons(0);
    assert s[0..|raw|] == raw;
    assert s[|raw|..] == rest;
    assert raw[0] == a[0];
    StepComplete(s, 0, raw, rest);
  }

  /** A statement without quotes or inner `;` is yielded whole. */
  lemma PlainStatement(a: string, rest: string)
    requires a != [] && a[0] != ';' && ';' !in a && '\'' !in a
    ensures Step(a + ";" + rest) == Some(Cut(Trim(a + ";"), rest))
  {
    var raw := a + ";";
    var s := raw + rest;
    assert raw[..|a|] == a;
    NoSemicolonIn(raw, 0, |a|);
    assert s[..0] == Semicolons(0);
    assert s[0..|raw|] == raw;
    assert s[|raw|..] == rest;
    StepComplete(s, 0, raw, rest);
  }

  /** The unit test's first statement, written as its pieces. */
  lemma UnitTestFirstText()
    ensures "SELECT " + "'" + ";" + "'" + " FROM test" + ";" == "SELECT ';' FROM test;"
  {
  }

  lemma UnitTestFirstTrim()
    ensures Trim("SELECT ';' FROM test;") == "SELECT ';' FROM test;"
  {
  }

  /** The unit test's first statement, whatever follows it. */
  lemma UnitTestFirst(rest: string)
    ensures Step("SELECT ';' FROM test;" + rest) == Some(Cut("SELECT ';' FROM test;", rest))
  {
    QuotedSemicolonStaysInStatement("SELECT ", ";", " FROM test", rest);
    UnitTestFirstText();
    UnitTestFirstTrim();
  }

  lemma UnitTestSecondTrim()
    ensures Trim(" SELECT * FROM test;") == "SELECT * FROM test;"
  {
    assert " SELECT * FROM test;"[1..] == "SELECT * FROM test;";
  }

  /** The unit test's second statement, whatever follows it: it is trimmed. */
  lemma UnitTestSecond(rest: string)
    ensures Step(" SELECT * FROM test;" + rest) == Some(Cut("SELECT * FROM test;", rest))
  {
    PlainStatement(" SELECT * FROM test", rest);
    assert " SELECT * FROM test" + ";" == " SELECT * FROM test;";
    UnitTestSecondTrim();
  }

  /**
   * The shell's own unit test, on its input written as its two statements
   * and the trailing empty one: the quoted `;` stays inside the first
   * statement, the second statement is trimmed, and the trailing empty
   * statement is skipped.
   */
  lemma UnitTestStatements()
    ensures Step("SELECT ';' FROM test;" + (" SELECT * FROM test;" + ";"))
      == Some(Cut("SELECT ';' FROM test;", " SELECT * FROM test;" + ";"))
    ensures Step(" SELECT * FROM test;" + ";") == Some(Cut("SELECT * FROM test;", ";"))
    ensures Step(";") == None
  {
    UnitTestFirst(" SELECT * FROM test;" + ";");
    UnitTestSecond(";");
    SkipsEmptyStatement("");
  }

  /** The iterator driven to its end on the unit test's input. */
  lemma UnitTestAllStatements()
    ensures AllStatements("SELECT ';' FROM test;" + (" SELECT * FROM test;" + ";"))
      == ["SELECT ';' FROM test;", "SELECT * FROM test;"]
  {
    UnitTestStatements();
    AllStatementsStep("SELECT ';' FROM test;" + (" SELECT * FROM test;" + ";"));
    AllStatementsStep(" SELECT * FROM test;" + ";");
  }
}
