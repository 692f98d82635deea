/**
 * The Rust `str` and `char` operations the shell relies on. A string is a
 * sequence of characters; each character stands for one byte, which is exact
 * for ASCII text.
 */
module Text {

  import opened Wrappers

  /** `char::is_whitespace`: the characters with the Unicode White_Space property. */
  predicate IsWhitespace(c: char) {
    var n := c as int;
    || 9 <= n <= 13 || n == 32 || n == 0x85 || n == 0xA0 || n == 0x1680
    || 0x2000 <= n <= 0x200A || n == 0x2028 || n == 0x2029 || n == 0x202F
    || n == 0x205F || n == 0x3000
  }

  predicate AllWhitespace(s: string) {
    forall i :: 0 <= i < |s| ==> IsWhitespace(s[i])
  }

  predicate NoWhitespace(s: string) {
    forall i :: 0 <= i < |s| ==> !IsWhitespace(s[i])
  }

  /** `str::starts_with` with a character pattern. */
  predicate StartsWith(s: string, c: char) {
    |s| > 0 && s[0] == c
  }

  /** `str::ends_with` with a character pattern. */
  predicate EndsWith(s: string, c: char) {
    |s| > 0 && s[|s| - 1] == c
  }

  /** `str::trim_start`: the suffix left once all leading whitespace is dropped. */
  function TrimStart(s: string): (r: string)
    ensures |r| <= |s| && r == s[|s| - |r|..]
    ensures forall i :: 0 <= i < |s| - |r| ==> IsWhitespace(s[i])
    ensures r != [] ==> !IsWhitespace(r[0])
  {
    if s != [] && IsWhitespace(s[0]) then TrimStart(s[1..]) else s
  }

  /** `str::trim_end`: the prefix left once all trailing whitespace is dropped. */
  function TrimEnd(s: string): (r: string)
    ensures |r| <= |s| && r == s[..|r|]
    ensures forall i :: |r| <= i < |s| ==> IsWhitespace(s[i])
    ensures r != [] ==> !IsWhitespace(r[|r| - 1])
  {
    if s != [] && IsWhitespace(s[|s| - 1]) then TrimEnd(s[..|s| - 1]) else s
  }

  /** `r` is the slice of `s` starting at `a`, with only whitespace around it. */
  predicate TrimsTo(s: string, a: int, r: string) {
    && 0 <= a <= |s| - |r| && r == s[a..a + |r|]
    && (forall i :: 0 <= i < a ==> IsWhitespace(s[i]))
    && (forall i :: a + |r| <= i < |s| ==> IsWhitespace(s[i]))
  }

  /**
   * `str::trim`: drops whitespace at both ends. It keeps a last character
   * that is not whitespace, and leaves text with no whitespace at either end
   * as it is; `TrimSlice` and `TrimEmpty` state the rest of its meaning.
   */
  function Trim(s: string): (r: string)
    ensures r != [] ==> !IsWhitespace(r[0]) && !IsWhitespace(r[|r| - 1])
    ensures s != [] && !IsWhitespace(s[|s| - 1]) ==> r != [] && r[|r| - 1] == s[|s| - 1]
    ensures s != [] && !IsWhitespace(s[0]) && !IsWhitespace(s[|s| - 1]) ==> r == s
    decreases |s|
  {
    if s != [] && IsWhitespace(s[0]) then Trim(s[1..])
    else if s != [] && IsWhitespace(s[|s| - 1]) then Trim(s[..|s| - 1])
    else s
  }

  /** `str::trim` drops whitespace at both ends and nothing else. */
  lemma {:induction false} TrimSlice(s: string) returns (a: nat)
    ensures TrimsTo(s, a, Trim(s))
    decreases |s|
  {
    if s != [] && IsWhitespace(s[0]) {
      var b := TrimSlice(s[1..]);
      TrimsToCons(s, b, Trim(s[1..]));
      a := b + 1;
    } else if s != [] && IsWhitespace(s[|s| - 1]) {
      a := TrimSlice(s[..|s| - 1]);
      TrimsToSnoc(s, a, Trim(s[..|s| - 1]));
    } else {
      a := 0;
    }
  }

  lemma TrimsToCons(s: string, b: int, r: string)
    requires s != [] && IsWhitespace(s[0]) && TrimsTo(s[1..], b, r)
    ensures TrimsTo(s, b + 1, r)
  {
    assert s[b + 1..b + 1 + |r|] == s[1..][b..b + |r|];
    forall i | b + 1 + |r| <= i < |s| ensures IsWhitespace(s[i]) {
      assert s[i] == s[1..][i - 1];
    }
    forall i | 1 <= i < b + 1 ensures IsWhitespace(s[i]) {
      assert s[i] == s[1..][i - 1];
    }
  }

  lemma TrimsToSnoc(s: string, a: int, r: string)
    requires s != [] && IsWhitespace(s[|s| - 1]) && TrimsTo(s[..|s| - 1], a, r)
    ensures TrimsTo(s, a, r)
  {
    assert s[a..a + |r|] == s[..|s| - 1][a..a + |r|];
    forall i | a + |r| <= i < |s| - 1 ensures IsWhitespace(s[i]) {
      assert s[i] == s[..|s| - 1][i];
    }
    forall i | 0 <= i < a ensures IsWhitespace(s[i]) {
      assert s[i] == s[..|s| - 1][i];
    }
  }

  /** `str::trim` keeps every occurrence of a character that is not whitespace. */
  lemma {:induction false} TrimKeepsCount(s: string, c: char)
    requires !IsWhitespace(c)
    ensures multiset(Trim(s))[c] == multiset(s)[c]
    decreases |s|
  {
    if s != [] && IsWhitespace(s[0]) {
      assert s == [s[0]] + s[1..];
      TrimKeepsCount(s[1..], c);
    } else if s != [] && IsWhitespace(s[|s| - 1]) {
      assert s == s[..|s| - 1] + [s[|s| - 1]];
      TrimKeepsCount(s[..|s| - 1], c);
    }
  }

  /** `str::trim` empties exactly the text made of whitespace alone. */
  lemma TrimEmpty(s: string)
    ensures Trim(s) == [] <==> AllWhitespace(s)
  {
    var a := TrimSlice(s);
    TrimsToEnds(s, a, Trim(s));
  }

  lemma TrimsToEnds(s: string, a: int, r: string)
    requires TrimsTo(s, a, r)
    requires r != [] ==> !IsWhitespace(r[0]) && !IsWhitespace(r[|r| - 1])
    ensures r == [] <==> AllWhitespace(s)
    ensures s != [] && !IsWhitespace(s[|s| - 1]) ==> r != [] && r[|r| - 1] == s[|s| - 1]
    ensures s != [] && !IsWhitespace(s[0]) && !IsWhitespace(s[|s| - 1]) ==> r == s
  {
    if r != [] {
      assert r[0] == s[a];
    }
    if s != [] && !IsWhitespace(s[|s| - 1]) {
      assert a + |r| == |s|;
      if s != [] && !IsWhitespace(s[0]) {
        assert a == 0;
      }
    }
  }

  /** The first position of `c` in `s`, if any. */
  function IndexOf(s: string, c: char): (r: Option<nat>)
    ensures r.Some? ==> r.value < |s| && s[r.value] == c && c !in s[..r.value]
    ensures r.None? <==> c !in s
  {
    if s == [] then None
    else if s[0] == c then Some(0)
    else match IndexOf(s[1..], c)
      case None => None
      case Some(i) =>
        assert s[..i + 1] == [s[0]] + s[1..][..i];
        Some(i + 1)
  }

  /**
   * `str::split_once` with a character pattern: the text before and after the
   * first occurrence of `c`, or nothing when `c` does not occur.
   */
  function SplitOnce(s: string, c: char): (r: Option<(string, string)>)
    ensures r.Some? ==> s == r.value.0 + [c] + r.value.1 && c !in r.value.0
    ensures r.None? <==> c !in s
  {
    match IndexOf(s, c)
    case None => None
    case Some(i) =>
      assert s == s[..i] + [c] + s[i + 1..];
      Some((s[..i], s[i + 1..]))
  }

  /** `str::split_once` splits at the first occurrence and nowhere else. */
  lemma SplitOnceAt(a: string, c: char, b: string)
    requires c !in a
    ensures SplitOnce(a + [c] + b, c) == Some((a, b))
  {
    var s := a + [c] + b;
    var i := IndexOf(s, c).value;
    assert s[|a|] == c;
    assert s[..i] == a && s[i + 1..] == b;
  }

  /** A word of `str::split_whitespace`: non-empty and free of whitespace. */
  predicate IsWord(w: string) {
    w != [] && NoWhitespace(w)
  }

  /** The longest prefix of `s` that holds no whitespace. */
  function Word(s: string): (w: string)
    ensures |w| <= |s| && w == s[..|w|]
    ensures forall i :: 0 <= i < |w| ==> !IsWhitespace(s[i])
    ensures |w| < |s| ==> IsWhitespace(s[|w|])
  {
    if s == [] || IsWhitespace(s[0]) then [] else [s[0]] + Word(s[1..])
  }

  /** A word followed by whitespace, or by nothing, is the word `Word` takes. */
  lemma WordOf(w: string, rest: string)
    requires IsWord(w) && (rest == [] || IsWhitespace(rest[0]))
    ensures Word(w + rest) == w
  {
    assert (w + rest)[..|w|] == w;
  }

  /** `str::split_whitespace`: the maximal whitespace-free runs of `s`, in order. */
  function SplitWhitespace(s: string): (ws: seq<string>)
    ensures forall i :: 0 <= i < |ws| ==> IsWord(ws[i])
    decreases |s|
  {
    var t := TrimStart(s);
    if t == [] then []
    else
      var w := Word(t);
      [w] + SplitWhitespace(t[|w|..])
  }

  /** The words of `ws` joined with one space between each pair. */
  function JoinSpace(ws: seq<string>): string {
    if |ws| == 0 then ""
    else if |ws| == 1 then ws[0]
    else ws[0] + " " + JoinSpace(ws[1..])
  }

  lemma {:induction false} JoinSpaceSnoc(ws: seq<string>, x: string)
    requires ws != []
    ensures JoinSpace(ws + [x]) == JoinSpace(ws) + " " + x
  {
    if |ws| > 1 {
      assert (ws + [x])[1..] == ws[1..] + [x];
      JoinSpaceSnoc(ws[1..], x);
    }
  }

  /** Whitespace in front of the text does not change the words. */
  lemma SplitWhitespaceSkipsLeading(s: string)
    ensures SplitWhitespace(" " + s) == SplitWhitespace(s)
  {
    assert (" " + s)[1..] == s;
  }

  /** A word and a space in front of some text split off as that word. */
  lemma SplitWhitespaceCons(w: string, tail: string)
    requires IsWord(w)
    ensures SplitWhitespace(w + " " + tail) == [w] + SplitWhitespace(tail)
  {
    var s := w + (" " + tail);
    assert w + " " + tail == s;
    assert TrimStart(s) == s by { assert s[0] == w[0]; }
    WordOf(w, " " + tail);
    assert s[|w|..] == " " + tail;
    SplitWhitespaceSkipsLeading(tail);
  }

  /** A single word splits as itself. */
  lemma SplitWhitespaceWord(w: string)
    requires IsWord(w)
    ensures SplitWhitespace(w) == [w]
  {
    assert TrimStart(w) == w;
    WordOf(w, []);
    assert w + [] == w && w[|w|..] == [];
  }

  /** Splitting words joined by single spaces gives the words back. */
  lemma {:induction false} SplitJoinRoundTrip(ws: seq<string>)
    requires forall i :: 0 <= i < |ws| ==> IsWord(ws[i])
    ensures SplitWhitespace(JoinSpace(ws)) == ws
  {
    if |ws| == 1 {
      SplitWhitespaceWord(ws[0]);
    } else if |ws| > 1 {
      SplitJoinRoundTrip(ws[1..]);
      SplitJoinStep(ws);
    }
  }

  lemma SplitJoinStep(ws: seq<string>)
    requires |ws| > 1 && IsWord(ws[0])
    requires SplitWhitespace(JoinSpace(ws[1..])) == ws[1..]
    ensures SplitWhitespace(JoinSpace(ws)) == ws
  {
    var w, rest := ws[0], ws[1..];
    assert ws == [w] + rest;
    var tail := JoinSpace(rest);
    assert JoinSpace(ws) == w + " " + tail;
    SplitWhitespaceCons(w, tail);
  }

  /** Text made of whitespace alone has no words. */
  lemma SplitWhitespaceBlank(s: string)
    requires AllWhitespace(s)
    ensures SplitWhitespace(s) == []
  {
    var t := TrimStart(s);
    if t != [] {
      assert t[0] == s[|s| - |t|];
    }
  }

  /**
   * The first word of any text: after a run of whitespace of any length, a
   * word that ends at whitespace or at the end of the text is the first word,
   * and the words of the text after it follow.
   */
  lemma SplitWhitespaceFirst(g: string, w: string, h: string)
    requires AllWhitespace(g) && IsWord(w) && (h == [] || IsWhitespace(h[0]))
    ensures SplitWhitespace(g + w + h) == [w] + SplitWhitespace(h)
  {
    var t := w + h;
    assert g + w + h == g + t;
    TrimStartSkips(g, t);
    WordOf(w, h);
    assert t[|w|..] == h;
    SplitWhitespaceStep(g + t, t, w);
  }

  /** One step of `str::split_whitespace`: the first word, then the words after it. */
  lemma SplitWhitespaceStep(s: string, t: string, w: string)
    requires TrimStart(s) == t && t != [] && Word(t) == w
    ensures SplitWhitespace(s) == [w] + SplitWhitespace(t[|w|..])
  {
  }

  /** Dropping leading whitespace stops at the first character that is not whitespace. */
  lemma {:induction false} TrimStartSkips(g: string, t: string)
    requires AllWhitespace(g) && (t == [] || !IsWhitespace(t[0]))
    ensures TrimStart(g + t) == t
    decreases |g|
  {
    if g != [] {
      assert (g + t)[0] == g[0];
      assert (g + t)[1..] == g[1..] + t;
      TrimStartSkips(g[1..], t);
    } else {
      assert g + t == t;
    }
  }
}
