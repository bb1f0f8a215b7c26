/**
 Character-level text handling shared by both tools: Python's notion of
 whitespace, `str.strip()`, `str.split()` with no separator, `" ".join`,
 iteration over the lines of a text file, and writing one record per line.
 */
module Text {

  /** The characters for which Python's `str.isspace()` holds; `str.split()` and
      `str.strip()` with no argument use exactly this set. */
  const Whitespace: set<char> := {
    ' ', '\t', '\n', '\r', '\U{000B}', '\U{000C}',
    '\U{001C}', '\U{001D}', '\U{001E}', '\U{001F}',
    '\U{0085}', '\U{00A0}', '\U{1680}',
    '\U{2000}', '\U{2001}', '\U{2002}', '\U{2003}', '\U{2004}', '\U{2005}',
    '\U{2006}', '\U{2007}', '\U{2008}', '\U{2009}', '\U{200A}',
    '\U{2028}', '\U{2029}', '\U{202F}', '\U{205F}', '\U{3000}'
  }

  predicate IsWhitespace(c: char) {
    c in Whitespace
  }

  predicate NoWhitespace(s: string) {
    forall i :: 0 <= i < |s| ==> !IsWhitespace(s[i])
  }

  predicate AllWhitespace(s: string) {
    forall i :: 0 <= i < |s| ==> IsWhitespace(s[i])
  }

  /** What `str.split()` can produce: a non-empty run of non-whitespace. */
  predicate IsToken(s: string) {
    |s| > 0 && NoWhitespace(s)
  }

  /** Concatenation of a sequence of strings. */
  function Concat(xs: seq<string>): string {
    if xs == [] then [] else xs[0] + Concat(xs[1..])
  }

  lemma {:induction false} ConcatAppend(xs: seq<string>, ys: seq<string>)
    ensures Concat(xs + ys) == Concat(xs) + Concat(ys)
  {
    if xs == [] {
      assert xs + ys == ys;
    } else {
      assert (xs + ys)[1..] == xs[1..] + ys;
      ConcatAppend(xs[1..], ys);
    }
  }

  // ---------------------------------------------------------------------------
  // str.split()
  // ---------------------------------------------------------------------------

  /** Length of the run of non-whitespace at the start of `s`. */
  function TokenLen(s: string): (n: nat)
    ensures n <= |s|
    ensures NoWhitespace(s[..n])
    ensures n < |s| ==> IsWhitespace(s[n])
  {
    if s == [] || IsWhitespace(s[0]) then 0
    else
      var k := TokenLen(s[1..]);
      assert s[..k + 1] == [s[0]] + s[1..][..k];
      1 + k
  }

  /** `s.split()`: the maximal runs of non-whitespace of `s`, left to right. */
  function Split(s: string): (r: seq<string>)
    ensures forall i :: 0 <= i < |r| ==> IsToken(r[i])
    decreases |s|
  {
    if s == [] then []
    else if IsWhitespace(s[0]) then Split(s[1..])
    else
      var n := TokenLen(s);
      [s[..n]] + Split(s[n..])
  }

  /** The run at the front of `a + b` stays inside `a` when the boundary is whitespace. */
  lemma {:induction false} TokenLenConcat(a: string, b: string)
    requires |b| == 0 || IsWhitespace(b[0]) || TokenLen(a) < |a|
    ensures TokenLen(a + b) == TokenLen(a)
  {
    if a == [] {
      assert a + b == b;
    } else if IsWhitespace(a[0]) {
    } else {
      assert (a + b)[1..] == a[1..] + b;
      TokenLenConcat(a[1..], b);
    }
  }

  /** Splitting distributes over concatenation at a whitespace boundary. */
  lemma {:induction false} SplitConcat(a: string, b: string)
    requires |a| == 0 || |b| == 0 || IsWhitespace(a[|a| - 1]) || IsWhitespace(b[0])
    ensures Split(a + b) == Split(a) + Split(b)
    decreases |a|, 1
  {
    if a == [] {
      assert a + b == b;
    } else if b == [] {
      assert a + b == a;
    } else if IsWhitespace(a[0]) {
      SplitConcatAfterSpace(a, b);
    } else {
      SplitConcatAfterToken(a, b);
    }
  }

  /** `SplitConcat` when `a` starts with whitespace. */
  lemma {:induction false} SplitConcatAfterSpace(a: string, b: string)
    requires |a| > 0 && IsWhitespace(a[0])
    requires |b| == 0 || IsWhitespace(a[|a| - 1]) || IsWhitespace(b[0])
    ensures Split(a + b) == Split(a) + Split(b)
    decreases |a|, 0
  {
    assert (a + b)[1..] == a[1..] + b;
    SplitConcat(a[1..], b);
  }

  /** `SplitConcat` when `a` starts with a token. */
  lemma {:induction false} SplitConcatAfterToken(a: string, b: string)
    requires |a| > 0 && !IsWhitespace(a[0])
    requires |b| == 0 || IsWhitespace(a[|a| - 1]) || IsWhitespace(b[0])
    ensures Split(a + b) == Split(a) + Split(b)
    decreases |a|, 0
  {
    var n := TokenLen(a);
    if n == |a| {
      assert !IsWhitespace(a[|a| - 1]) by { assert a[..n][|a| - 1] == a[|a| - 1]; }
    }
    TokenLenConcat(a, b);
    SplitFront(a + b);
    SplitFront(a);
    assert (a + b)[..n] == a[..n];
    assert (a + b)[n..] == a[n..] + b;
    SplitConcat(a[n..], b);
    assert Split(a + b) == [a[..n]] + (Split(a[n..]) + Split(b));
  }

  /** A text starting with a token splits into that token and the rest's tokens. */
  lemma SplitFront(s: string)
    requires |s| > 0 && !IsWhitespace(s[0])
    ensures Split(s) == [s[..TokenLen(s)]] + Split(s[TokenLen(s)..])
  {
  }

  /** A text made only of whitespace has no tokens. */
  lemma {:induction false} SplitAllWhitespace(s: string)
    requires AllWhitespace(s)
    ensures Split(s) == []
    decreases |s|
  {
    if s != [] {
      SplitAllWhitespace(s[1..]);
    }
  }

  /** A single token splits to itself. */
  lemma SplitToken(t: string)
    requires IsToken(t)
    ensures Split(t) == [t]
  {
    TokenLenOfToken(t);
    assert t[..|t|] == t;
    assert t[|t|..] == [];
  }

  lemma {:induction false} TokenLenOfToken(t: string)
    requires NoWhitespace(t)
    ensures TokenLen(t) == |t|
  {
    if t != [] {
      TokenLenOfToken(t[1..]);
    }
  }

  // ---------------------------------------------------------------------------
  // str.strip()
  // ---------------------------------------------------------------------------

  /** `s.lstrip()`: `s` without its leading whitespace. */
  function StripStart(s: string): (r: string)
    ensures |r| <= |s| && r == s[|s| - |r|..]
    ensures AllWhitespace(s[..|s| - |r|])
    ensures r == [] || !IsWhitespace(r[0])
  {
    if s != [] && IsWhitespace(s[0]) then
      var r := StripStart(s[1..]);
      assert s[..|s| - |r|] == [s[0]] + s[1..][..|s[1..]| - |r|];
      r
    else s
  }

  /** `s.rstrip()`: `s` without its trailing whitespace. */
  function StripEnd(s: string): (r: string)
    ensures |r| <= |s| && r == s[..|r|]
    ensures AllWhitespace(s[|r|..])
    ensures r == [] || !IsWhitespace(r[|r| - 1])
  {
    if s != [] && IsWhitespace(s[|s| - 1]) then
      var r := StripEnd(s[..|s| - 1]);
      assert s[|r|..] == s[..|s| - 1][|r|..] + [s[|s| - 1]];
      r
    else s
  }

  /** `s.strip()`: `s` without leading and trailing whitespace. */
  function Strip(s: string): (r: string)
    ensures r == [] || (!IsWhitespace(r[0]) && !IsWhitespace(r[|r| - 1]))
  {
    StripEnd(StripStart(s))
  }

  /** `strip()` keeps a contiguous piece of `s` and removes only whitespace,
      all of it before the piece and all of it after. */
  lemma StripRemovesOuterWhitespace(s: string)
    ensures var r := Strip(s);
      exists i :: 0 <= i <= |s| - |r| && r == s[i..i + |r|] && AllWhitespace(s[..i]) && AllWhitespace(s[i + |r|..])
  {
    var t := StripStart(s);
    var r := StripEnd(t);
    var i := |s| - |t|;
    assert r == s[i..i + |r|];
    assert s[i + |r|..] == t[|r|..];
  }

  /** Leading whitespace contributes no token. */
  lemma SplitAfterWhitespace(w: string, x: string)
    requires AllWhitespace(w)
    ensures Split(w + x) == Split(x)
  {
    assert w == [] || IsWhitespace(w[|w| - 1]);
    SplitConcat(w, x);
    SplitAllWhitespace(w);
  }

  /** Trailing whitespace contributes no token. */
  lemma SplitBeforeWhitespace(x: string, w: string)
    requires AllWhitespace(w)
    ensures Split(x + w) == Split(x)
  {
    assert w == [] || IsWhitespace(w[0]);
    SplitConcat(x, w);
    SplitAllWhitespace(w);
  }

  /** `s.lstrip().split() == s.split()`. */
  lemma SplitIgnoresStripStart(s: string)
    ensures Split(StripStart(s)) == Split(s)
  {
    var t := StripStart(s);
    var w := s[..|s| - |t|];
    assert s == w + t;
    SplitAfterWhitespace(w, t);
  }

  /** `s.rstrip().split() == s.split()`. */
  lemma SplitIgnoresStripEnd(s: string)
    ensures Split(StripEnd(s)) == Split(s)
  {
    var r := StripEnd(s);
    var w := s[|r|..];
    assert s == r + w;
    SplitBeforeWhitespace(r, w);
  }

  /** Stripping before splitting changes nothing: `s.strip().split() == s.split()`. */
  lemma SplitIgnoresStrip(s: string)
    ensures Split(Strip(s)) == Split(s)
  {
    SplitIgnoresStripStart(s);
    SplitIgnoresStripEnd(StripStart(s));
  }

  // ---------------------------------------------------------------------------
  // " ".join
  // ---------------------------------------------------------------------------

  /** `" ".join(xs)`. */
  function Join(xs: seq<string>): string {
    if xs == [] then []
    else if |xs| == 1 then xs[0]
    else xs[0] + " " + Join(xs[1..])
  }

  /** Each further part is added after exactly one space. */
  lemma {:induction false} JoinSnoc(xs: seq<string>, y: string)
    requires xs != []
    ensures Join(xs + [y]) == Join(xs) + " " + y
    decreases |xs|
  {
    var ys := xs + [y];
    if |xs| == 1 {
      assert ys[1..] == [y];
    } else {
      assert ys[1..] == xs[1..] + [y];
      JoinSnoc(xs[1..], y);
    }
  }

  /** Joining tokens with single spaces and splitting again gives them back. */
  lemma {:induction false} SplitJoin(xs: seq<string>)
    requires forall i :: 0 <= i < |xs| ==> IsToken(xs[i])
    ensures Split(Join(xs)) == xs
  {
    if xs == [] {
    } else if |xs| == 1 {
      SplitToken(xs[0]);
    } else {
      var rest := " " + Join(xs[1..]);
      assert Join(xs) == xs[0] + rest;
      SplitConcat(xs[0], rest);
      SplitToken(xs[0]);
      assert rest[1..] == Join(xs[1..]);
      SplitJoin(xs[1..]);
    }
  }

  /** No newline appears in a joined line whose parts have none. */
  lemma {:induction false} JoinNoNewline(xs: seq<string>)
    requires forall i :: 0 <= i < |xs| ==> NoNewline(xs[i])
    ensures NoNewline(Join(xs))
  {
    if |xs| > 1 {
      JoinNoNewline(xs[1..]);
    }
  }

  // ---------------------------------------------------------------------------
  // Lines of a text file
  // ---------------------------------------------------------------------------

  predicate NoNewline(s: string) {
    forall i :: 0 <= i < |s| ==> s[i] != '\n'
  }

  /** A line as iterating a text file yields it: non-empty, with at most one
      '\n', which is then its last character. */
  predicate IsLine(l: string) {
    |l| > 0 && NoNewline(l[..|l| - 1])
  }

  predicate EndsWithNewline(l: string) {
    |l| > 0 && l[|l| - 1] == '\n'
  }

  /** Length of the first line of `s`, its '\n' included. */
  function LineLen(s: string): (n: nat)
    requires |s| > 0
    ensures 0 < n <= |s|
    ensures NoNewline(s[..n - 1])
    ensures n < |s| ==> s[n - 1] == '\n'
  {
    if s[0] == '\n' || |s| == 1 then 1
    else
      var k := LineLen(s[1..]);
      assert s[..k] == [s[0]] + s[1..][..k - 1];
      1 + k
  }

  /** `list(f)` for a text file `f` whose content is `s`: the lines of `s`, each
      keeping its '\n'; a final '\n' does not start an empty line. */
  function Lines(s: string): (r: seq<string>)
    ensures Concat(r) == s
    ensures forall i :: 0 <= i < |r| ==> IsLine(r[i])
    ensures forall i :: 0 <= i < |r| - 1 ==> EndsWithNewline(r[i])
    decreases |s|
  {
    if s == [] then []
    else
      var n := LineLen(s);
      assert s == s[..n] + s[n..];
      [s[..n]] + Lines(s[n..])
  }

  /** Writing each string followed by '\n', as `f.write(x + '\n')` and `print(x)` do. */
  function Unlines(xs: seq<string>): string {
    if xs == [] then [] else xs[0] + "\n" + Unlines(xs[1..])
  }

  /** A first line followed by further lines, written and read back. */
  lemma LinesUnlinesFirst(first: string, rest: seq<string>)
    requires NoNewline(first)
    requires forall i :: 0 <= i < |rest| ==> NoNewline(rest[i])
    ensures var ls := Lines(Unlines([first] + rest));
      && |ls| == |rest| + 1
      && ls[0] == first + "\n"
      && forall k :: 1 <= k < |ls| ==> ls[k] == rest[k - 1] + "\n"
  {
    var xs := [first] + rest;
    assert forall i :: 0 <= i < |xs| ==> NoNewline(xs[i]) by {
      forall i | 0 <= i < |xs| ensures NoNewline(xs[i]) {
        if i > 0 { assert xs[i] == rest[i - 1]; }
      }
    }
    LinesUnlines(xs);
    forall k | 1 <= k < |xs| ensures Lines(Unlines(xs))[k] == rest[k - 1] + "\n" {
      assert xs[k] == rest[k - 1];
    }
  }

  /** Reading back what `Unlines` wrote yields one line per record, in order. */
  lemma {:induction false} LinesUnlines(xs: seq<string>)
    requires forall i :: 0 <= i < |xs| ==> NoNewline(xs[i])
    ensures |Lines(Unlines(xs))| == |xs|
    ensures forall i :: 0 <= i < |xs| ==> Lines(Unlines(xs))[i] == xs[i] + "\n"
  {
    if xs != [] {
      var s := Unlines(xs);
      var head := xs[0] + "\n";
      assert s == head + Unlines(xs[1..]);
      LineLenOfTerminated(xs[0], Unlines(xs[1..]));
      assert s[..|head|] == head;
      assert s[|head|..] == Unlines(xs[1..]);
      LinesUnlines(xs[1..]);
    }
  }

  lemma {:induction false} LineLenOfTerminated(x: string, rest: string)
    requires NoNewline(x)
    ensures LineLen(x + "\n" + rest) == |x| + 1
  {
    if x != [] {
      assert (x + "\n" + rest)[1..] == x[1..] + "\n" + rest;
      LineLenOfTerminated(x[1..], rest);
    }
  }

  /** The tokens of a text are the tokens of its lines, in order:
      `line.strip().split()` for each line. */
  function LineTokens(lines: seq<string>): seq<string> {
    if lines == [] then [] else Split(Strip(lines[0])) + LineTokens(lines[1..])
  }

  /** Tokenising a text line by line, with `line.strip().split()`, yields the same
      tokens as splitting the whole text at once. */
  lemma {:induction false} LineTokensSplit(s: string)
    ensures LineTokens(Lines(s)) == Split(s)
    decreases |s|
  {
    if s != [] {
      var n := LineLen(s);
      var head, tail := s[..n], s[n..];
      assert Lines(s) == [head] + Lines(tail);
      LineTokensCons(head, Lines(tail));
      LineTokensSplit(tail);
      assert s == head + tail;
      assert |tail| == 0 || IsWhitespace(head[|head| - 1]) by {
        if |tail| > 0 {
          assert head[|head| - 1] == '\n';
          assert '\n' in Whitespace;
        }
      }
      SplitConcat(head, tail);
    }
  }

  lemma LineTokensCons(line: string, lines: seq<string>)
    ensures LineTokens([line] + lines) == Split(line) + LineTokens(lines)
  {
    SplitIgnoresStrip(line);
    assert ([line] + lines)[1..] == lines;
  }
}
