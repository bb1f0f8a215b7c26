/**
 The frequency counter: `count_word` tokenises the input line by line and
 counts each distinct token; `sort_and_print` writes one `"<word> <count>"`
 line per distinct token, in sorted order.
 */
module FrequencyCounter {
  import opened Results
  import opened Text
  import opened Order
  import opened Numerals

  /** The inner loop of `count_word` over `tokens`: a word seen before gets its
      count incremented, a new word starts at 1. */
  function Tally(tokens: seq<string>): (r: map<string, int>)
    ensures forall w :: w in r <==> w in tokens
    ensures forall w :: w in r ==> r[w] == multiset(tokens)[w]
    decreases |tokens|
  {
    if tokens == [] then map[]
    else
      var n := |tokens| - 1;
      var counts := Tally(tokens[..n]);
      var word := tokens[n];
      assert tokens == tokens[..n] + [word];
      if word in counts then counts[word := counts[word] + 1] else counts[word := 1]
  }

  /** `count_word` on standard input whose text is `text`. The keys are the
      distinct whitespace-separated tokens of the whole text and each count is
      the number of times that token occurs. */
  function CountWords(text: string): (r: map<string, int>)
    ensures forall w :: w in r <==> w in Split(text)
    ensures forall w :: w in r ==> IsToken(w) && r[w] >= 1 && r[w] == multiset(Split(text))[w]
  {
    LineTokensSplit(text);
    Tally(LineTokens(Lines(text)))
  }

  /** Empty or whitespace-only input has no words and prints nothing. */
  lemma EmptyInput(text: string)
    requires AllWhitespace(text)
    ensures CountWords(text) == map[]
    ensures Report(CountWords(text)) == []
  {
    SplitAllWhitespace(text);
    assert CountWords(text).Keys == {};
    assert SortSet(CountWords(text).Keys) == [];
  }

  // ---------------------------------------------------------------------------
  // Sum of the counts
  // ---------------------------------------------------------------------------

  /** The sum of `counts[w]` over the words `words`. */
  function SumOver(words: seq<string>, counts: map<string, int>): int
    requires forall i :: 0 <= i < |words| ==> words[i] in counts
  {
    if words == [] then 0 else counts[words[0]] + SumOver(words[1..], counts)
  }

  predicate Distinct(words: seq<string>) {
    forall i, j :: 0 <= i < j < |words| ==> words[i] != words[j]
  }

  /** The sum over `words` of the multiplicities in `bag`. */
  function SumMultiplicity(words: seq<string>, bag: multiset<string>): int {
    if words == [] then 0 else bag[words[0]] + SumMultiplicity(words[1..], bag)
  }

  lemma {:induction false} SumOverCounts(words: seq<string>, counts: map<string, int>, bag: multiset<string>)
    requires forall i :: 0 <= i < |words| ==> words[i] in counts && counts[words[i]] == bag[words[i]]
    ensures SumOver(words, counts) == SumMultiplicity(words, bag)
  {
    if words != [] {
      SumOverCounts(words[1..], counts, bag);
    }
  }

  /** Adding one `x` to the bag adds one to the sum when `x` is listed once. */
  lemma {:induction false} SumMultiplicityAdd(words: seq<string>, bag: multiset<string>, x: string)
    requires Distinct(words)
    ensures SumMultiplicity(words, bag + multiset{x}) == SumMultiplicity(words, bag) + (if x in words then 1 else 0)
  {
    if words != [] {
      SumMultiplicityAdd(words[1..], bag, x);
      if words[0] == x {
        assert x !in words[1..];
      } else {
        assert x in words <==> x in words[1..];
      }
    }
  }

  /** Summing the multiplicities of a token list over a duplicate-free list that
      covers it gives the number of tokens. */
  lemma {:induction false} SumMultiplicityOfTokens(words: seq<string>, tokens: seq<string>)
    requires Distinct(words)
    requires forall t :: t in tokens ==> t in words
    ensures SumMultiplicity(words, multiset(tokens)) == |tokens|
    decreases |tokens|
  {
    if tokens == [] {
      SumMultiplicityEmpty(words);
    } else {
      var n := |tokens| - 1;
      assert tokens == tokens[..n] + [tokens[n]];
      SumMultiplicityOfTokens(words, tokens[..n]);
      SumMultiplicityAdd(words, multiset(tokens[..n]), tokens[n]);
    }
  }

  lemma {:induction false} SumMultiplicityEmpty(words: seq<string>)
    ensures SumMultiplicity(words, multiset{}) == 0
  {
    if words != [] {
      SumMultiplicityEmpty(words[1..]);
    }
  }

  /** The counts printed add up to the number of tokens in the input. */
  lemma CountsSumToTokens(text: string)
    ensures var counts := CountWords(text);
      SumOver(SortSet(counts.Keys), counts) == |Split(text)|
  {
    var counts := CountWords(text);
    var words := SortSet(counts.Keys);
    assert Distinct(words) by {
      forall i, j | 0 <= i < j < |words| ensures words[i] != words[j] {
        assert Less(words[i], words[j]);
      }
    }
    SumOverCounts(words, counts, multiset(Split(text)));
    SumMultiplicityOfTokens(words, Split(text));
  }

  // ---------------------------------------------------------------------------
  // sort_and_print
  // ---------------------------------------------------------------------------

  /** One printed line, `f"{word} {frequency}"`, without its '\n'. */
  function RecordLine(word: string, count: int): string {
    word + " " + IntToString(count)
  }

  /** The lines `sort_and_print` prints, without their '\n': one per key, in
      `sorted(keys)` order. */
  function ReportLines(counts: map<string, int>): (r: seq<string>)
    ensures |r| == |counts|
  {
    RecordLines(SortSet(counts.Keys), counts)
  }

  /** One record line per word of `words`, in that order. */
  function RecordLines(words: seq<string>, counts: map<string, int>): (r: seq<string>)
    requires forall i :: 0 <= i < |words| ==> words[i] in counts
    ensures |r| == |words|
  {
    seq(|words|, i requires 0 <= i < |words| => RecordLine(words[i], counts[words[i]]))
  }

  /** The text `sort_and_print` writes to standard output. */
  function Report(counts: map<string, int>): string {
    Unlines(ReportLines(counts))
  }

  /** A record line splits into the word and its count. */
  lemma RecordLineFields(word: string, count: int)
    requires IsToken(word)
    ensures Split(RecordLine(word, count)) == [word, IntToString(count)]
    ensures NoNewline(RecordLine(word, count))
  {
    assert RecordLine(word, count) == Join([word, IntToString(count)]);
    SplitJoin([word, IntToString(count)]);
  }

  /** Line `i` of the report holds the `i`-th smallest word and its count. */
  lemma ReportLineAt(counts: map<string, int>, i: nat)
    requires forall w :: w in counts ==> IsToken(w)
    requires i < |counts|
    ensures var word := SortSet(counts.Keys)[i];
      && Split(ReportLines(counts)[i]) == [word, IntToString(counts[word])]
      && ReportLines(counts)[i] == word + " " + IntToString(counts[word])
      && ParseInt(IntToString(counts[word])) == Some(counts[word])
  {
    var word := SortSet(counts.Keys)[i];
    assert ReportLines(counts)[i] == RecordLine(word, counts[word]);
    RecordLineFields(word, counts[word]);
    ParseIntOfIntToString(counts[word]);
  }

  /** Every printed line is a word of the map, one space, and a numeral that
      reads back as that word's count. */
  lemma ReportLinesAreRecords(counts: map<string, int>)
    requires forall w :: w in counts ==> IsToken(w)
    ensures var r := ReportLines(counts);
      forall i :: 0 <= i < |r| ==>
        && |Split(r[i])| == 2
        && r[i] == Split(r[i])[0] + " " + Split(r[i])[1]
        && Split(r[i])[0] in counts
        && ParseInt(Split(r[i])[1]) == Some(counts[Split(r[i])[0]])
  {
    var r := ReportLines(counts);
    forall i | 0 <= i < |r|
      ensures |Split(r[i])| == 2
      ensures r[i] == Split(r[i])[0] + " " + Split(r[i])[1]
      ensures Split(r[i])[0] in counts
      ensures ParseInt(Split(r[i])[1]) == Some(counts[Split(r[i])[0]])
    {
      ReportLineAt(counts, i);
    }
  }

  /** The words of the printed lines strictly increase: sorted, no repeats. */
  lemma ReportLinesSorted(counts: map<string, int>)
    requires forall w :: w in counts ==> IsToken(w)
    ensures var r := ReportLines(counts);
      forall i, j :: 0 <= i < j < |r| ==>
        |Split(r[i])| == 2 && |Split(r[j])| == 2 && Less(Split(r[i])[0], Split(r[j])[0])
  {
    var r := ReportLines(counts);
    var words := SortSet(counts.Keys);
    forall i | 0 <= i < |r|
      ensures |Split(r[i])| == 2 && Split(r[i])[0] == words[i]
    {
      ReportLineAt(counts, i);
    }
  }

  /** Every word of the map has a printed line, and there are no other lines. */
  lemma ReportLinesComplete(counts: map<string, int>)
    requires forall w :: w in counts ==> IsToken(w)
    ensures |ReportLines(counts)| == |counts|
    ensures forall w :: w in counts ==>
      exists i :: 0 <= i < |ReportLines(counts)| && Split(ReportLines(counts)[i]) == [w, IntToString(counts[w])]
  {
    var words := SortSet(counts.Keys);
    forall w | w in counts
      ensures exists i :: 0 <= i < |ReportLines(counts)| && Split(ReportLines(counts)[i]) == [w, IntToString(counts[w])]
    {
      var i :| 0 <= i < |words| && words[i] == w;
      ReportLineAt(counts, i);
    }
  }

  /** `count_word` followed by `sort_and_print` on the text `"a b a c b a"`
      prints `a 3`, `b 2` and `c 1`, in that order. */
  lemma ExampleCount(text: string)
    requires text == "a b a c b a"
    ensures Report(CountWords(text)) == "a 3\nb 2\nc 1\n"
  {
    ExampleSplit(text);
    ExampleCounts(text);
    ExampleReport(CountWords(text));
  }

  lemma ExampleSplit(text: string)
    requires text == "a b a c b a"
    ensures Split(text) == ["a", "b", "a", "c", "b", "a"]
  {
    var tokens := ["a", "b", "a", "c", "b", "a"];
    LetterIsToken('a');
    LetterIsToken('b');
    LetterIsToken('c');
    assert forall i :: 0 <= i < |tokens| ==> IsToken(tokens[i]);
    assert tokens[2..] == ["a", "c", "b", "a"];
    ExampleJoinTail();
    assert Join(tokens) == text;
    SplitJoin(tokens);
  }

  /** A single lower-case ASCII letter is a token. */
  lemma LetterIsToken(c: char)
    requires 'a' <= c <= 'z'
    ensures IsToken([c])
  {
    assert c !in Whitespace;
  }

  lemma ExampleJoinTail()
    ensures Join(["a", "c", "b", "a"]) == "a c b a"
  {
    var tokens := ["a", "c", "b", "a"];
    assert Join(tokens[2..]) == "b a";
  }

  lemma ExampleCounts(text: string)
    requires Split(text) == ["a", "b", "a", "c", "b", "a"]
    ensures CountWords(text) == map["a" := 3, "b" := 2, "c" := 1]
  {
    assert "a" != "b" && "b" != "c" && "a" != "c" by {
      assert "a"[0] != "b"[0] && "b"[0] != "c"[0] && "a"[0] != "c"[0];
    }
    ExampleTally(CountWords(text), Split(text), "a", "b", "c");
  }

  lemma ExampleTally(counts: map<string, int>, tokens: seq<string>, a: string, b: string, c: string)
    requires a != b && b != c && a != c
    requires tokens == [a, b, a, c, b, a]
    requires forall w :: w in counts <==> w in tokens
    requires forall w :: w in counts ==> counts[w] == multiset(tokens)[w]
    ensures counts == map[a := 3, b := 2, c := 1]
  {
    ExampleOccurrences(tokens, a, b, c);
    assert counts.Keys == {a, b, c};
  }

  lemma ExampleOccurrences(tokens: seq<string>, a: string, b: string, c: string)
    requires a != b && b != c && a != c
    requires tokens == [a, b, a, c, b, a]
    ensures multiset(tokens)[a] == 3 && multiset(tokens)[b] == 2 && multiset(tokens)[c] == 1
    ensures forall w :: w in tokens <==> w == a || w == b || w == c
  {
    assert multiset(tokens) == multiset{a, a, a, b, b, c};
  }

  lemma ExampleReport(counts: map<string, int>)
    requires counts == map["a" := 3, "b" := 2, "c" := 1]
    ensures Report(counts) == "a 3\nb 2\nc 1\n"
  {
    ExampleSortedWords(counts);
    ExampleReportLines(counts);
    ExampleUnlines(ReportLines(counts));
  }

  lemma ExampleReportLines(counts: map<string, int>)
    requires SortSet(counts.Keys) == ["a", "b", "c"]
    requires counts["a"] == 3 && counts["b"] == 2 && counts["c"] == 1
    ensures ReportLines(counts) == ["a 3", "b 2", "c 1"]
  {
    var words := SortSet(counts.Keys);
    assert words[0] == "a" && words[1] == "b" && words[2] == "c";
    ExampleRecordLines(counts, words);
  }

  lemma ExampleRecordLines(counts: map<string, int>, words: seq<string>)
    requires words == ["a", "b", "c"]
    requires "a" in counts && "b" in counts && "c" in counts
    requires counts["a"] == 3 && counts["b"] == 2 && counts["c"] == 1
    ensures RecordLines(words, counts) == ["a 3", "b 2", "c 1"]
  {
    ThreeRecordLines(counts, "a", "b", "c");
    ExampleRecordLine("a", 3, "a 3");
    ExampleRecordLine("b", 2, "b 2");
    ExampleRecordLine("c", 1, "c 1");
  }

  lemma ThreeRecordLines(counts: map<string, int>, a: string, b: string, c: string)
    requires a in counts && b in counts && c in counts
    ensures RecordLines([a, b, c], counts) == [RecordLine(a, counts[a]), RecordLine(b, counts[b]), RecordLine(c, counts[c])]
  {
    var words := [a, b, c];
    var r := RecordLines(words, counts);
    assert r[0] == RecordLine(a, counts[a]);
    assert r[1] == RecordLine(b, counts[b]);
    assert r[2] == RecordLine(c, counts[c]);
  }

  lemma ExampleRecordLine(word: string, count: int, line: string)
    requires 0 <= count < 10
    requires line == word + [' ', DigitChar(count)]
    ensures RecordLine(word, count) == line
  {
    assert IntToString(count) == [DigitChar(count)];
  }

  lemma ExampleUnlines(lines: seq<string>)
    requires lines == ["a 3", "b 2", "c 1"]
    ensures Unlines(lines) == "a 3\nb 2\nc 1\n"
  {
    assert Unlines(lines[2..]) == "c 1\n";
    assert Unlines(lines[1..]) == "b 2\nc 1\n";
  }

  lemma ExampleSortedWords(counts: map<string, int>)
    requires counts == map["a" := 3, "b" := 2, "c" := 1]
    ensures SortSet(counts.Keys) == ["a", "b", "c"]
  {
    var abc := ["a", "b", "c"];
    assert Less("a", "b") && Less("b", "c") && Less("a", "c");
    assert StrictlySorted(abc);
    assert counts.Keys == {"a", "b", "c"};
    StrictlySortedUnique(SortSet(counts.Keys), abc);
  }
}
