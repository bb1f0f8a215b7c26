/**
 The two tools as a pipeline: what the frequency counter prints is exactly a
 term-frequency file the matrix builder accepts, and reading it back gives
 the counts the counter computed.
 */
module Pipeline {
  import opened Results
  import opened Text
  import opened Order
  import opened Numerals
  import opened TermFrequencyParser
  import opened FrequencyCounter

  /** The map of `m` restricted to the words of `words`. */
  function Restrict(m: map<string, int>, words: seq<string>): (r: map<string, int>)
    requires forall i :: 0 <= i < |words| ==> words[i] in m
    ensures forall w :: w in r <==> w in words
    ensures forall w :: w in r ==> r[w] == m[w]
  {
    map w | w in words :: m[w]
  }

  /** Restricting to one more word adds that word's entry. */
  lemma RestrictLast(m: map<string, int>, words: seq<string>)
    requires words != []
    requires forall i :: 0 <= i < |words| ==> words[i] in m
    ensures var n := |words| - 1;
      Restrict(m, words) == Restrict(m, words[..n])[words[n] := m[words[n]]]
  {
    var n := |words| - 1;
    assert words == words[..n] + [words[n]];
  }

  /** Line `i` of `lines` parses to `words[i]` and that word's value in `m`. */
  predicate ParsesToEntries(lines: seq<string>, words: seq<string>, m: map<string, int>) {
    && |lines| == |words|
    && forall i :: 0 <= i < |lines| ==> words[i] in m && ParseLine(lines[i]) == Ok((words[i], m[words[i]]))
  }

  lemma ParsesToEntriesPrefix(lines: seq<string>, words: seq<string>, m: map<string, int>, n: nat)
    requires ParsesToEntries(lines, words, m) && n <= |lines|
    ensures ParsesToEntries(lines[..n], words[..n], m)
  {
    assert forall i :: 0 <= i < n ==> lines[..n][i] == lines[i] && words[..n][i] == words[i];
  }

  /** Lines that each parse to a word of `words` with that word's value in `m`
      build the map of `m` restricted to `words`. */
  lemma {:induction false} ParseLinesRestrict(lines: seq<string>, words: seq<string>, m: map<string, int>)
    requires ParsesToEntries(lines, words, m)
    ensures ParseLines(lines) == Ok(Restrict(m, words))
  {
    if lines == [] {
      assert Restrict(m, words) == map[];
    } else {
      var n := |lines| - 1;
      var prefix, before := lines[..n], words[..n];
      ParsesToEntriesPrefix(lines, words, m, n);
      ParseLinesRestrict(prefix, before, m);
      ParseLinesLast(lines);
      RestrictLast(m, words);
    }
  }

  /** A report line followed by its '\n' parses to its word and count. */
  lemma ReportLineParses(counts: map<string, int>, i: nat)
    requires forall w :: w in counts ==> IsToken(w)
    requires i < |counts|
    ensures var word := SortSet(counts.Keys)[i];
      ParseLine(ReportLines(counts)[i] + "\n") == Ok((word, counts[word]))
  {
    var line := ReportLines(counts)[i];
    ReportLineAt(counts, i);
    SplitConcat(line, "\n");
    SplitAllWhitespace("\n");
    assert Split(line + "\n") == Split(line);
  }

  /** No report line holds a '\n' before the one `print` adds. */
  lemma ReportLinesNoNewline(counts: map<string, int>)
    requires forall w :: w in counts ==> IsToken(w)
    ensures forall i :: 0 <= i < |ReportLines(counts)| ==> NoNewline(ReportLines(counts)[i])
  {
    var ls := ReportLines(counts);
    var words := SortSet(counts.Keys);
    forall i | 0 <= i < |ls| ensures NoNewline(ls[i]) {
      RecordLineFields(words[i], counts[words[i]]);
      assert ls[i] == RecordLine(words[i], counts[words[i]]);
    }
  }

  /** Read back line by line, the report gives each printed line with its '\n'. */
  lemma ReportTextShape(counts: map<string, int>)
    requires forall w :: w in counts ==> IsToken(w)
    ensures |Lines(Report(counts))| == |counts|
    ensures forall i :: 0 <= i < |counts| ==> Lines(Report(counts))[i] == ReportLines(counts)[i] + "\n"
  {
    ReportLinesNoNewline(counts);
    LinesUnlines(ReportLines(counts));
  }

  /** Line `i` of the printed report parses to the `i`-th word and its count. */
  lemma ReportTextLines(counts: map<string, int>)
    requires forall w :: w in counts ==> IsToken(w)
    ensures ParsesToEntries(Lines(Report(counts)), SortSet(counts.Keys), counts)
  {
    ReportTextShape(counts);
    var lines := Lines(Report(counts));
    forall i | 0 <= i < |lines|
      ensures ParseLine(lines[i]) == Ok((SortSet(counts.Keys)[i], counts[SortSet(counts.Keys)[i]]))
    {
      assert lines[i] == ReportLines(counts)[i] + "\n";
      ReportLineParses(counts, i);
    }
  }

  /** Restricting a map to all of its keys gives the map itself. */
  lemma RestrictToKeys(m: map<string, int>, words: seq<string>)
    requires forall w :: w in words <==> w in m
    ensures Restrict(m, words) == m
  {
  }

  /** Reading a report back with the matrix builder's parser gives the same
      map, whenever every key is a whitespace-free, non-empty word. */
  lemma ReportRoundTrip(counts: map<string, int>)
    requires forall w :: w in counts ==> IsToken(w)
    ensures ParseTermFrequencies(Report(counts)) == Ok(counts)
  {
    var words := SortSet(counts.Keys);
    var lines := Lines(Report(counts));
    ReportTextLines(counts);
    ParseLinesRestrict(lines, words, counts);
    RestrictToKeys(counts, words);
    assert ParseTermFrequencies(Report(counts)) == ParseLines(lines);
  }

  /** The counter's output is a valid term-frequency file holding exactly the
      counts of the input text. */
  lemma CounterFeedsGenerator(text: string)
    ensures ParseTermFrequencies(Report(CountWords(text))) == Ok(CountWords(text))
  {
    ReportRoundTrip(CountWords(text));
  }
}
