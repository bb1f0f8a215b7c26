/**
 `read_term_frequencies` of the matrix builder: a per-document file of
 `"<term> <frequency>"` lines becomes a map from term to frequency. Every
 line must split into exactly two fields and the second must be an integer;
 the first line that breaks either rule fails the whole file.
 */
module TermFrequencyParser {
  import opened Results
  import opened Text
  import opened Numerals

  /** Why one line was rejected: the unpacking `term, frequency = ...` found
      another number of fields, or `int(frequency)` raised. */
  datatype LineError = WrongFieldCount(found: nat) | NotAnInteger(field: string)

  /** The rejected line, counted from 0, and the reason. */
  datatype ParseError = ParseError(line: nat, reason: LineError)

  /** The fields of one line unpacked as `term, frequency` and the frequency
      converted with `int`. */
  function ParseFields(fields: seq<string>): (r: Result<(string, int), LineError>)
    ensures r.Ok? <==> |fields| == 2 && IsIntegerLiteral(fields[1])
    ensures r.Ok? ==> r.value.0 == fields[0] && ParseInt(fields[1]) == Some(r.value.1)
    ensures |fields| != 2 ==> r == Err(WrongFieldCount(|fields|))
    ensures |fields| == 2 && !IsIntegerLiteral(fields[1]) ==> r == Err(NotAnInteger(fields[1]))
  {
    if |fields| != 2 then Err(WrongFieldCount(|fields|))
    else
      match ParseInt(fields[1])
      case None => Err(NotAnInteger(fields[1]))
      case Some(frequency) => Ok((fields[0], frequency))
  }

  /** One line, `term, frequency = line.strip().split()` then `int(frequency)`,
      with the `strip()` left out: `ParseLineStripped` proves it changes nothing. */
  function ParseLine(line: string): Result<(string, int), LineError> {
    ParseFields(Split(line))
  }

  /** Parsing the line with the `strip()` the source applies first gives the
      same result. */
  lemma ParseLineStripped(line: string)
    ensures ParseFields(Split(Strip(line))) == ParseLine(line)
  {
    SplitIgnoresStrip(line);
  }

  /** A line parses exactly when it has two fields and the second is an
      integer; the entry is then the first field and that integer. */
  lemma ParseLineSpec(line: string)
    ensures ParseLine(line).Ok? <==> |Split(line)| == 2 && IsIntegerLiteral(Split(line)[1])
    ensures ParseLine(line).Ok? ==>
      && ParseLine(line).value.0 == Split(line)[0]
      && ParseInt(Split(line)[1]) == Some(ParseLine(line).value.1)
    ensures |Split(line)| != 2 ==> ParseLine(line) == Err(WrongFieldCount(|Split(line)|))
  {
  }

  /** A blank or whitespace-only line has no fields and is rejected. */
  lemma BlankLineRejected(line: string)
    requires AllWhitespace(line)
    ensures ParseLine(line) == Err(WrongFieldCount(0))
  {
    SplitAllWhitespace(line);
  }

  /** A line holding a term, one space and any integer parses to that entry;
      negative frequencies are accepted, since `int` accepts them. */
  lemma ParseLineOfEntry(term: string, frequency: int)
    requires IsToken(term)
    ensures ParseLine(term + " " + IntToString(frequency)) == Ok((term, frequency))
  {
    assert term + " " + IntToString(frequency) == Join([term, IntToString(frequency)]);
    SplitJoin([term, IntToString(frequency)]);
    ParseIntOfIntToString(frequency);
  }

  /** A file with a blank or whitespace-only line anywhere fails, at that line
      or at an earlier bad one: blank lines are not skipped. */
  lemma BlankLineFailsFile(content: string, k: nat)
    requires k < |Lines(content)| && AllWhitespace(Lines(content)[k])
    ensures ParseTermFrequencies(content).Err?
    ensures ParseTermFrequencies(content).error.line <= k
  {
    BlankLineRejected(Lines(content)[k]);
  }

  /** Line `line` parses and names `term`. */
  predicate Defines(line: string, term: string) {
    ParseLine(line).Ok? && ParseLine(line).value.0 == term
  }

  /** Line `i` is the last line of `lines` that names `term`. */
  predicate LastDefinition(lines: seq<string>, i: int, term: string) {
    && 0 <= i < |lines|
    && Defines(lines[i], term)
    && forall j :: i < j < |lines| ==> !Defines(lines[j], term)
  }

  /** The loop of `read_term_frequencies` over `lines`, in order: each line sets
      `terms[term] = int(frequency)`; the first line that does not parse ends
      the loop with its error. */
  function ParseLines(lines: seq<string>): (r: Result<map<string, int>, ParseError>)
    ensures r.Ok? <==> forall i :: 0 <= i < |lines| ==> ParseLine(lines[i]).Ok?
    ensures r.Err? ==>
      && r.error.line < |lines|
      && ParseLine(lines[r.error.line]) == Err(r.error.reason)
      && forall i :: 0 <= i < r.error.line ==> ParseLine(lines[i]).Ok?
    decreases |lines|
  {
    if lines == [] then Ok(map[])
    else
      var n := |lines| - 1;
      var prefix := lines[..n];
      assert forall i :: 0 <= i < n ==> prefix[i] == lines[i];
      match ParseLines(prefix)
      case Err(e) => Err(e)
      case Ok(m) =>
        match ParseLine(lines[n])
        case Err(reason) => Err(ParseError(n, reason))
        case Ok(entry) => Ok(m[entry.0 := entry.1])
  }

  /** A non-empty list of lines parses exactly when all lines but the last do
      and the last does; the map is then the earlier lines' map updated with the
      last line's entry. */
  lemma ParseLinesLast(lines: seq<string>)
    requires lines != []
    ensures var n := |lines| - 1;
      ParseLines(lines).Ok? <==> ParseLines(lines[..n]).Ok? && ParseLine(lines[n]).Ok?
    ensures var n := |lines| - 1;
      ParseLines(lines).Ok? ==>
        ParseLines(lines).value
        == ParseLines(lines[..n]).value[ParseLine(lines[n]).value.0 := ParseLine(lines[n]).value.1]
  {
  }

  /** The keys of the parsed map are exactly the terms the lines name. */
  lemma {:induction false} ParseLinesKeys(lines: seq<string>)
    requires ParseLines(lines).Ok?
    ensures forall t :: t in ParseLines(lines).value <==> exists i :: 0 <= i < |lines| && Defines(lines[i], t)
  {
    if lines != [] {
      var n := |lines| - 1;
      var prefix := lines[..n];
      ParseLinesLast(lines);
      ParseLinesKeys(prefix);
      assert forall i :: 0 <= i < n ==> prefix[i] == lines[i];
      var m := ParseLines(prefix).value;
      var entry := ParseLine(lines[n]).value;
      assert Defines(lines[n], entry.0);
      var r := ParseLines(lines).value;
      forall t | t in r
        ensures exists i :: 0 <= i < |lines| && Defines(lines[i], t)
      {
        if t != entry.0 {
          var i :| 0 <= i < n && Defines(prefix[i], t);
          assert Defines(lines[i], t);
        }
      }
      forall t, i | 0 <= i < |lines| && Defines(lines[i], t)
        ensures t in r
      {
        if i < n {
          assert Defines(prefix[i], t);
        }
      }
    }
  }

  /** Each term maps to the frequency on the last line that names it. */
  lemma {:induction false} ParseLinesLastWins(lines: seq<string>)
    requires ParseLines(lines).Ok?
    ensures forall t :: t in ParseLines(lines).value ==>
      exists i :: LastDefinition(lines, i, t) && ParseLines(lines).value[t] == ParseLine(lines[i]).value.1
  {
    if lines != [] {
      var n := |lines| - 1;
      var prefix := lines[..n];
      ParseLinesLast(lines);
      ParseLinesLastWins(prefix);
      var m := ParseLines(prefix).value;
      var entry := ParseLine(lines[n]).value;
      var r := ParseLines(lines).value;
      forall t | t in r
        ensures exists i :: LastDefinition(lines, i, t) && r[t] == ParseLine(lines[i]).value.1
      {
        if t == entry.0 {
          assert LastDefinition(lines, n, t);
        } else {
          var i :| LastDefinition(prefix, i, t) && m[t] == ParseLine(prefix[i]).value.1;
          LastDefinitionExtends(prefix, lines, i, t);
        }
      }
    }
  }

  /** The last definition in a prefix stays the last one when the next line
      names another term. */
  lemma LastDefinitionExtends(prefix: seq<string>, lines: seq<string>, i: int, t: string)
    requires |lines| == |prefix| + 1 && prefix == lines[..|prefix|]
    requires LastDefinition(prefix, i, t)
    requires !Defines(lines[|prefix|], t)
    ensures LastDefinition(lines, i, t)
  {
    assert lines[i] == prefix[i];
    forall j | i < j < |lines| ensures !Defines(lines[j], t) {
      if j < |prefix| { assert lines[j] == prefix[j]; }
    }
  }

  /** `read_term_frequencies` on a file whose content is `content`. */
  function ParseTermFrequencies(content: string): (r: Result<map<string, int>, ParseError>)
    ensures r.Ok? ==> forall t :: t in r.value ==> IsToken(t)
    ensures r.Err? ==> r.error.line < |Lines(content)|
    ensures content == [] ==> r == Ok(map[])
  {
    var r := ParseLines(Lines(content));
    assert r.Ok? ==> forall t :: t in r.value ==> IsToken(t) by {
      if r.Ok? {
        ParseLinesKeys(Lines(content));
        forall t | t in r.value ensures IsToken(t) {
          var i :| 0 <= i < |Lines(content)| && Defines(Lines(content)[i], t);
          ParseLineSpec(Lines(content)[i]);
        }
      }
    }
    r
  }
}
