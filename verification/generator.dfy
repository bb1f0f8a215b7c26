/**
 The term-document matrix builder: sort the directory's file names, parse
 every file into a term-frequency map, take the sorted union of all terms as
 the vocabulary, fill a dense `|terms| x |files|` matrix (0 where a document
 lacks a term), and format the three output files.

 A directory is a `listing` (the names `os.listdir` returns, in whatever order
 it returns them) together with `dir`, the content of each file by name.
 */
module TdmGenerator {
  import opened Results
  import opened Text
  import opened Order
  import opened Numerals
  import opened TermFrequencyParser

  /** `read_directory`: the entries of the directory, `sorted`. */
  function ReadDirectory(listing: seq<string>): (files: seq<string>)
    ensures Sorted(files)
    ensures multiset(files) == multiset(listing)
  {
    SortSeq(listing)
  }

  /** Any sorted arrangement of the listing is the one `read_directory` returns. */
  lemma ReadDirectoryUnique(listing: seq<string>, files: seq<string>)
    requires Sorted(files) && multiset(files) == multiset(listing)
    ensures ReadDirectory(listing) == files
  {
    SortedPermutationUnique(ReadDirectory(listing), files);
  }

  // ---------------------------------------------------------------------------
  // Vocabulary
  // ---------------------------------------------------------------------------

  /** The set built at lines 107-110: every document's terms added with `update`. */
  function TermUnion(docs: seq<map<string, int>>): (r: set<string>)
    ensures forall t :: t in r <==> exists i :: 0 <= i < |docs| && t in docs[i]
    decreases |docs|
  {
    if docs == [] then {}
    else
      var n := |docs| - 1;
      var earlier := TermUnion(docs[..n]);
      assert forall i :: 0 <= i < n ==> docs[..n][i] == docs[i];
      earlier + docs[n].Keys
  }

  /** `sorted(terms)`: the vocabulary, every term of every document exactly once,
      in increasing order. */
  function Vocabulary(docs: seq<map<string, int>>): (terms: seq<string>)
    ensures StrictlySorted(terms)
    ensures forall t :: t in terms <==> exists i :: 0 <= i < |docs| && t in docs[i]
  {
    SortSet(TermUnion(docs))
  }

  /** Any strictly increasing list of exactly the documents' terms is the vocabulary. */
  lemma VocabularyUnique(docs: seq<map<string, int>>, terms: seq<string>)
    requires StrictlySorted(terms)
    requires forall t :: t in terms <==> exists i :: 0 <= i < |docs| && t in docs[i]
    ensures Vocabulary(docs) == terms
  {
    StrictlySortedUnique(Vocabulary(docs), terms);
  }

  // ---------------------------------------------------------------------------
  // create_matrix
  // ---------------------------------------------------------------------------

  /** The frequency of `term` in a document: its value if the term is a key, else 0. */
  function Frequency(doc: map<string, int>, term: string): int {
    if term in doc then doc[term] else 0
  }

  /** `matrix` has a row per term and a column per document, and cell `[j][i]`
      holds the frequency of `terms[j]` in `docs[i]`. */
  predicate IsTermDocumentMatrix(matrix: seq<seq<int>>, terms: seq<string>, docs: seq<map<string, int>>) {
    && |matrix| == |terms|
    && (forall j :: 0 <= j < |terms| ==> |matrix[j]| == |docs|)
    && (forall j, i :: 0 <= j < |terms| && 0 <= i < |docs| ==> matrix[j][i] == Frequency(docs[i], terms[j]))
  }

  /** Loop state of `create_matrix`: columns before `i`, and the first `j` rows
      of column `i`, hold their frequencies; every other cell is still 0. */
  predicate FilledUpTo(matrix: seq<seq<int>>, terms: seq<string>, docs: seq<map<string, int>>, i: int, j: int) {
    && |matrix| == |terms|
    && (forall k :: 0 <= k < |terms| ==> |matrix[k]| == |docs|)
    && (forall k, c {:trigger matrix[k][c]} :: 0 <= k < |terms| && 0 <= c < |docs| ==>
          matrix[k][c] == (if c < i || (c == i && k < j) then Frequency(docs[c], terms[k]) else 0))
  }

  /** `create_matrix`: start from all zeros, then for each document `i` and each
      term `j` present in it, set cell `[j][i]` to the term's frequency. The
      document maps are those parsed for the vocabulary, not read a second time. */
  method CreateMatrix(terms: seq<string>, docs: seq<map<string, int>>) returns (matrix: seq<seq<int>>)
    ensures |matrix| == |terms|
    ensures forall j :: 0 <= j < |terms| ==> |matrix[j]| == |docs|
    ensures forall j, i :: 0 <= j < |terms| && 0 <= i < |docs| ==> matrix[j][i] == Frequency(docs[i], terms[j])
  {
    matrix := seq(|terms|, _ => seq(|docs|, _ => 0));
    var i := 0;
    while i < |docs|
      invariant 0 <= i <= |docs|
      invariant FilledUpTo(matrix, terms, docs, i, 0)
    {
      var j := 0;
      while j < |terms|
        invariant 0 <= j <= |terms|
        invariant FilledUpTo(matrix, terms, docs, i, j)
      {
        ghost var before := matrix;
        if terms[j] in docs[i] {
          var row := matrix[j][i := docs[i][terms[j]]];
          matrix := matrix[j := row];
        }
        forall k, c | 0 <= k < |terms| && 0 <= c < |docs|
          ensures matrix[k][c] == (if c < i || (c == i && k < j + 1) then Frequency(docs[c], terms[k]) else 0)
        {
          if k != j || c != i {
            assert matrix[k][c] == before[k][c];
          }
        }
        j := j + 1;
      }
      assert FilledUpTo(matrix, terms, docs, i + 1, 0);
      i := i + 1;
    }
  }

  /** Every (term, frequency) entry of every document shows up in the matrix
      when the terms cover all documents, and a non-zero cell always comes
      from such an entry. */
  lemma MatrixCoversEntries(matrix: seq<seq<int>>, terms: seq<string>, docs: seq<map<string, int>>)
    requires IsTermDocumentMatrix(matrix, terms, docs)
    requires forall i, t :: 0 <= i < |docs| && t in docs[i] ==> t in terms
    ensures forall i, t :: 0 <= i < |docs| && t in docs[i] ==>
      exists j :: 0 <= j < |terms| && terms[j] == t && matrix[j][i] == docs[i][t]
    ensures forall j, i :: 0 <= j < |terms| && 0 <= i < |docs| && matrix[j][i] != 0 ==>
      terms[j] in docs[i] && docs[i][terms[j]] == matrix[j][i]
  {
    forall i, t | 0 <= i < |docs| && t in docs[i]
      ensures exists j :: 0 <= j < |terms| && terms[j] == t && matrix[j][i] == docs[i][t]
    {
      assert t in terms;
      var j :| 0 <= j < |terms| && terms[j] == t;
      assert matrix[j][i] == Frequency(docs[i], terms[j]);
    }
  }

  // ---------------------------------------------------------------------------
  // main: the whole build
  // ---------------------------------------------------------------------------

  /** The file that made the build fail and why its content did not parse. */
  datatype TdmError = MalformedDocument(file: string, error: ParseError)

  /** The three results of the build before formatting. */
  datatype Tdm = Tdm(documents: seq<string>, terms: seq<string>, matrix: seq<seq<int>>)

  /** `read_term_frequencies(os.path.join(input_dir, file))`. */
  function ReadTermFrequencies(dir: map<string, string>, file: string): Result<map<string, int>, ParseError>
    requires file in dir
  {
    ParseTermFrequencies(dir[file])
  }

  /** The outcome of reading and parsing each file, in `files` order. */
  function ReadAll(files: seq<string>, dir: map<string, string>): (r: seq<Result<map<string, int>, ParseError>>)
    requires forall i :: 0 <= i < |files| ==> files[i] in dir
    ensures |r| == |files|
    ensures forall i :: 0 <= i < |files| ==> r[i] == ReadTermFrequencies(dir, files[i])
  {
    seq(|files|, i requires 0 <= i < |files| => ReadTermFrequencies(dir, files[i]))
  }

  /** `files[k]` is the first of `files` whose outcome is an error. */
  predicate FirstFailure(outcomes: seq<Result<map<string, int>, ParseError>>, k: int) {
    && 0 <= k < |outcomes|
    && outcomes[k].Err?
    && forall i :: 0 <= i < k ==> outcomes[i].Ok?
  }

  /** The loop at lines 108-109 over the per-file outcomes, in `files` order:
      collect every parsed map, or stop at the first file that failed. */
  function CollectDocuments(files: seq<string>, outcomes: seq<Result<map<string, int>, ParseError>>): (r: Result<seq<map<string, int>>, TdmError>)
    requires |outcomes| == |files|
    ensures r.Ok? <==> forall i :: 0 <= i < |files| ==> outcomes[i].Ok?
    ensures r.Ok? ==> |r.value| == |files|
    ensures r.Ok? ==> forall i :: 0 <= i < |files| ==> r.value[i] == outcomes[i].value
    decreases |files|
  {
    if files == [] then Ok([])
    else
      var n := |files| - 1;
      var earlier := CollectDocuments(files[..n], outcomes[..n]);
      assert forall i :: 0 <= i < n ==> outcomes[..n][i] == outcomes[i];
      if earlier.Err? then Err(earlier.error)
      else if outcomes[n].Err? then Err(MalformedDocument(files[n], outcomes[n].error))
      else Ok(earlier.value + [outcomes[n].value])
  }

  /** A failed collection reports the first file, in `files` order, that did
      not parse, together with that file's own parse error. */
  lemma {:induction false} CollectDocumentsFirstFailure(files: seq<string>, outcomes: seq<Result<map<string, int>, ParseError>>)
    requires |outcomes| == |files|
    requires CollectDocuments(files, outcomes).Err?
    ensures exists k :: (FirstFailure(outcomes, k)
      && CollectDocuments(files, outcomes).error == MalformedDocument(files[k], outcomes[k].error))
  {
    var n := |files| - 1;
    assert forall i :: 0 <= i < n ==> outcomes[..n][i] == outcomes[i];
    if CollectDocuments(files[..n], outcomes[..n]).Err? {
      CollectDocumentsFirstFailure(files[..n], outcomes[..n]);
      var k :| FirstFailure(outcomes[..n], k)
        && CollectDocuments(files[..n], outcomes[..n]).error == MalformedDocument(files[..n][k], outcomes[..n][k].error);
      assert FirstFailure(outcomes, k);
    } else {
      assert FirstFailure(outcomes, n);
    }
  }

  /** With `files` sorted, the first file that fails is also the least failing
      name of the listing: every name before it parses. */
  lemma FirstFailureIsLeast(listing: seq<string>, dir: map<string, string>, files: seq<string>, k: int)
    requires forall f :: f in files <==> f in listing
    requires forall i :: 0 <= i < |files| ==> files[i] in dir
    requires Sorted(files)
    requires FirstFailure(ReadAll(files, dir), k)
    ensures forall f :: f in listing && Less(f, files[k]) ==> ReadTermFrequencies(dir, f).Ok?
  {
    var outcomes := ReadAll(files, dir);
    forall f | f in listing && Less(f, files[k])
      ensures ReadTermFrequencies(dir, f).Ok?
    {
      assert f in files;
      var i :| 0 <= i < |files| && files[i] == f;
      if k <= i {
        if k < i {
          assert LessEq(files[k], files[i]);
        } else {
          LessEqReflexive(f);
        }
        LessEqAntisymmetric(f, files[k]);
      }
      assert outcomes[i] == ReadTermFrequencies(dir, f);
    }
  }

  /** The terms of the parsed documents are the terms of the listed files. */
  lemma DocumentTerms(listing: seq<string>, dir: map<string, string>, files: seq<string>, docs: seq<map<string, int>>)
    requires forall f :: f in files <==> f in listing
    requires forall i :: 0 <= i < |files| ==> files[i] in dir
    requires |docs| == |files|
    requires forall i :: 0 <= i < |files| ==>
      ReadTermFrequencies(dir, files[i]).Ok? && docs[i] == ReadTermFrequencies(dir, files[i]).value
    ensures forall t :: t in TermUnion(docs) <==>
      exists f :: f in listing && ReadTermFrequencies(dir, f).Ok? && t in ReadTermFrequencies(dir, f).value
  {
    forall t | t in TermUnion(docs)
      ensures exists f :: f in listing && ReadTermFrequencies(dir, f).Ok? && t in ReadTermFrequencies(dir, f).value
    {
      var i :| 0 <= i < |docs| && t in docs[i];
      assert files[i] in files;
    }
    forall t, f | f in listing && ReadTermFrequencies(dir, f).Ok? && t in ReadTermFrequencies(dir, f).value
      ensures t in TermUnion(docs)
    {
      assert f in files;
      var i :| 0 <= i < |files| && files[i] == f;
      assert t in docs[i];
    }
  }

  /** The entries of a sorted listing are the listed names, each in `dir`. */
  lemma SortedListingMembers(listing: seq<string>, dir: map<string, string>, files: seq<string>)
    requires forall i :: 0 <= i < |listing| ==> listing[i] in dir
    requires multiset(files) == multiset(listing)
    ensures forall f :: f in files <==> f in listing
    ensures forall i :: 0 <= i < |files| ==> files[i] in dir
  {
    forall f ensures f in files <==> f in listing {
      assert f in files <==> f in multiset(files);
      assert f in listing <==> f in multiset(listing);
    }
    forall i | 0 <= i < |files| ensures files[i] in dir {
      assert files[i] in files;
    }
  }

  /** A failed build names a listed file that does not parse, and every listed
      name before it parses. */
  lemma FailedBuild(listing: seq<string>, dir: map<string, string>, files: seq<string>)
    requires forall f :: f in files <==> f in listing
    requires forall i :: 0 <= i < |files| ==> files[i] in dir
    requires Sorted(files)
    requires CollectDocuments(files, ReadAll(files, dir)).Err?
    ensures var e := CollectDocuments(files, ReadAll(files, dir)).error;
      && e.file in listing
      && ReadTermFrequencies(dir, e.file) == Err(e.error)
      && forall f :: f in listing && Less(f, e.file) ==> ReadTermFrequencies(dir, f).Ok?
  {
    var outcomes := ReadAll(files, dir);
    CollectDocumentsFirstFailure(files, outcomes);
    var k :| FirstFailure(outcomes, k)
      && CollectDocuments(files, outcomes).error == MalformedDocument(files[k], outcomes[k].error);
    FirstFailureIsLeast(listing, dir, files, k);
    assert files[k] in files;
  }

  /** A successful build parsed every listed file, each into its own map. */
  lemma SucceededBuild(listing: seq<string>, dir: map<string, string>, files: seq<string>)
    requires forall f :: f in files <==> f in listing
    requires forall i :: 0 <= i < |files| ==> files[i] in dir
    requires CollectDocuments(files, ReadAll(files, dir)).Ok?
    ensures forall f :: f in listing ==> ReadTermFrequencies(dir, f).Ok?
    ensures var docs := CollectDocuments(files, ReadAll(files, dir)).value;
      && |docs| == |files|
      && forall i :: 0 <= i < |files| ==>
           ReadTermFrequencies(dir, files[i]).Ok? && docs[i] == ReadTermFrequencies(dir, files[i]).value
  {
    forall f | f in listing ensures ReadTermFrequencies(dir, f).Ok? {
      assert f in files;
    }
  }

  /** What a successful build returns: the sorted listing, the vocabulary of
      every listed file and the cells of each file's map. */
  lemma SucceededTdm(listing: seq<string>, dir: map<string, string>, files: seq<string>,
                     docs: seq<map<string, int>>, terms: seq<string>, matrix: seq<seq<int>>)
    requires forall f :: f in files <==> f in listing
    requires forall i :: 0 <= i < |files| ==> files[i] in dir
    requires CollectDocuments(files, ReadAll(files, dir)) == Ok(docs)
    requires terms == Vocabulary(docs)
    requires |matrix| == |terms|
    requires forall j :: 0 <= j < |terms| ==> |matrix[j]| == |docs|
    requires forall j, i :: 0 <= j < |terms| && 0 <= i < |docs| ==> matrix[j][i] == Frequency(docs[i], terms[j])
    ensures forall f :: f in listing ==> ReadTermFrequencies(dir, f).Ok?
    ensures forall t :: t in terms <==>
      exists f :: f in listing && ReadTermFrequencies(dir, f).Ok? && t in ReadTermFrequencies(dir, f).value
    ensures forall j :: 0 <= j < |terms| ==> |matrix[j]| == |files|
    ensures forall i :: 0 <= i < |files| ==>
      && ReadTermFrequencies(dir, files[i]).Ok?
      && forall j :: 0 <= j < |terms| ==>
           matrix[j][i] == Frequency(ReadTermFrequencies(dir, files[i]).value, terms[j])
  {
    SucceededBuild(listing, dir, files);
    DocumentTerms(listing, dir, files, docs);
  }

  /** `main` without the argument check and the output step: sorted documents,
      the vocabulary and the matrix, or the error of the first document (in
      sorted order) that does not parse. */
  method BuildTdm(listing: seq<string>, dir: map<string, string>) returns (r: Result<Tdm, TdmError>)
    requires forall i :: 0 <= i < |listing| ==> listing[i] in dir
    ensures r.Ok? <==> forall f :: f in listing ==> ReadTermFrequencies(dir, f).Ok?
    ensures r.Err? ==>
      && r.error.file in listing
      && ReadTermFrequencies(dir, r.error.file) == Err(r.error.error)
      && forall f :: f in listing && Less(f, r.error.file) ==> ReadTermFrequencies(dir, f).Ok?
    ensures r.Ok? ==> Sorted(r.value.documents) && multiset(r.value.documents) == multiset(listing)
    ensures r.Ok? ==> StrictlySorted(r.value.terms)
    ensures r.Ok? ==> forall t :: t in r.value.terms <==>
      exists f :: f in listing && ReadTermFrequencies(dir, f).Ok? && t in ReadTermFrequencies(dir, f).value
    ensures r.Ok? ==> |r.value.matrix| == |r.value.terms|
    ensures r.Ok? ==> forall j :: 0 <= j < |r.value.terms| ==> |r.value.matrix[j]| == |r.value.documents|
    ensures r.Ok? ==> forall i :: 0 <= i < |r.value.documents| ==>
      && r.value.documents[i] in dir
      && ReadTermFrequencies(dir, r.value.documents[i]).Ok?
      && forall j :: 0 <= j < |r.value.terms| ==>
           r.value.matrix[j][i] == Frequency(ReadTermFrequencies(dir, r.value.documents[i]).value, r.value.terms[j])
  {
    var files := ReadDirectory(listing);
    SortedListingMembers(listing, dir, files);
    var parsed := CollectDocuments(files, ReadAll(files, dir));
    if parsed.Err? {
      FailedBuild(listing, dir, files);
      return Err(parsed.error);
    }
    var docs := parsed.value;
    var terms := Vocabulary(docs);
    var matrix := CreateMatrix(terms, docs);
    SucceededTdm(listing, dir, files, docs, terms, matrix);
    return Ok(Tdm(files, terms, matrix));
  }

  // ---------------------------------------------------------------------------
  // save_output
  // ---------------------------------------------------------------------------

  /** The three files `save_output` writes. */
  datatype Artefacts = Artefacts(sortedTerms: string, sortedDocuments: string, tdMatrix: string)

  /** `str` of every cell of a row. */
  function CellTexts(row: seq<int>): (r: seq<string>)
    ensures |r| == |row|
  {
    seq(|row|, i requires 0 <= i < |row| => IntToString(row[i]))
  }

  /** One matrix line without its '\n': `" ".join(map(str, row))`. */
  function RowText(row: seq<int>): string {
    Join(CellTexts(row))
  }

  /** The lines of `td_matrix.txt` without their '\n': the dimension header,
      then one line per row. */
  function MatrixLines(terms: seq<string>, files: seq<string>, matrix: seq<seq<int>>): (r: seq<string>)
    ensures |r| == |matrix| + 1
  {
    [IntToString(|terms|) + " " + IntToString(|files|)] + RowTexts(matrix)
  }

  /** The text of every row, in order. */
  function RowTexts(matrix: seq<seq<int>>): (r: seq<string>)
    ensures |r| == |matrix|
    ensures forall j :: 0 <= j < |matrix| ==> r[j] == RowText(matrix[j])
  {
    seq(|matrix|, j requires 0 <= j < |matrix| => RowText(matrix[j]))
  }

  /** `save_output` without the directory creation: the content of
      `sorted_terms.txt`, `sorted_documents.txt` and `td_matrix.txt`. */
  function SaveOutput(files: seq<string>, terms: seq<string>, matrix: seq<seq<int>>): Artefacts {
    Artefacts(Unlines(terms), Unlines(files), Unlines(MatrixLines(terms, files, matrix)))
  }

  /** Reading `sorted_terms.txt` or `sorted_documents.txt` back line by line gives
      the list in order, one entry per line. */
  lemma SavedListsReadBack(files: seq<string>, terms: seq<string>, matrix: seq<seq<int>>)
    requires forall i :: 0 <= i < |files| ==> NoNewline(files[i])
    requires forall j :: 0 <= j < |terms| ==> NoNewline(terms[j])
    ensures var out := SaveOutput(files, terms, matrix);
      && |Lines(out.sortedTerms)| == |terms|
      && (forall j :: 0 <= j < |terms| ==> Lines(out.sortedTerms)[j] == terms[j] + "\n")
      && |Lines(out.sortedDocuments)| == |files|
      && (forall i :: 0 <= i < |files| ==> Lines(out.sortedDocuments)[i] == files[i] + "\n")
  {
    LinesUnlines(terms);
    LinesUnlines(files);
  }

  /** `line` splits into one field per cell of `row`, each reading back as that cell. */
  predicate ReadsBackAs(line: string, row: seq<int>) {
    && |Split(line)| == |row|
    && forall i :: 0 <= i < |row| ==> ParseInt(Split(line)[i]) == Some(row[i])
  }

  /** A row line is the text of its first cell, then every further cell after
      exactly one space. */
  lemma RowTextSnoc(row: seq<int>, x: int)
    ensures RowText([x]) == IntToString(x)
    ensures row != [] ==> RowText(row + [x]) == RowText(row) + " " + IntToString(x)
  {
    if row != [] {
      assert CellTexts(row + [x]) == CellTexts(row) + [IntToString(x)];
      JoinSnoc(CellTexts(row), IntToString(x));
    }
  }

  /** A row line splits into one field per cell, each reading back as the cell. */
  lemma RowTextReadBack(row: seq<int>)
    ensures ReadsBackAs(RowText(row), row)
    ensures ReadsBackAs(RowText(row) + "\n", row)
    ensures NoNewline(RowText(row))
  {
    var cells := CellTexts(row);
    SplitJoin(cells);
    JoinNoNewline(cells);
    SplitConcat(RowText(row), "\n");
    SplitAllWhitespace("\n");
    forall i | 0 <= i < |row| ensures ParseInt(cells[i]) == Some(row[i]) {
      ParseIntOfIntToString(row[i]);
    }
  }

  /** The header line splits into the two dimensions. */
  lemma HeaderReadBack(rows: int, columns: int)
    ensures Split(IntToString(rows) + " " + IntToString(columns) + "\n") == [IntToString(rows), IntToString(columns)]
    ensures NoNewline(IntToString(rows) + " " + IntToString(columns))
  {
    var dims := [IntToString(rows), IntToString(columns)];
    var header := IntToString(rows) + " " + IntToString(columns);
    assert header == Join(dims);
    JoinNoNewline(dims);
    SplitJoin(dims);
    SplitConcat(header, "\n");
    SplitAllWhitespace("\n");
  }

  /** `td_matrix.txt` read back line by line: the header with the two dimensions
      separated by one space, then the text of each row, each line ending in '\n'. */
  lemma MatrixTextLines(files: seq<string>, terms: seq<string>, matrix: seq<seq<int>>)
    ensures var ls := Lines(SaveOutput(files, terms, matrix).tdMatrix);
      && |ls| == |matrix| + 1
      && ls[0] == IntToString(|terms|) + " " + IntToString(|files|) + "\n"
      && (forall k :: 1 <= k < |ls| ==> ls[k] == RowText(matrix[k - 1]) + "\n")
  {
    var header := IntToString(|terms|) + " " + IntToString(|files|);
    var rows := RowTexts(matrix);
    assert MatrixLines(terms, files, matrix) == [header] + rows;
    HeaderReadBack(|terms|, |files|);
    forall j | 0 <= j < |rows| ensures NoNewline(rows[j]) {
      JoinNoNewline(CellTexts(matrix[j]));
    }
    LinesUnlinesFirst(header, rows);
    var ls := Lines(SaveOutput(files, terms, matrix).tdMatrix);
  }

  /** `td_matrix.txt` read back: a header line with the two dimensions, then one
      line per term holding one integer field per document, each equal to its
      cell, the fields separated by single spaces; every line ends with '\n'. */
  lemma MatrixTextReadBack(files: seq<string>, terms: seq<string>, matrix: seq<seq<int>>)
    requires |matrix| == |terms|
    requires forall j :: 0 <= j < |terms| ==> |matrix[j]| == |files|
    ensures var ls := Lines(SaveOutput(files, terms, matrix).tdMatrix);
      && |ls| == |terms| + 1
      && ls[0] == IntToString(|terms|) + " " + IntToString(|files|) + "\n"
      && (forall k :: 1 <= k < |ls| ==> ls[k] == RowText(matrix[k - 1]) + "\n")
      && (forall k :: 0 <= k < |ls| ==> EndsWithNewline(ls[k]))
      && Split(ls[0]) == [IntToString(|terms|), IntToString(|files|)]
      && (forall k :: 1 <= k < |ls| ==> |Split(ls[k])| == |files| && ReadsBackAs(ls[k], matrix[k - 1]))
  {
    MatrixTextLines(files, terms, matrix);
    var ls := Lines(SaveOutput(files, terms, matrix).tdMatrix);
    HeaderReadBack(|terms|, |files|);
    forall k | 1 <= k < |ls| ensures |Split(ls[k])| == |files| && ReadsBackAs(ls[k], matrix[k - 1]) {
      RowTextReadBack(matrix[k - 1]);
    }
  }
}
