# Term-frequency counter and term-document matrix builder, in Dafny

This project models two small batch tools and proves properties about them.

- `term-frequency-counter.py` reads a text and tokenises it line by line with
  `line.strip().split()`. It counts each distinct token and prints one
  `"<word> <count>"` line per token, in sorted order.
- `tdm-generator.py` does the following:
  - It sorts the names in an input directory.
  - It parses each file as `"<term> <frequency>"` lines into a term-frequency map.
  - It takes the sorted union of all terms as the vocabulary.
  - It fills a dense `|terms| x |documents|` matrix, with 0 where a document lacks a term.
  - It formats `sorted_terms.txt`, `sorted_documents.txt` and `td_matrix.txt`.

The model uses pure functions over `seq`, `set` and `map`. `create_matrix` is a
method whose nested loops carry their invariants. The modules are:

- `Results` (results.dfy): `Option` and `Result`.
- `Text` (text.dfy): Python's whitespace set, `str.split()`, `str.strip()`,
  `" ".join`, and the reading and writing of text lines.
- `Order` (order.dfy): Python's order on `str`, which is lexicographic on code
  points. It also holds `sorted` of a set and of a list, and proofs that a
  sorted arrangement is unique.
- `Numerals` (numerals.dfy): `str(int)`, and `int(field)` for an optional
  sign followed by ASCII digits.
- `TermFrequencyParser` (parser.dfy): `read_term_frequencies`.
- `FrequencyCounter` (counter.dfy): `count_word` and `sort_and_print`.
- `TdmGenerator` (generator.dfy): `read_directory`, the vocabulary,
  `create_matrix`, `main` without its argument check, and the text formatting
  of `save_output`.
- `Pipeline` (pipeline.dfy): the counter's output read back by the builder's
  parser.

Conventions:

- A text file is its content as a `string`. Reading it line by line gives
  `Text.Lines`: each line keeps its `'\n'`, and the last line may lack one.
- Writing `x + '\n'` for each entry gives `Text.Unlines`.
- A directory is two things. `listing` is the names `os.listdir` returns, in
  its order. `dir` maps each name to that file's content.
- Where Python raises (`ValueError` from the unpacking or from `int`), the
  model returns an `Err` that names the line and the reason. One bad line fails
  the whole file, and one bad file fails the whole build.

Two consequences of the code are worth stating, because a reader of the
tools' output might expect otherwise:

- `read_term_frequencies` does not skip blank lines. A blank or
  whitespace-only line splits into zero fields, and the two-name unpacking at
  tdm-generator.py:30 raises `ValueError`. Iterating a file never yields an empty line, but it
  yields a blank one wherever a line holds only whitespace, such as the final
  "\n" of a file ending in "\n\n". One such line anywhere fails the file
  (`BlankLineFailsFile`).
- `int` at tdm-generator.py:31 accepts a leading `-`, and nothing checks the
  sign, so negative frequencies parse (`ParseLineOfEntry`).

## Model

| member | source | states |
|---|---|---|
| Text.Split | term-frequency-counter.py:19 | `str.split()` yields only non-empty, whitespace-free tokens |
| Text.SplitJoin | tdm-generator.py:87 | joining whitespace-free tokens with single spaces and splitting again gives the tokens back |
| Text.JoinSnoc | tdm-generator.py:87 | `" ".join` puts exactly one space before each further part |
| Text.JoinNoNewline | tdm-generator.py:87 | `" ".join` of parts without a newline has no newline |
| Text.SplitConcat | term-frequency-counter.py:16-19 | splitting a text at a whitespace boundary splits each part separately |
| Text.SplitAllWhitespace | term-frequency-counter.py:19 | a blank or whitespace-only string has no tokens |
| Text.SplitIgnoresStrip | term-frequency-counter.py:19 | `s.strip().split()` equals `s.split()` for every `s` |
| Text.Strip | tdm-generator.py:30 | `strip()` leaves neither leading nor trailing whitespace |
| Text.StripRemovesOuterWhitespace | tdm-generator.py:30 | `strip()` returns a contiguous piece of its input, and everything removed before and after it is whitespace |
| Text.StripStart | tdm-generator.py:30 | the left strip removes exactly a whitespace prefix and stops at a non-whitespace character |
| Text.StripEnd | tdm-generator.py:30 | the right strip removes exactly a whitespace suffix and stops at a non-whitespace character |
| Text.Lines | tdm-generator.py:29 | iterating a text file yields lines that concatenate back to the content; every line but the last ends in '\n' and none has a '\n' inside |
| Text.LinesUnlines | tdm-generator.py:71-80 | writing entries that contain no newline, one per line, and reading the lines back gives each entry followed by '\n', in order |
| Text.LinesUnlinesFirst | tdm-generator.py:83-88 | writing a first line and then further lines, none with a newline inside, reads back as exactly those lines, each followed by '\n' |
| Text.LineTokensSplit | term-frequency-counter.py:16-19 | tokenising a text line by line with `strip().split()` gives the same tokens as splitting the whole text |
| Order.SortSet | tdm-generator.py:111 | `sorted` of a set is strictly increasing and holds exactly the set's elements |
| Order.StrictlySortedUnique | tdm-generator.py:111 | two strictly increasing lists with the same elements are equal |
| Order.SortSeq | tdm-generator.py:14 | `sorted` of a list is non-decreasing and a permutation of the list |
| Order.SortedPermutationUnique | tdm-generator.py:14 | two sorted permutations of each other are equal |
| Order.LessEqTotal | tdm-generator.py:14 | any two strings are comparable in Python's string order |
| Order.LessEqAntisymmetric | tdm-generator.py:14 | strings that compare both ways are equal |
| Order.LessEqTransitive | tdm-generator.py:14 | the string order is transitive |
| Numerals.NatToString | tdm-generator.py:85 | `str(n)` is a non-empty digit string with no leading zero whose decimal value is `n` |
| Numerals.IntToString | tdm-generator.py:85-87 | `str(n)` is one whitespace-free token; for `n >= 0` it is digits whose decimal value is `n`, for `n < 0` it is '-' followed by the digits of `-n`; there is never a leading zero, except in `"0"` itself |
| Numerals.ParseInt | tdm-generator.py:31 | `int(field)` succeeds exactly on an optional sign followed by digits; the value is the digits' decimal value, negated when the field starts with '-' |
| Numerals.DigitsValueLeadingZero | tdm-generator.py:31 | a leading '0' does not change the value `int` reads from a digit string |
| Numerals.ParseIntOfIntToString | tdm-generator.py:31 | `int(str(n)) == n` for every integer, negative ones included |
| TermFrequencyParser.ParseFields | tdm-generator.py:30-31 | the two-name unpacking and `int` succeed exactly on two fields whose second is an integer literal, giving the first field and that integer; otherwise the error is the field count, or the field `int` rejects |
| TermFrequencyParser.ParseLineSpec | tdm-generator.py:30-31 | a line parses exactly when it has two fields and the second is an integer literal; the entry is the first field and that integer; any other field count reports that count |
| TermFrequencyParser.ParseLineStripped | tdm-generator.py:30 | parsing with the source's `strip()` before the split gives the same result |
| TermFrequencyParser.BlankLineRejected | tdm-generator.py:30 | a blank or whitespace-only line is rejected as having zero fields |
| TermFrequencyParser.BlankLineFailsFile | tdm-generator.py:29-30 | a file with a blank line anywhere fails, at that line or at an earlier one |
| TermFrequencyParser.ParseLineOfEntry | tdm-generator.py:30-31 | `"<term> <n>"` parses to `(term, n)` for every integer `n`, negative ones included |
| TermFrequencyParser.ParseLines | tdm-generator.py:29-31 | the file parses exactly when every line does; otherwise the error names the first bad line and its reason, and every earlier line parses |
| TermFrequencyParser.ParseLinesKeys | tdm-generator.py:29-31 | the keys of the parsed map are exactly the terms named by the lines |
| TermFrequencyParser.ParseLinesLastWins | tdm-generator.py:29-31 | each term maps to the frequency on the last line that names it |
| TermFrequencyParser.ParseTermFrequencies | tdm-generator.py:18-34 | every key of a parsed file is a whitespace-free token; an error names an existing line; an empty file gives the empty map |
| TdmGenerator.ReadDirectory | tdm-generator.py:13-15 | the document list is sorted and a permutation of the directory listing |
| TdmGenerator.ReadDirectoryUnique | tdm-generator.py:13-15 | every sorted permutation of the listing is the document list |
| TdmGenerator.TermUnion | tdm-generator.py:107-110 | the term set holds exactly the terms that are keys of some document |
| TdmGenerator.Vocabulary | tdm-generator.py:107-111 | the vocabulary is strictly increasing and holds exactly the terms of all documents |
| TdmGenerator.VocabularyUnique | tdm-generator.py:107-111 | every strictly increasing list of exactly the documents' terms is the vocabulary |
| TdmGenerator.CreateMatrix | tdm-generator.py:37-57 | the matrix has one row per term and one column per document; cell `[j][i]` is document `i`'s frequency of `terms[j]`, or 0 if the term is absent |
| TdmGenerator.MatrixCoversEntries | tdm-generator.py:48-55 | every entry of every document appears in the matrix, and every non-zero cell comes from such an entry |
| TdmGenerator.CollectDocuments | tdm-generator.py:108-109 | collecting succeeds exactly when every file parsed, and then holds each file's map in file order |
| TdmGenerator.CollectDocumentsFirstFailure | tdm-generator.py:108-109 | a failed collection reports the first file, in order, whose parse failed, with that file's error |
| TdmGenerator.FirstFailureIsLeast | tdm-generator.py:105-109 | with sorted files, every listed name below the failing file parses |
| TdmGenerator.DocumentTerms | tdm-generator.py:107-110 | the terms of the parsed documents are the terms of the listed files |
| TdmGenerator.FailedBuild | tdm-generator.py:105-109 | a failed build names a listed file that does not parse, and every smaller name parses |
| TdmGenerator.SucceededBuild | tdm-generator.py:105-109 | a successful build parsed every listed file into its own map |
| TdmGenerator.SucceededTdm | tdm-generator.py:105-113 | a successful build's vocabulary is the union of the files' terms, and its cells are the files' frequencies |
| TdmGenerator.BuildTdm | tdm-generator.py:105-113 | the build succeeds exactly when every listed file parses. Success gives the sorted documents, the vocabulary, and a dense matrix of their frequencies. Failure gives the least failing file and its error |
| TdmGenerator.SavedListsReadBack | tdm-generator.py:71-80 | the `sorted_terms.txt` and `sorted_documents.txt` that `SaveOutput` writes read back as the lists, one entry per line, in order |
| TdmGenerator.RowTextSnoc | tdm-generator.py:87 | a matrix row line is its first cell's numeral, then each further cell's numeral after exactly one space |
| TdmGenerator.RowTextReadBack | tdm-generator.py:87-88 | a matrix row line, with or without its '\n', has no newline inside, splits into one field per cell, and each field reads back as its cell |
| TdmGenerator.HeaderReadBack | tdm-generator.py:85 | the header line `str(rows) + " " + str(columns) + "\n"` splits into exactly the two numerals and has no newline before its end |
| TdmGenerator.MatrixTextLines | tdm-generator.py:83-88 | `td_matrix.txt` as `SaveOutput` writes it reads back as the header `str(len(terms)) + " " + str(len(files)) + "\n"` and then each row's text plus '\n', one line per row |
| TdmGenerator.MatrixTextReadBack | tdm-generator.py:83-88 | `td_matrix.txt` reads back as exactly the header `str(len(terms)) + " " + str(len(files))` and then the row texts, the cells of each separated by single spaces, every line ending in '\n'; the header splits into the two dimensions, and each row line into one field per document equal to its cell |
| FrequencyCounter.Tally | term-frequency-counter.py:21-25 | the counts hold exactly the tokens seen, each counted as often as it occurs |
| FrequencyCounter.CountWords | term-frequency-counter.py:14-26 | the keys are exactly the text's tokens; each is whitespace-free, counted at least once, and counted as often as it occurs |
| FrequencyCounter.CountsSumToTokens | term-frequency-counter.py:21-25 | the counts add up to the number of tokens in the input |
| FrequencyCounter.EmptyInput | term-frequency-counter.py:14-26 | empty or whitespace-only input gives no counts and prints nothing |
| FrequencyCounter.RecordLineFields | term-frequency-counter.py:38 | a printed line splits into the word and the count's numeral, and contains no newline |
| FrequencyCounter.ReportLineAt | term-frequency-counter.py:35-38 | line `i` is the `i`-th smallest word, one space, and its count, whose numeral reads back as the count |
| FrequencyCounter.ReportLinesAreRecords | term-frequency-counter.py:37-38 | every printed line is a word of the map, one space, and a numeral that reads back as that word's count |
| FrequencyCounter.ReportLinesSorted | term-frequency-counter.py:35-36 | the printed words strictly increase |
| FrequencyCounter.ReportLinesComplete | term-frequency-counter.py:35-38 | every word of the map has a printed line with its count |
| FrequencyCounter.ExampleCount | term-frequency-counter.py:14-38 | the text `"a b a c b a"` prints `a 3`, `b 2`, `c 1`, in that order |
| Pipeline.ParseLinesRestrict | tdm-generator.py:29-31 | lines that each parse to a listed word and its value build the map restricted to those words |
| Pipeline.ReportLineParses | tdm-generator.py:30-31 | a printed line with its '\n' parses to its word and count |
| Pipeline.ReportTextShape | term-frequency-counter.py:35-38 | the printed report reads back as one line per word, each line being the printed line plus '\n' |
| Pipeline.ReportRoundTrip | tdm-generator.py:18-34 | reading a report with `read_term_frequencies` gives back the printed map, whenever every key is a whitespace-free token |
| Pipeline.CounterFeedsGenerator | term-frequency-counter.py:35-38 | the counter's output read by the builder's parser gives exactly the counter's map |

Some functions only compute, and the lemmas named here state their
properties:

- `TdmGenerator.SaveOutput` (tdm-generator.py:71-88): `SavedListsReadBack`, `MatrixTextLines`, `MatrixTextReadBack`.
- `TdmGenerator.Frequency` (tdm-generator.py:54-55): `CreateMatrix`, `MatrixCoversEntries`.
- `FrequencyCounter.Report`, `ReportLines` and `RecordLine` (term-frequency-counter.py:35-38): `RecordLineFields`, `ReportLineAt`, `ReportLinesAreRecords`, `ReportLinesSorted`, `ReportLinesComplete`, `ReportTextShape`.
- `TermFrequencyParser.ParseLine` (tdm-generator.py:30-31): `ParseLineSpec`, `ParseLineStripped`.
- `Text.Join` (tdm-generator.py:87): `SplitJoin`, `JoinSnoc`, `JoinNoNewline`.
- `Text.Unlines` (tdm-generator.py:71-88): `LinesUnlines`, `LinesUnlinesFirst`.
- `Text.LineTokens` (term-frequency-counter.py:16-19): `LineTokensSplit`.
- `TdmGenerator.CellTexts` and `RowText` (tdm-generator.py:87): `RowTextSnoc`, `RowTextReadBack`.
- `TdmGenerator.ReadTermFrequencies` and `ReadAll` (tdm-generator.py:51 and :109): `CollectDocuments`, `SucceededBuild`.
- `Order.LessEq` (tdm-generator.py:14): `LessEqTotal`, `LessEqAntisymmetric`, `LessEqTransitive`.

## Left out

- File and stream I/O are not modelled: `os.listdir`, `open`/`close`,
  `os.path.join`, reading standard input and `print`. Contents and listings
  are parameters, and outputs are returned as strings.
- `os.makedirs`, and its failure when the output directory exists
  (tdm-generator.py:68), is an operating-system effect and is not modelled.
- The `sys.argv` check and `sys.exit(1)` (tdm-generator.py:99-100) are
  command-line handling and are not modelled.
- Directory entries that are not regular files are not modelled. Every listed
  name must have a content in `dir`, which is what `BuildTdm` requires.
- TdmGenerator.CreateMatrix: `create_matrix` opens and parses each file a
  second time (tdm-generator.py:51). The model passes in the maps parsed for
  the vocabulary, so it assumes the files do not change between the two reads.
- Numerals.ParseInt: accepts only an optional sign followed by ASCII digits.
  Python's `int` also accepts surrounding whitespace (which `split` has already
  removed), `_` between digits, and non-ASCII decimal digits.
  It also accepts digit strings of any length. CPython's `int` raises
  `ValueError` on a field of more than 4300 digits (the default of
  `sys.get_int_max_str_digits()`), so such a line fails the file in the
  source but parses in the model. `str` of such a value raises too, which
  `IntToString` does not model either.
- TdmGenerator.SavedListsReadBack: requires names and terms without a
  newline. Terms never contain one, because `split` removes them. A file name
  can contain '\n' on POSIX systems, and then `sorted_documents.txt` has more
  lines than there are documents. The lemma does not cover that case.
- Text.Lines: models reading after universal-newline translation. Files are
  assumed to use '\n' line ends, so '\r' and '\r\n' are not translated.
- Text.Whitespace: holds the characters Python's `str.isspace` accepts and
  `str.split()`/`str.strip()` use. Character classification of any other kind
  is not modelled.
- Order.LessEq: compares strings by code point. That is Python's `str`
  order; locale-aware collation plays no part in the source.
- TermFrequencyParser.ParseLine: applies `split` without the `strip()` in
  front of it. `ParseLineStripped` proves the two give the same result for
  every line.
