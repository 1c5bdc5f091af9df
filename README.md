# 123-spellcheck annotation pipeline, modelled in Dafny

The program reads an email whose body holds an HTML table of questions and
answers. It prints an HTML document with one section per table row: the
question as a heading, and the answer as a paragraph in which every word the
spell checker (aspell, `en_GB`) objects to is wrapped in `<mark>…</mark>`.
Before marking, the answer's blank lines are "squished": the answer is split
with `lines()`, lines of length zero are dropped, and the rest are joined
with `"\n\n"`. The squished text is split with `lines()` again. Each line is
split with `split_whitespace()`, and every word is checked and marked on
its own. The words are joined with single spaces and the lines with
`"<br>\n"`.

The model has six modules:

- `Seqs` (seqs.dfy): flattening (`Concat`), the `take_while` count
  (`LeadingCount`) and associativity of concatenation.
- `RustStr` (rust_str.dfy): the Rust string operations the pipeline uses.
  These are `split` on one character, `str::lines`, `split_whitespace` over
  the Unicode White_Space set, and `join`. Each comes with round-trip
  lemmas.
- `Annotate` (annotate.dfy): the squish and the per-word and per-line
  marking. These are pure functions of the answer and of a `Checker`, the
  checker's reply to each word. Each `check` either returns a list of
  errors or fails, and a failure abandons the marking (the source's
  `expect`). `Consulted` lists the words the checker is asked about before
  the first failure.
- `Render` (render.dfy): the printed document. It consists of the header,
  one section line per row, and the closing line. `Report` gives the whole
  transcript and how the run ends: normally, or stopped by a missing
  question cell, a missing answer cell or a failed check. A stopped run
  keeps what was already printed. `RowOutcome` models the loop body for
  one row (src/main.rs:64-92): a section line, or the reason the run
  stops. Its behaviour is stated by `SectionsAre`, `ReportStatus` and
  `SingleRowReport`.
- `Driver` (driver.dfy): the imperative main loop. `Speller` is the checker
  process. It holds its replies and a ghost log of every word it was asked
  about, which its `Check` method appends to. The log exists only for the
  proofs: the real process keeps none. `MarkLineWith`,
  `MarkLinesWith`, `MarkAnswerWith` and `Run` are loops that call `Check`
  one word at a time and build the output. Each is proved equal to the
  pure function it implements. Each also proves which words the checker
  was asked about. The loop steps use helper lemmas that unfold one step
  of a definition written from the back: `MarkWordsSnoc`, `MarkLinesSnoc`,
  `SectionsStep` and `RowWordsSnoc`.
- `Scenarios` (scenarios.dfy): one answer, `"teh  cat\n\n\nok"`, taken
  through every stage. The checker flags `teh` in one scenario and fails
  every check in another. The module also works out the documents printed
  for a one-row table and for a table whose second row has no answer cell.

## Model

| member | source | states |
|---|---|---|
| RustStr.Join | src/main.rs:73-90 | `join(sep)`: the parts in order with `sep` between neighbours, used with `"\n\n"` (line 73), `" "` (line 89) and `"<br>\n"` (line 90); see `JoinSplit`, `SplitJoin`, `WordsOfJoin` |
| RustStr.Split | src/main.rs:70-75 | splitting on one character, the step inside `lines()`: at least one piece, none holding the separator; see `JoinSplit`, `SplitJoin` |
| RustStr.StripCR | src/main.rs:70-75 | the one trailing carriage return `lines()` removes from each line; see `LinesOfJoin`, `SquishedLines` |
| RustStr.JoinSplit | src/main.rs:70-73 | splitting on a character and joining with it again gives back the text |
| RustStr.SplitJoin | src/main.rs:70-73 | joining separator-free pieces and splitting again gives back the pieces |
| RustStr.Lines | src/main.rs:70 | no line produced by `lines()` contains a newline |
| RustStr.LinesRoundTrip | src/main.rs:70 | for text without carriage returns, the lines joined by newlines, plus the final newline when the text has one, give back the text |
| RustStr.LinesOfJoin | src/main.rs:73-75 | `lines()` of newline-free parts joined by newlines, whose last part is non-empty, is those parts with one trailing carriage return removed from each |
| RustStr.Words | src/main.rs:79 | `split_whitespace()`: the maximal runs of non-whitespace, in order; see `WordsAreWords`, `WordsKeepText`, `WordsEmptyIff`, `WordsOfWord`, `WordsSplitAt` |
| RustStr.WordLength | src/main.rs:79 | the run of non-whitespace at the start of a text: every character before it is non-whitespace, and the one at it is whitespace |
| RustStr.WordsAreWords | src/main.rs:79 | every piece `split_whitespace` yields is non-empty and free of whitespace |
| RustStr.WordsKeepText | src/main.rs:79 | the words laid end to end are exactly the text's non-whitespace characters in order |
| RustStr.WordsEmptyIff | src/main.rs:79 | a text has no words exactly when it is all whitespace |
| RustStr.WordsOfJoin | src/main.rs:79-89 | words joined by single spaces split back into the same words |
| RustStr.WordsOfWord | src/main.rs:79 | a text that is one run of non-whitespace is read as that single word |
| RustStr.WordsSplitAt | src/main.rs:79 | at any whitespace character the words split into the words before it and the words after it. With `WordsOfWord` and no words for the empty text, this fixes the words of every text as its maximal non-whitespace runs |
| Seqs.LeadingCount | src/main.rs:63-67 | the number of leading rows that pass: all before it pass and the one at it fails |
| Seqs.LeadingCountUnique | src/main.rs:63-67 | that number is the only index with this property |
| Annotate.Consulted | src/main.rs:81 | the words the checker is asked about, up to and including the first failed check; see `ConsultedPrefix`, `ConsultedAll`, `ConsultedUpTo` |
| Annotate.ConsultedPrefix | src/main.rs:81 | the checker is asked about a prefix of the words. It is asked about all of them when it answers all of them. Otherwise it is asked exactly up to and including the first word whose check fails |
| Annotate.ConsultedAll | src/main.rs:81 | when every check succeeds, every word is asked about |
| Annotate.ConsultedAfterAnswered | src/main.rs:79-81 | words that were all answered do not stop the questioning of later words |
| Annotate.ConsultedStopsAtFailure | src/main.rs:79-81 | after a failed check no later word is asked about |
| Annotate.ConsultedUpTo | src/main.rs:79-81 | when the first i words are answered and word i fails, exactly the first i+1 words are asked about |
| Annotate.AllAnsweredAppend | src/main.rs:79-81 | every word of a concatenation is answered exactly when every word of both halves is |
| Annotate.Squish | src/main.rs:70-73 | the `lines()` of the answer, less the empty ones, joined by `"\n\n"`; see `NonEmptyLinesSpec`, `JoinDoubleNewline`, `SquishedLines` |
| Annotate.NonEmptyLines | src/main.rs:71 | the filter keeps only lines of non-zero length |
| Annotate.NonEmptyLinesSpec | src/main.rs:70-72 | the filter keeps every non-empty line, in order: as many lines as there are non-empty ones, each at its rank among them |
| Annotate.NonEmptyLinesFrom | src/main.rs:71 | every kept line is an input line |
| Annotate.InterleaveAt | src/main.rs:73-75 | the interleaving has 2k-1 entries, kept lines at even positions and empty lines at odd ones |
| Annotate.JoinDoubleNewline | src/main.rs:73 | joining with `"\n\n"` equals joining the interleaving with `"\n"` |
| Annotate.SquishedLines | src/main.rs:70-75 | re-splitting the squished answer gives 2k-1 lines for k kept lines (none when k = 0). Even positions hold the kept lines, with a trailing carriage return stripped a second time. Odd positions hold empty lines |
| Annotate.MarkWord | src/main.rs:83-87 | a word with no errors as it is, any other word between `<mark>` and `</mark>`; see `MarkWordsSpec`, `UnmarkMarked` |
| Annotate.MarkLine | src/main.rs:79-89 | a line's words, each checked and marked, joined by single spaces, or the failure of the first failed check; see `MarkWords`, `BlankLineMarksEmpty`, `UnmarkLine` |
| Annotate.MarkWords | src/main.rs:79-89 | marking the words of a line succeeds exactly when every check succeeds, and then yields one entry per word |
| Annotate.MarkWordsSpec | src/main.rs:81-87 | each entry is the word itself when the checker reported no errors, and `<mark>` + word + `</mark>` otherwise |
| Annotate.BlankLineMarksEmpty | src/main.rs:75-89 | an all-whitespace line asks the checker about nothing and marks to the empty string. A line with a word never marks to the empty string |
| Annotate.UnmarkPlain | src/main.rs:86 | text without `<` is untouched by removing the highlight tags |
| Annotate.UnmarkMarked | src/main.rs:86 | a highlighted word loses exactly its tags when unmarked |
| Annotate.UnmarkJoin | src/main.rs:83-89 | words that are plain or highlighted, joined by spaces, unmark to the plain words joined by spaces |
| Annotate.UnmarkLine | src/main.rs:79-89 | removing the tags from a marked line (one without `<`) gives its words joined by single spaces. Marking adds, drops and reorders no word, and only the spacing is lost |
| Annotate.WordInText | src/main.rs:79 | every character of a word occurs in its line |
| Annotate.LineWordsAround | src/main.rs:75-90 | the answer's words are those before line i, then line i's, then those after it |
| Annotate.MarkLines | src/main.rs:75-90 | marking the lines succeeds exactly when every word of every line is answered, and then yields one entry per line |
| Annotate.MarkLinesSpec | src/main.rs:75-90 | each line's entry is what marking that line alone gives |
| Annotate.MarkLinesStopAt | src/main.rs:75-90 | when line i is the first whose marking fails, the whole marking fails. The checker is asked about every word before that line, then about that line's words up to and including the failing one |
| Annotate.MarkAnswer | src/main.rs:75-90 | the squished answer re-split by `lines()`, each line marked, joined by `"<br>\n"`, or a failure when any check fails; see `MarkLines`, `MarkLinesSpec`, `MarkedAnswerShape`, `MarkedAnswerAnswered` |
| Annotate.MarkedAnswerShape | src/main.rs:69-90 | a marked answer with k kept lines has 2k-1 marked lines (none and the empty text when k = 0). Even ones are the kept lines marked, odd ones are empty |
| Render.Section | src/main.rs:92 | one row's printed section: the question as the `<h1>` heading and the marked answer as the `<p>` paragraph; see `SectionsAre`, `SingleRowReport` |
| Render.Report | src/main.rs:61-94 | the whole run: the header, then each row's section in order, then the closing line, or the stop at the first row lacking a cell or failing a check with what was printed before it; see `ReportUpTo`, `ReportStatus`, `PrintUpTo`, `Driver.Run` |
| Render.SectionsAre | src/main.rs:63-92 | when every row produces a section, the printed sections are, row by row in order, the question cell as a heading and the marked answer cell as a paragraph, each followed by a newline |
| Render.PrintedLinesAppend | src/main.rs:92 | section lines are printed in row order |
| Render.PrintAppend | src/main.rs:63-94 | rows that all print sections put those sections ahead of whatever the later rows print, and the later rows decide how the run ends |
| Render.PrintUpTo | src/main.rs:63-94 | the output is the sections before the first stopping row, followed by the closing line only when no row stops the run |
| Render.ReportUpTo | src/main.rs:60-94 | given that rows before n print sections and row n does not, the transcript is exactly the header, those sections, and then the closing line (normal end) or nothing more (stopped for row n's reason) |
| Render.ReportUpToFirstFailure | src/main.rs:60-94 | the same at the first row that does not produce a section |
| Render.ReportStatus | src/main.rs:63-81 | the run ends normally exactly when every row produces a section. It stops for a missing question, a missing answer or a failed check exactly when the first failing row has zero, one, or at least two cells |
| Render.SingleRowReport | src/main.rs:61-94 | the exact text printed for a one-row table, in both outcomes |
| Render.ShortRowAborts | src/main.rs:66-67 | a row lacking a cell stops the run at or before it, without the closing line |
| Render.AbortedRunIsUnfinished | src/main.rs:63-94 | a stopped run has printed exactly what the run over the rows before the failing one prints, less the closing line |
| Render.ExtraCellsIgnored | src/main.rs:64-67 | cells after the second never change the output |
| Render.ExtraCellsNotConsulted | src/main.rs:64-67 | cells after the second are never shown to the checker |
| Render.MarkedAnswerAnswered | src/main.rs:75-90 | an answer is marked exactly when the checker answered every one of its words |
| Render.OkRowsAnswered | src/main.rs:81 | rows that all produce sections had all their words answered |
| Render.RowWordsAround | src/main.rs:63 | the table's words are those before row i, then row i's, then those after it |
| Render.CompletedRunConsultsEveryWord | src/main.rs:63-90 | in a run that ends normally, the checker is asked about every word of every answer once, in order |
| Render.AbortedRunConsults | src/main.rs:63-90 | in a run that stops at row i, the checker is asked about every word of the earlier rows. If row i has both cells, it is then asked about row i's words up to and including the failing one. No other word is asked about |
| Driver.Speller.constructor | src/main.rs:23-27 | a fresh checker process with the given replies has been asked about nothing |
| Driver.Speller.Check | src/main.rs:81 | one `check` returns the checker's reply to the word and logs the word |
| Driver.MarkLineWith | src/main.rs:76-89 | the loop over a line's words returns exactly `MarkLine`. The checker's log grows by exactly the words `Consulted` lists |
| Driver.MarkLinesWith | src/main.rs:75-90 | the loop over lines returns exactly `MarkLines`. The log grows by the lines' words up to the first failure |
| Driver.MarkAnswerWith | src/main.rs:75-90 | the marked answer is exactly `MarkAnswer`. The log grows by the answer's words up to the first failure |
| Driver.Run | src/main.rs:61-94 | the printed text and the way the run ends are exactly `Report` of the rows. The log grows by exactly `RunConsulted` |
| Scenarios.LinesExample | src/main.rs:70 | `lines()` of `"teh  cat\n\n\nok"` is the first line, two empty lines and the last line |
| Scenarios.NonEmptyLinesExample | src/main.rs:71-72 | the squish's filter drops both empty lines and keeps the other two in order |
| Scenarios.SpaceLineKeptExample | src/main.rs:70-72 | a line holding only a space is kept by the filter, between its neighbours |
| Scenarios.AnswerLinesOfTwo | src/main.rs:70-75 | an answer with two kept lines is re-split into those two lines around one empty line |
| Scenarios.AnswerLinesExample | src/main.rs:70-75 | the example answer, squished and re-split, is `"teh  cat"`, an empty line and `"ok"` |
| Scenarios.PaddedWordExample | src/main.rs:79 | leading spaces yield no word |
| Scenarios.WordsExample | src/main.rs:79 | `"teh  cat"` splits into `teh` and `cat`, and the double space is lost |
| Scenarios.AnswerWordsExample | src/main.rs:75-81 | the checker is asked about `teh`, `cat` and `ok`, in that order |
| Scenarios.MarkLineOfTwo | src/main.rs:79-89 | a line of two answered words becomes the two marked words around one space |
| Scenarios.MarkLineExample | src/main.rs:79-89 | with `teh` flagged, `"teh  cat"` becomes `<mark>teh</mark> cat` |
| Scenarios.MarkEmptyLineExample | src/main.rs:75-89 | an empty line becomes the empty string |
| Scenarios.MarkPlainLineExample | src/main.rs:79-89 | a line whose only word has no errors is unchanged |
| Scenarios.MarkAnswerOfThree | src/main.rs:75-90 | an answer re-split into three lines whose words are all answered becomes the three marked lines joined by `"<br>\n"` |
| Scenarios.MarkAnswerExample | src/main.rs:69-90 | the example answer becomes `<mark>teh</mark> cat<br>\n<br>\nok` |
| Scenarios.OneRowReport | src/main.rs:61-94 | a one-row table whose answer is marked prints the header, that row's section line and the closing line, and ends normally |
| Scenarios.AnswerlessSecondRowReport | src/main.rs:61-93 | when the second row lacks an answer cell, the first row's section is printed, then the run stops for the missing answer without the closing line |
| Scenarios.ReportExample | src/main.rs:61-94 | the document printed for a one-row table holding the example answer |
| Scenarios.PartialReportExample | src/main.rs:61-93 | the same row followed by a row with only a question prints the first section and stops for the missing answer |
| Scenarios.OfflineExample | src/main.rs:63-81 | when every check fails, only the header is printed. The run stops for the failed check after asking about `teh` alone |


## Left out

- Reading standard input and parsing the email (src/main.rs:18-21, 30) are
  outside the model.
- Parsing the HTML body into rows and cells is also outside it
  (src/main.rs:32, 63-67). The table is given as a sequence of rows, each a
  sequence of cell texts, already in document order and with `.text()`
  applied.
- Launching aspell and its `en_GB` dictionary (src/main.rs:23-27) are
  outside the model. The checker is a parameter: a function from a word to
  its reply (a list of errors, or a failure to talk to the process).
- `println!` writes to standard output, which is modelled as one growing
  string. Output buffering is not modelled.
- A panic (`expect` on a missing cell, `expect` on a failed check) is
  modelled as a run that stops with a reason. What was printed before the
  panic stays printed. The process exit status is not modelled.
- The header's stylesheet is copied verbatim as a constant. Nothing is
  proved about its contents.
- `str::lines` is modelled as in the Rust standard library before 1.77. It
  splits on `'\n'`, drops an empty piece after a final newline, and strips
  one trailing `'\r'` from every line. Later releases strip `'\r'` only
  before a `'\n'`.
- Character classes are modelled on Unicode scalar values, not UTF-8
  bytes. That matches what `split_whitespace` and `char::is_whitespace`
  see.
- Lines made only of spaces survive the squish: the code drops only lines
  of length zero (src/main.rs:71).
- A stopped run keeps the header and the sections printed before the
  failing row (src/main.rs:61, 92).
- The model does not cover HTML escaping of questions and words, trimming
  punctuation from words, allow or deny lists, special handling of
  particular questions, heading levels, or configuration. None of these
  exists in src/main.rs.
- Annotate.UnmarkLine: it is stated only for lines without `<`. Answer text
  is not escaped, so a line that already contains tag text cannot be told
  apart from the highlighting after marking.
- RustStr.LinesRoundTrip: it is stated only for text without `'\r'`,
  because `lines()` loses carriage returns at line ends.
