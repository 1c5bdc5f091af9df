/** The document src/main.rs prints: a fixed header, one section per table
    row in document order, and a closing line; and what ends up printed when
    a row lacks a cell or the spell checker fails part-way. */
module Render {
  import opened Seqs
  import opened Annotate

  /** The fixed page header with its print-friendly stylesheet. */
  const Header: string :=
      "<html>\n"
    + "  <head>\n"
    + "    <meta charset='UTF-8'>\n"
    + "    <style>\n"
    + "      body {\n"
    + "        line-height: 1.3;\n"
    + "        font: Georgia, 'Times New Roman', Times, serif;\n"
    + "      }\n"
    + "\n"
    + "      mark {\n"
    + "        background-color: purple;\n"
    + "        color: white;\n"
    + "      }\n"
    + "\n"
    + "      @media print {\n"
    + "        mark {\n"
    + "          text-decoration: underline;\n"
    + "        }\n"
    + "      }\n"
    + "\n"
    + "      @page {\n"
    + "        margin: 2cm;\n"
    + "      }\n"
    + "    </style>\n"
    + "  </head>\n"
    + "  <body>\n"

  /** What is printed before any row: the header and the newline `println!` adds. */
  const Prolog: string := Header + "\n"

  /** What is printed after the last row. */
  const Epilog: string := "</body></html>\n"

  /** One row's section: the question as a top-level heading and the marked
      answer as a paragraph, both inserted without escaping. */
  function Section(question: string, body: string): string
  {
    "<section>\n<h1>" + question + "</h1>\n<p>" + body + "</p></section>"
  }

  /** Why a run stopped early: the row had no first cell, no second cell,
      or a `check` call failed while its answer was marked. */
  datatype Abort = MissingQuestion | MissingAnswer | SpellcheckFailed

  datatype Status = Completed | Aborted(reason: Abort)

  /** Everything printed on standard output, and how the run ended. */
  datatype Transcript = Transcript(printed: string, status: Status)

  /** How an answer cell is turned into the paragraph of its section. */
  type Marker = string -> Result<string>

  /** The marker of src/main.rs: squish, then mark word by word with `check`. */
  function MarkerOf(check: Checker): Marker
  {
    answer => MarkAnswer(answer, check)
  }

  /** A row has both cells. */
  predicate HasBothCells(row: seq<string>)
  {
    |row| >= 2
  }

  /** A row that produces a section: both cells present and the answer marked. */
  predicate RowOk(row: seq<string>, mark: Marker)
  {
    HasBothCells(row) && mark(row[1]).Ok?
  }

  /** The line printed for a row that produces a section. */
  function SectionLine(row: seq<string>, mark: Marker): string
    requires RowOk(row, mark)
  {
    Section(row[0], mark(row[1]).value) + "\n"
  }

  /** The reason a row that does not produce a section stops the run. */
  function AbortReason(row: seq<string>): Abort
  {
    if |row| == 0 then MissingQuestion
    else if |row| == 1 then MissingAnswer
    else SpellcheckFailed
  }

  /** What one row contributes: the line of its section, or the reason it
      stops the run. */
  datatype Outcome = Printed(line: string) | Stopped(reason: Abort)

  /** One row, handled as the loop body does: take the question cell, take
      the answer cell, mark the answer, print the section. */
  function RowOutcome(row: seq<string>, mark: Marker): (o: Outcome)
    ensures o.Printed? <==> RowOk(row, mark)
    ensures o.Printed? ==> o.line == SectionLine(row, mark)
    ensures o.Stopped? ==> o.reason == AbortReason(row)
  {
    if |row| == 0 then Stopped(MissingQuestion)
    else if |row| == 1 then Stopped(MissingAnswer)
    else match mark(row[1])
      case Ok(body) => Printed(Section(row[0], body) + "\n")
      case SpellcheckError => Stopped(SpellcheckFailed)
  }

  /** The outcome of every row. */
  function Outcomes(rows: seq<seq<string>>, mark: Marker): (r: seq<Outcome>)
    ensures |r| == |rows|
  {
    seq(|rows|, i requires 0 <= i < |rows| => RowOutcome(rows[i], mark))
  }

  /** What the rows print after the header, given their outcomes in order:
      each section line until a row stops the run (with what was printed so
      far) or the rows run out (which prints the closing line). */
  function Print(outs: seq<Outcome>): Transcript
  {
    if |outs| == 0 then Transcript(Epilog, Completed)
    else match outs[0]
      case Stopped(reason) => Transcript("", Aborted(reason))
      case Printed(line) =>
        var rest := Print(outs[1..]);
        Transcript(line + rest.printed, rest.status)
  }

  /** The whole run on a table: the header, then what the rows print. */
  function Report(rows: seq<seq<string>>, mark: Marker): Transcript
  {
    var body := Print(Outcomes(rows, mark));
    Transcript(Prolog + body.printed, body.status)
  }

  // ---------------------------------------------------------------------
  // An independent description: everything up to the first failing row
  // ---------------------------------------------------------------------

  /** Every outcome is a section line. */
  predicate AllPrinted(outs: seq<Outcome>)
  {
    forall i :: 0 <= i < |outs| ==> outs[i].Printed?
  }

  /** The section lines of outcomes that are all section lines, in order. */
  function PrintedLines(outs: seq<Outcome>): string
    requires AllPrinted(outs)
  {
    if |outs| == 0 then ""
    else PrintedLines(outs[..|outs| - 1]) + outs[|outs| - 1].line
  }

  lemma AllPrintedAppend(a: seq<Outcome>, b: seq<Outcome>)
    requires AllPrinted(a) && AllPrinted(b)
    ensures AllPrinted(a + b)
  {
    forall i | 0 <= i < |a + b| ensures (a + b)[i].Printed? {
      if i < |a| { assert (a + b)[i] == a[i]; } else { assert (a + b)[i] == b[i - |a|]; }
    }
  }

  /** Section lines are printed in order: those of two runs of outcomes one
      after the other are the first's followed by the second's. */
  lemma {:induction false} PrintedLinesAppend(a: seq<Outcome>, b: seq<Outcome>)
    requires AllPrinted(a) && AllPrinted(b)
    ensures AllPrinted(a + b)
    ensures PrintedLines(a + b) == PrintedLines(a) + PrintedLines(b)
    decreases |b|
  {
    AllPrintedAppend(a, b);
    if |b| == 0 {
      assert a + b == a;
    } else {
      var n := |b| - 1;
      var front := b[..n];
      assert AllPrinted(front) by {
        forall i | 0 <= i < n ensures front[i].Printed? { assert front[i] == b[i]; }
      }
      PrintedLinesAppend(a, front);
      var ab := a + b;
      assert ab[..|ab| - 1] == a + front;
      assert ab[|ab| - 1] == b[n];
      assert PrintedLines(ab) == PrintedLines(a + front) + b[n].line;
      assert PrintedLines(b) == PrintedLines(front) + b[n].line;
    }
  }

  /** Outcomes that are all section lines print those lines ahead of
      whatever the later outcomes print, which decide how the run ends. */
  lemma {:induction false} PrintAppend(a: seq<Outcome>, b: seq<Outcome>)
    requires AllPrinted(a)
    ensures Print(a + b) == Transcript(PrintedLines(a) + Print(b).printed, Print(b).status)
    decreases |a|
  {
    if |a| == 0 {
      assert a + b == b;
    } else {
      var tail := a[1..];
      assert (a + b)[0] == a[0];
      assert (a + b)[1..] == tail + b;
      assert AllPrinted(tail) by {
        forall i | 0 <= i < |tail| ensures tail[i].Printed? { assert tail[i] == a[i + 1]; }
      }
      PrintAppend(tail, b);
      assert AllPrinted([a[0]]);
      PrintedLinesAppend([a[0]], tail);
      assert [a[0]] + tail == a;
      assert [a[0]][..0] == [];
    }
  }

  /** When the outcomes before index `n` are all section lines and the one
      at `n`, if any, is not, the run prints those lines and then the
      closing line or nothing more. */
  lemma PrintUpTo(outs: seq<Outcome>, n: nat)
    requires n <= |outs|
    requires AllPrinted(outs[..n])
    requires n < |outs| ==> outs[n].Stopped?
    ensures n == |outs| ==> Print(outs) == Transcript(PrintedLines(outs[..n]) + Epilog, Completed)
    ensures n < |outs| ==> Print(outs) == Transcript(PrintedLines(outs[..n]), Aborted(outs[n].reason))
  {
    var good, rest := outs[..n], outs[n..];
    assert good + rest == outs;
    PrintAppend(good, rest);
    if n < |outs| {
      assert rest[0] == outs[n];
      var s := PrintedLines(good);
      assert s + "" == s;
    }
  }

  /** Every row produces a section. */
  predicate AllRowsOk(rows: seq<seq<string>>, mark: Marker)
  {
    forall i :: 0 <= i < |rows| ==> RowOk(rows[i], mark)
  }

  /** The section lines of rows that all produce sections, in row order. */
  function Sections(rows: seq<seq<string>>, mark: Marker): string
    requires AllRowsOk(rows, mark)
  {
    assert AllPrinted(Outcomes(rows, mark)) by {
      forall i | 0 <= i < |rows| ensures Outcomes(rows, mark)[i].Printed? {
        assert RowOk(rows[i], mark);
      }
    }
    PrintedLines(Outcomes(rows, mark))
  }

  /** One more row that produces a section adds its section line last. */
  lemma SectionsStep(rows: seq<seq<string>>, i: nat, mark: Marker)
    requires i < |rows|
    requires AllRowsOk(rows[..i], mark) && RowOk(rows[i], mark)
    ensures AllRowsOk(rows[..i + 1], mark)
    ensures Sections(rows[..i + 1], mark) == Sections(rows[..i], mark) + SectionLine(rows[i], mark)
  {
    var all := rows[..i + 1];
    assert AllRowsOk(all, mark) by {
      forall j | 0 <= j <= i ensures RowOk(all[j], mark) {
        if j < i { assert all[j] == rows[..i][j]; }
      }
    }
    var outs := Outcomes(all, mark);
    assert outs[..i] == Outcomes(rows[..i], mark);
    assert Sections(all, mark) == PrintedLines(outs);
  }

  /** The sections of rows that all produce them, in closed form: for each
      row in order, its question cell as a heading and its marked answer
      cell as a paragraph, each on a line of its own. */
  lemma {:induction false} SectionsAre(rows: seq<seq<string>>, mark: Marker)
    requires AllRowsOk(rows, mark)
    ensures Sections(rows, mark)
      == Concat(seq(|rows|, i requires 0 <= i < |rows| => Section(rows[i][0], mark(rows[i][1]).value) + "\n"))
    decreases |rows|
  {
    var lines := seq(|rows|, i requires 0 <= i < |rows| => Section(rows[i][0], mark(rows[i][1]).value) + "\n");
    if |rows| > 0 {
      var n := |rows| - 1;
      var front := rows[..n];
      assert AllRowsOk(front, mark) by {
        forall j | 0 <= j < n ensures RowOk(front[j], mark) { assert front[j] == rows[j]; }
      }
      SectionsAre(front, mark);
      SectionsStep(rows, n, mark);
      assert rows[..n + 1] == rows;
      assert lines[..n] == seq(n, i requires 0 <= i < n => Section(front[i][0], mark(front[i][1]).value) + "\n");
    }
  }

  /** The number of leading rows that produce sections. */
  function GoodRows(rows: seq<seq<string>>, mark: Marker): nat
  {
    LeadingCount(rows, row => RowOk(row, mark))
  }

  /** When the rows before index `n` all produce sections and the row at
      `n`, if any, does not, the run prints the header, those sections, and
      then the closing line or nothing more. */
  lemma ReportUpTo(rows: seq<seq<string>>, mark: Marker, n: nat)
    requires n <= |rows|
    requires AllRowsOk(rows[..n], mark)
    requires n < |rows| ==> !RowOk(rows[n], mark)
    ensures n == |rows| ==> Report(rows, mark) == Transcript(Prolog + Sections(rows, mark) + Epilog, Completed)
    ensures n < |rows| ==> Report(rows, mark) == Transcript(Prolog + Sections(rows[..n], mark), Aborted(AbortReason(rows[n])))
  {
    var outs := Outcomes(rows, mark);
    assert outs[..n] == Outcomes(rows[..n], mark);
    assert AllPrinted(outs[..n]) by {
      forall i | 0 <= i < n ensures outs[..n][i].Printed? { assert RowOk(rows[..n][i], mark); }
    }
    PrintUpTo(outs, n);
    assert n == |rows| ==> rows[..n] == rows;
  }

  /** The run prints the header, the section of every row before the first
      row that does not produce one, and then the closing line if there is
      no such row; otherwise it stops there for that row's reason. */
  lemma ReportUpToFirstFailure(rows: seq<seq<string>>, mark: Marker)
    ensures var n := GoodRows(rows, mark);
      n == |rows| ==> Report(rows, mark) == Transcript(Prolog + Sections(rows, mark) + Epilog, Completed)
    ensures var n := GoodRows(rows, mark);
      n < |rows| ==> Report(rows, mark) == Transcript(Prolog + Sections(rows[..n], mark), Aborted(AbortReason(rows[n])))
  {
    var n := GoodRows(rows, mark);
    assert AllRowsOk(rows[..n], mark) by {
      forall i | 0 <= i < n ensures RowOk(rows[..n][i], mark) { assert rows[..n][i] == rows[i]; }
    }
    ReportUpTo(rows, mark, n);
  }

  /** The run ends normally exactly when every row produces a section; it
      stops for a missing question, a missing answer or a failed check
      exactly when the first row that does not produce a section has no
      cell, one cell, or both cells. */
  lemma ReportStatus(rows: seq<seq<string>>, mark: Marker)
    ensures Report(rows, mark).status == Completed <==> AllRowsOk(rows, mark)
    ensures Report(rows, mark).status.Aborted? ==>
      var n := GoodRows(rows, mark);
      n < |rows| && !RowOk(rows[n], mark)
      && (forall i :: 0 <= i < n ==> RowOk(rows[i], mark))
      && (Report(rows, mark).status.reason == MissingQuestion <==> |rows[n]| == 0)
      && (Report(rows, mark).status.reason == MissingAnswer <==> |rows[n]| == 1)
      && (Report(rows, mark).status.reason == SpellcheckFailed <==> |rows[n]| >= 2)
  {
    ReportUpToFirstFailure(rows, mark);
  }

  /** A table of one row: the header, that row's exact section, and the
      closing line; or, when the row fails, just the header. */
  lemma SingleRowReport(row: seq<string>, mark: Marker)
    ensures RowOk(row, mark) ==>
      Report([row], mark) == Transcript(
        Prolog + ("<section>\n<h1>" + row[0] + "</h1>\n<p>" + mark(row[1]).value
          + "</p></section>\n") + Epilog,
        Completed)
    ensures !RowOk(row, mark) ==>
      Report([row], mark) == Transcript(Prolog, Aborted(AbortReason(row)))
  {
    if RowOk(row, mark) {
      ReportUpTo([row], mark, 1);
      SectionsStep([row], 0, mark);
      assert [row][..1] == [row];
    } else {
      ReportUpTo([row], mark, 0);
    }
  }

  /** A row lacking a cell stops the run: it and every later row print
      nothing, and the closing line is never printed. */
  lemma ShortRowAborts(rows: seq<seq<string>>, mark: Marker, i: nat)
    requires i < |rows| && !HasBothCells(rows[i])
    ensures Report(rows, mark).status.Aborted?
    ensures GoodRows(rows, mark) <= i
    ensures Report(rows, mark).printed == Prolog + Sections(rows[..GoodRows(rows, mark)], mark)
  {
    ReportUpToFirstFailure(rows, mark);
  }

  /** A run that stops early has printed exactly what a run over the rows
      before the failing one prints, less the closing line. */
  lemma AbortedRunIsUnfinished(rows: seq<seq<string>>, mark: Marker)
    requires Report(rows, mark).status.Aborted?
    ensures var n := GoodRows(rows, mark);
      Report(rows[..n], mark) == Transcript(Report(rows, mark).printed + Epilog, Completed)
  {
    var n := GoodRows(rows, mark);
    ReportUpToFirstFailure(rows, mark);
    assert AllRowsOk(rows[..n], mark) by {
      forall i | 0 <= i < n ensures RowOk(rows[..n][i], mark) { assert rows[..n][i] == rows[i]; }
    }
    ReportUpTo(rows[..n], mark, n);
  }

  /** Each row with more than two cells, cut down to its first two. */
  function FirstTwoCells(rows: seq<seq<string>>): (r: seq<seq<string>>)
    ensures |r| == |rows|
  {
    seq(|rows|, i requires 0 <= i < |rows| => if |rows[i]| > 2 then rows[i][..2] else rows[i])
  }

  /** Cells beyond the second are ignored: cutting every row down to two
      cells does not change the output. */
  lemma ExtraCellsIgnored(rows: seq<seq<string>>, mark: Marker)
    ensures Report(FirstTwoCells(rows), mark) == Report(rows, mark)
  {
    var cut := FirstTwoCells(rows);
    forall i | 0 <= i < |rows| ensures RowOutcome(cut[i], mark) == RowOutcome(rows[i], mark) {
      if |rows[i]| > 2 {
        assert cut[i][0] == rows[i][0] && cut[i][1] == rows[i][1];
      }
    }
    assert Outcomes(cut, mark) == Outcomes(rows, mark);
  }

  // ---------------------------------------------------------------------
  // The words the checker is asked about
  // ---------------------------------------------------------------------

  /** The words of each row's answer (none for a row without an answer cell). */
  function RowWords(rows: seq<seq<string>>): (r: seq<seq<string>>)
    ensures |r| == |rows|
  {
    seq(|rows|, i requires 0 <= i < |rows| => if HasBothCells(rows[i]) then AnswerWords(rows[i][1]) else [])
  }

  /** The number of leading rows that have both cells. */
  function WellFormedRows(rows: seq<seq<string>>): nat
  {
    LeadingCount(rows, HasBothCells)
  }

  /** The words the checker is asked about during the run, in order: those
      of the rows before the first row lacking a cell, up to and including
      the first word whose check fails. */
  function RunConsulted(rows: seq<seq<string>>, check: Checker): seq<string>
  {
    Consulted(Concat(RowWords(rows[..WellFormedRows(rows)])), check)
  }

  /** Cells beyond the second are never shown to the checker either. */
  lemma ExtraCellsNotConsulted(rows: seq<seq<string>>, check: Checker)
    ensures RunConsulted(FirstTwoCells(rows), check) == RunConsulted(rows, check)
  {
    var cut := FirstTwoCells(rows);
    var m := WellFormedRows(rows);
    assert WellFormedRows(cut) == m by {
      if m < |rows| { assert !HasBothCells(cut[m]); }
    }
    assert RowWords(cut[..m]) == RowWords(rows[..m]);
  }

  /** An answer that was marked had every one of its words answered, and
      one whose marking failed had a word whose check failed. */
  lemma MarkedAnswerAnswered(answer: string, check: Checker)
    ensures MarkerOf(check)(answer).Ok? <==> AllAnswered(AnswerWords(answer), check)
  {
    assert MarkerOf(check)(answer) == MarkAnswer(answer, check);
  }

  /** Adding a row adds its answer's words last. */
  lemma RowWordsSnoc(rows: seq<seq<string>>, i: nat)
    requires i < |rows|
    ensures Concat(RowWords(rows[..i + 1])) == Concat(RowWords(rows[..i])) + RowWords(rows)[i]
  {
    var ws := RowWords(rows[..i + 1]);
    assert ws[..i] == RowWords(rows[..i]);
    assert ws[i] == RowWords(rows)[i];
  }

  /** Rows that all produce sections had all their words answered. */
  lemma {:induction false} OkRowsAnswered(rows: seq<seq<string>>, check: Checker)
    requires AllRowsOk(rows, MarkerOf(check))
    ensures AllAnswered(Concat(RowWords(rows)), check)
  {
    forall i | 0 <= i < |rows| ensures AllAnswered(RowWords(rows)[i], check) {
      assert RowOk(rows[i], MarkerOf(check));
      MarkedAnswerAnswered(rows[i][1], check);
    }
    AllAnsweredConcat(RowWords(rows), check);
  }

  /** When every row produces a section, the checker has been asked about
      every word of every answer exactly once, row by row and line by line. */
  lemma CompletedRunConsultsEveryWord(rows: seq<seq<string>>, check: Checker)
    requires AllRowsOk(rows, MarkerOf(check))
    ensures RunConsulted(rows, check) == Concat(RowWords(rows))
  {
    LeadingCountUnique(rows, HasBothCells, |rows|);
    assert rows[..|rows|] == rows;
    OkRowsAnswered(rows, check);
    ConsultedPrefix(Concat(RowWords(rows)), check);
  }

  /** The words of the rows before `w` are those before row `i`, then row
      `i`'s, then those of the rows after it. */
  lemma RowWordsAround(rows: seq<seq<string>>, i: nat, w: nat)
    requires i < w <= |rows|
    ensures Concat(RowWords(rows[..w]))
      == Concat(RowWords(rows[..i])) + (RowWords(rows)[i] + Concat(RowWords(rows)[i + 1..w]))
  {
    var front, back := RowWords(rows[..i + 1]), RowWords(rows)[i + 1..w];
    assert RowWords(rows[..w]) == front + back;
    ConcatAppend(front, back);
    RowWordsSnoc(rows, i);
    AppendAssoc(Concat(RowWords(rows[..i])), RowWords(rows)[i], Concat(back));
  }

  /** When row `i` is the first that does not produce a section, the checker
      has been asked about every word of the rows before it and then, if the
      row has both cells, about its answer's words up to and including the
      first whose check failed; nothing after that. */
  lemma AbortedRunConsults(rows: seq<seq<string>>, check: Checker, i: nat)
    requires i < |rows|
    requires AllRowsOk(rows[..i], MarkerOf(check))
    requires !RowOk(rows[i], MarkerOf(check))
    ensures RunConsulted(rows, check) == Concat(RowWords(rows[..i]))
      + (if HasBothCells(rows[i]) then Consulted(AnswerWords(rows[i][1]), check) else [])
  {
    var done := Concat(RowWords(rows[..i]));
    OkRowsAnswered(rows[..i], check);
    assert forall j :: 0 <= j < i ==> HasBothCells(rows[j]) by {
      forall j | 0 <= j < i ensures HasBothCells(rows[j]) {
        assert RowOk(rows[..i][j], MarkerOf(check));
      }
    }
    if HasBothCells(rows[i]) {
      var w := WellFormedRows(rows);
      assert i < w;
      var words := AnswerWords(rows[i][1]);
      var later := Concat(RowWords(rows)[i + 1..w]);
      MarkedAnswerAnswered(rows[i][1], check);
      assert RowWords(rows)[i] == words;
      RowWordsAround(rows, i, w);
      ConsultedAfterAnswered(done, words + later, check);
      ConsultedStopsAtFailure(words, later, check);
    } else {
      LeadingCountUnique(rows, HasBothCells, i);
      ConsultedPrefix(done, check);
      assert done + [] == done;
    }
  }
}
