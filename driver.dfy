/** The `main` loop of src/main.rs run against a spell checker that is
    asked one word at a time: the checker keeps a log of the words it was
    asked about, and the loop builds the printed document as it goes. */
module Driver {
  import opened Seqs
  import opened RustStr
  import opened Annotate
  import opened Render

  /** The spell-checker process: it answers each word as `answers` says and
      records every word it is asked about. */
  class Speller {
    const answers: Checker
    ghost var consulted: seq<string>

    constructor (answers: Checker)
      ensures this.answers == answers
      ensures consulted == []
    {
      this.answers := answers;
      consulted := [];
    }

    /** One `check` call. */
    method Check(word: string) returns (reply: Reply)
      modifies this
      ensures reply == answers(word)
      ensures consulted == old(consulted) + [word]
    {
      reply := answers(word);
      consulted := consulted + [word];
    }
  }

  /** One line of an answer, marked word by word; the first failed check
      abandons the line. The checker is asked about the line's words in
      order, up to and including the first one whose check fails. */
  method MarkLineWith(speller: Speller, line: string) returns (r: Result<string>)
    modifies speller
    ensures r == MarkLine(line, speller.answers)
    ensures speller.consulted == old(speller.consulted) + Consulted(Words(line), speller.answers)
  {
    var words := Words(line);
    var marked: seq<string> := [];
    var i := 0;
    while i < |words|
      invariant 0 <= i <= |words|
      invariant MarkWords(words[..i], speller.answers) == Ok(marked)
      invariant speller.consulted == old(speller.consulted) + words[..i]
    {
      var reply := speller.Check(words[i]);
      AppendAssoc(old(speller.consulted), words[..i], [words[i]]);
      assert words[..i + 1] == words[..i] + [words[i]];
      if reply.CheckFailed? {
        ConsultedUpTo(words, speller.answers, i);
        return SpellcheckError;
      }
      MarkWordsSnoc(words, i, speller.answers);
      marked := marked + [MarkWord(words[i], reply.errors)];
      i := i + 1;
    }
    assert words[..i] == words;
    ConsultedPrefix(words, speller.answers);
    r := Ok(Join(marked, " "));
  }

  /** Lines marked one after the other; the first failed check abandons
      them all. The checker is asked about the lines' words in order, up to
      and including the first one whose check fails. */
  method MarkLinesWith(speller: Speller, lines: seq<string>) returns (r: Result<seq<string>>)
    modifies speller
    ensures r == MarkLines(lines, speller.answers)
    ensures speller.consulted == old(speller.consulted) + Consulted(Concat(LineWords(lines)), speller.answers)
  {
    var done: seq<string> := [];
    var i := 0;
    while i < |lines|
      invariant 0 <= i <= |lines|
      invariant MarkLines(lines[..i], speller.answers) == Ok(done)
      invariant speller.consulted == old(speller.consulted) + Concat(LineWords(lines[..i]))
    {
      var m := MarkLineWith(speller, lines[i]);
      if m.SpellcheckError? {
        MarkLinesStopAt(lines, i, speller.answers);
        AppendAssoc(old(speller.consulted), Concat(LineWords(lines[..i])), Consulted(Words(lines[i]), speller.answers));
        return SpellcheckError;
      }
      MarkLinesSnoc(lines, i, speller.answers);
      done := done + [m.value];
      assert AllAnswered(Words(lines[i]), speller.answers);
      ConsultedAll(Words(lines[i]), speller.answers);
      LineWordsSnoc(lines, i);
      AppendAssoc(old(speller.consulted), Concat(LineWords(lines[..i])), Words(lines[i]));
      i := i + 1;
    }
    assert lines[..i] == lines;
    ConsultedAll(Concat(LineWords(lines)), speller.answers);
    r := Ok(done);
  }

  /** A whole answer: squished, re-split into lines, each line marked and
      the lines joined by line breaks; the first failed check abandons the
      answer. The checker is asked about the answer's words in order, up
      to and including the first one whose check fails. */
  method MarkAnswerWith(speller: Speller, answer: string) returns (r: Result<string>)
    modifies speller
    ensures r == MarkAnswer(answer, speller.answers)
    ensures speller.consulted == old(speller.consulted) + Consulted(AnswerWords(answer), speller.answers)
  {
    var marked := MarkLinesWith(speller, AnswerLines(answer));
    match marked
    case SpellcheckError => r := SpellcheckError;
    case Ok(lines) => r := Ok(Join(lines, "<br>\n"));
  }

  /** The loop over the table's rows: the header first, then for each row
      its question cell, its answer cell and the marked answer, printed as
      a section; a missing cell or a failed check stops the run with what
      was printed so far, and a run through every row prints the closing
      line. The checker is asked about exactly the words `RunConsulted`
      lists. */
  method Run(speller: Speller, rows: seq<seq<string>>) returns (out: string, status: Status)
    modifies speller
    ensures Transcript(out, status) == Report(rows, MarkerOf(speller.answers))
    ensures speller.consulted == old(speller.consulted) + RunConsulted(rows, speller.answers)
  {
    ghost var mark := MarkerOf(speller.answers);
    out := Prolog;
    var i := 0;
    while i < |rows|
      invariant 0 <= i <= |rows|
      invariant mark == MarkerOf(speller.answers)
      invariant AllRowsOk(rows[..i], mark)
      invariant out == Prolog + Sections(rows[..i], mark)
      invariant speller.consulted == old(speller.consulted) + Concat(RowWords(rows[..i]))
    {
      var row := rows[i];
      if |row| == 0 {
        status := Aborted(MissingQuestion);
        assert Transcript(out, status) == Report(rows, mark) by {
          ReportUpTo(rows, mark, i);
        }
        assert speller.consulted == old(speller.consulted) + RunConsulted(rows, speller.answers) by {
          AbortedRunConsults(rows, speller.answers, i);
          assert Concat(RowWords(rows[..i])) + [] == Concat(RowWords(rows[..i]));
        }
        return;
      }
      var question := row[0];
      if |row| == 1 {
        status := Aborted(MissingAnswer);
        assert Transcript(out, status) == Report(rows, mark) by {
          ReportUpTo(rows, mark, i);
        }
        assert speller.consulted == old(speller.consulted) + RunConsulted(rows, speller.answers) by {
          AbortedRunConsults(rows, speller.answers, i);
          assert Concat(RowWords(rows[..i])) + [] == Concat(RowWords(rows[..i]));
        }
        return;
      }
      var answer := row[1];
      ghost var asked := Concat(RowWords(rows[..i]));
      var m := MarkAnswerWith(speller, answer);
      assert mark(answer) == m;
      if m.SpellcheckError? {
        status := Aborted(SpellcheckFailed);
        assert Transcript(out, status) == Report(rows, mark) by {
          ReportUpTo(rows, mark, i);
        }
        assert speller.consulted == old(speller.consulted) + RunConsulted(rows, speller.answers) by {
          AbortedRunConsults(rows, speller.answers, i);
          AppendAssoc(old(speller.consulted), asked, Consulted(AnswerWords(answer), speller.answers));
        }
        return;
      }
      ghost var printed := Sections(rows[..i], mark);
      out := out + (Section(question, m.value) + "\n");
      assert AllRowsOk(rows[..i + 1], mark) && out == Prolog + Sections(rows[..i + 1], mark) by {
        SectionsStep(rows, i, mark);
        AppendAssoc(Prolog, printed, Section(question, m.value) + "\n");
      }
      assert speller.consulted == old(speller.consulted) + Concat(RowWords(rows[..i + 1])) by {
        MarkedAnswerAnswered(answer, speller.answers);
        ConsultedAll(AnswerWords(answer), speller.answers);
        RowWordsSnoc(rows, i);
        AppendAssoc(old(speller.consulted), asked, AnswerWords(answer));
      }
      i := i + 1;
    }
    out := out + Epilog;
    status := Completed;
    assert rows[..i] == rows;
    assert Transcript(out, status) == Report(rows, mark) by {
      ReportUpTo(rows, mark, i);
    }
    CompletedRunConsultsEveryWord(rows, speller.answers);
  }
}
