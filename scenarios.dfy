/** Worked scenarios: one answer taken through every stage of the pipeline
    of src/main.rs, and the documents printed for small tables. */
module Scenarios {
  import opened Seqs
  import opened RustStr
  import opened Annotate
  import opened Render

  /** A checker that knows one misspelling. */
  function Teh(w: string): Reply
  {
    if w == "teh" then Checked([SpellError("teh", 0, ["the"])]) else Checked([])
  }

  /** Four newline-free pieces, the last not empty, joined by newlines. */
  lemma LinesOfFour(a: string, b: string, c: string, d: string)
    requires '\n' !in a && '\n' !in b && '\n' !in c && '\n' !in d && d != ""
    ensures Lines(a + "\n" + b + "\n" + c + "\n" + d) == [StripCR(a), StripCR(b), StripCR(c), StripCR(d)]
  {
    var parts := [a, b, c, d];
    assert parts[1..] == [b, c, d] && parts[1..][1..] == [c, d] && parts[1..][1..][1..] == [d];
    assert Join([c, d], "\n") == c + "\n" + d;
    assert Join([b, c, d], "\n") == b + "\n" + (c + "\n" + d);
    assert Join(parts, "\n") == a + "\n" + (b + "\n" + (c + "\n" + d));
    assert a + "\n" + (b + "\n" + (c + "\n" + d)) == a + "\n" + b + "\n" + c + "\n" + d;
    LinesOfJoin(parts);
  }

  /** Three newlines in a row leave two empty lines between the first and
      the last line. */
  lemma LinesExample()
    ensures Lines("teh  cat\n\n\nok") == ["teh  cat", "", "", "ok"]
  {
    LinesOfFour("teh  cat", "", "", "ok");
    assert "teh  cat" + "\n" + "" + "\n" + "" + "\n" + "ok" == "teh  cat\n\n\nok";
    assert StripCR("teh  cat") == "teh  cat" && StripCR("") == "" && StripCR("ok") == "ok";
  }

  /** Squishing keeps the lines of non-zero length, in order. */
  lemma NonEmptyLinesExample()
    ensures NonEmptyLines(["teh  cat", "", "", "ok"]) == ["teh  cat", "ok"]
  {
    var lines := ["teh  cat", "", "", "ok"];
    assert NonEmptyLines(lines[..1]) == ["teh  cat"] by {
      assert lines[..1][..0] == [];
    }
    assert lines[..2][..1] == lines[..1];
    assert lines[..3][..2] == lines[..2];
    assert lines[..4][..3] == lines[..3];
    assert lines[..4] == lines;
  }

  /** An answer with two kept lines is re-split into those lines around
      one empty line. */
  lemma AnswerLinesOfTwo(answer: string, a: string, b: string)
    requires NonEmptyLines(Lines(answer)) == [a, b]
    ensures AnswerLines(answer) == [StripCR(a), "", StripCR(b)]
  {
    var r := AnswerLines(answer);
    SquishedLines(answer);
    assert |r| == 3;
    assert r[0] == StripCR(a);
    assert r[1] == "";
    assert r[2] == StripCR(b);
  }

  /** The squished answer, split again, has one empty line between its two
      lines. */
  lemma AnswerLinesExample()
    ensures AnswerLines("teh  cat\n\n\nok") == ["teh  cat", "", "ok"]
  {
    LinesExample();
    NonEmptyLinesExample();
    AnswerLinesOfTwo("teh  cat\n\n\nok", "teh  cat", "ok");
    assert StripCR("teh  cat") == "teh  cat";
    assert StripCR("ok") == "ok";
  }

  /** Leading whitespace is skipped. */
  lemma PaddedWordExample()
    ensures Words("  cat") == ["cat"]
  {
    assert Words("  cat") == Words(" cat") by { assert "  cat"[1..] == " cat"; }
    assert Words(" cat") == Words("cat") by { assert " cat"[1..] == "cat"; }
    var c := "cat";
    assert WordLength(c) == 3 by {
      assert !IsWhitespace(c[0]) && !IsWhitespace(c[1]) && !IsWhitespace(c[2]);
    }
    assert c[..3] == c && c[3..] == "";
  }

  /** A run of spaces separates two words and is not kept. */
  lemma WordsExample()
    ensures Words("teh  cat") == ["teh", "cat"]
  {
    var s := "teh  cat";
    assert WordLength(s) == 3 by {
      assert !IsWhitespace(s[0]) && !IsWhitespace(s[1]) && !IsWhitespace(s[2]) && IsWhitespace(s[3]);
    }
    assert s[..3] == "teh" && s[3..] == "  cat";
    PaddedWordExample();
  }

  /** Two answered words are marked one after the other. */
  lemma MarkTwoWords(x: string, y: string, check: Checker)
    requires check(x).Checked? && check(y).Checked?
    ensures MarkWords([x, y], check)
      == Ok([MarkWord(x, check(x).errors), MarkWord(y, check(y).errors)])
  {
    var words := [x, y];
    assert words[..0] == [];
    MarkWordsSnoc(words, 0, check);
    assert [] + [MarkWord(x, check(x).errors)] == [MarkWord(x, check(x).errors)];
    assert MarkWords(words[..1], check) == Ok([MarkWord(x, check(x).errors)]);
    MarkWordsSnoc(words, 1, check);
    assert words[..2] == words;
    assert [MarkWord(x, check(x).errors)] + [MarkWord(y, check(y).errors)]
      == [MarkWord(x, check(x).errors), MarkWord(y, check(y).errors)];
  }

  /** The checker's answers for the words of these scenarios, as marked. */
  lemma TehMarked()
    ensures Teh("teh").Checked? && MarkWord("teh", Teh("teh").errors) == "<mark>teh</mark>"
    ensures Teh("cat").Checked? && MarkWord("cat", Teh("cat").errors) == "cat"
    ensures Teh("ok").Checked? && MarkWord("ok", Teh("ok").errors) == "ok"
  {
    assert "cat" != "teh" by { assert "cat"[0] != "teh"[0]; }
    assert "ok" != "teh" by { assert |"ok"| != |"teh"|; }
  }

  /** A line of two answered words becomes the two marked words around
      one space. */
  lemma MarkLineOfTwo(line: string, x: string, y: string, check: Checker)
    requires Words(line) == [x, y]
    requires check(x).Checked? && check(y).Checked?
    ensures MarkLine(line, check) == Ok(MarkWord(x, check(x).errors) + " " + MarkWord(y, check(y).errors))
  {
    MarkTwoWords(x, y, check);
    var marked := [MarkWord(x, check(x).errors), MarkWord(y, check(y).errors)];
    assert marked[1..] == [marked[1]];
    assert Join(marked[1..], " ") == marked[1];
    assert Join(marked, " ") == marked[0] + " " + marked[1];
  }

  /** The misspelt word is marked, the other is not, and the run of spaces
      between them becomes a single space. */
  lemma MarkLineExample()
    ensures MarkLine("teh  cat", Teh) == Ok("<mark>teh</mark> cat")
  {
    assert "<mark>teh</mark>" + " " + "cat" == "<mark>teh</mark> cat";
    WordsExample();
    MarkLineOfTwo("teh  cat", "teh", "cat", Teh);
    TehMarked();
  }

  /** An empty line stays empty. */
  lemma MarkEmptyLineExample()
    ensures MarkLine("", Teh) == Ok("")
  {
    BlankLineMarksEmpty("", Teh);
  }

  /** A line without whitespace is one word. */
  lemma OneWordExample()
    ensures Words("ok") == ["ok"]
  {
    var s := "ok";
    assert WordLength(s) == 2 by {
      assert !IsWhitespace(s[0]) && !IsWhitespace(s[1]);
    }
    assert s[..2] == s && s[2..] == "";
  }

  /** A correctly spelt line is left as it is. */
  lemma MarkPlainLineExample()
    ensures MarkLine("ok", Teh) == Ok("ok")
  {
    var s := "ok";
    var words: seq<string> := [s];
    OneWordExample();
    assert words[..0] == [];
    MarkWordsSnoc(words, 0, Teh);
    assert words[..1] == words;
  }

  /** Three lines whose marking succeeds are marked one by one. */
  lemma MarkThreeLines(a: string, b: string, c: string, check: Checker)
    requires MarkLines([a, b, c], check).Ok?
    ensures MarkLine(a, check).Ok? && MarkLine(b, check).Ok? && MarkLine(c, check).Ok?
    ensures MarkLines([a, b, c], check).value
      == [MarkLine(a, check).value, MarkLine(b, check).value, MarkLine(c, check).value]
  {
    var lines := [a, b, c];
    MarkLinesSpec(lines, check);
    assert MarkLine(lines[0], check).Ok? && MarkLine(lines[1], check).Ok? && MarkLine(lines[2], check).Ok?;
  }

  /** Three pieces joined by a separator. */
  lemma JoinThree(x: string, y: string, z: string, sep: string)
    ensures Join([x, y, z], sep) == x + sep + y + sep + z
  {
    var parts := [x, y, z];
    assert parts[1..] == [y, z];
    assert parts[1..][1..] == [z];
    assert Join(parts[1..], sep) == y + sep + z;
    assert Join(parts, sep) == x + sep + (y + sep + z);
    assert x + sep + (y + sep + z) == x + sep + y + sep + z;
  }

  /** An answer re-split into three lines whose words are all answered
      becomes the three marked lines joined by line breaks. */
  lemma MarkAnswerOfThree(answer: string, a: string, b: string, c: string, check: Checker)
    requires AnswerLines(answer) == [a, b, c]
    requires AllAnswered(AnswerWords(answer), check)
    ensures MarkLine(a, check).Ok? && MarkLine(b, check).Ok? && MarkLine(c, check).Ok?
    ensures MarkAnswer(answer, check)
      == Ok(MarkLine(a, check).value + "<br>\n" + MarkLine(b, check).value + "<br>\n" + MarkLine(c, check).value)
  {
    MarkThreeLines(a, b, c, check);
    JoinThree(MarkLine(a, check).value, MarkLine(b, check).value, MarkLine(c, check).value, "<br>\n");
  }

  /** The whole answer: the blank lines between the two lines are squished
      to a single empty line, which becomes an empty line of the paragraph;
      the misspelt word is marked. */
  lemma MarkAnswerExample()
    ensures MarkAnswer("teh  cat\n\n\nok", Teh) == Ok("<mark>teh</mark> cat<br>\n<br>\nok")
  {
    assert "<mark>teh</mark> cat" + "<br>\n" + "" + "<br>\n" + "ok" == "<mark>teh</mark> cat<br>\n<br>\nok";
    var answer := "teh  cat\n\n\nok";
    AnswerLinesExample();
    assert AllAnswered(AnswerWords(answer), Teh) by {
      AnswerWordsExample();
      TehMarked();
    }
    MarkAnswerOfThree(answer, "teh  cat", "", "ok", Teh);
    MarkLineExample();
    MarkEmptyLineExample();
    MarkPlainLineExample();
  }

  /** A table of one row whose answer marks successfully. */
  lemma OneRowReport(question: string, answer: string, mark: Marker)
    requires mark(answer).Ok?
    ensures Report([[question, answer]], mark)
      == Transcript(Prolog + Section(question, mark(answer).value) + "\n" + Epilog, Completed)
  {
    var rows := [[question, answer]];
    assert RowOk(rows[0], mark);
    assert rows[..0] == [];
    SectionsStep(rows, 0, mark);
    assert rows[..1] == rows;
    ReportUpTo(rows, mark, 1);
    AppendAssoc(Prolog, Section(question, mark(answer).value), "\n");
  }

  /** A table whose first row marks successfully and whose second row has
      no answer cell. */
  lemma AnswerlessSecondRowReport(question: string, answer: string, next: string, mark: Marker)
    requires mark(answer).Ok?
    ensures Report([[question, answer], [next]], mark)
      == Transcript(Prolog + Section(question, mark(answer).value) + "\n", Aborted(MissingAnswer))
  {
    var rows := [[question, answer], [next]];
    assert RowOk(rows[0], mark);
    assert rows[..0] == [];
    SectionsStep(rows, 0, mark);
    ReportUpTo(rows, mark, 1);
    AppendAssoc(Prolog, Section(question, mark(answer).value), "\n");
  }

  /** A one-row table: the header, the row's section and the closing line. */
  lemma ReportExample()
    ensures Report([["Greeting?", "teh  cat\n\n\nok"]], MarkerOf(Teh))
      == Transcript(Prolog + Section("Greeting?", "<mark>teh</mark> cat<br>\n<br>\nok") + "\n" + Epilog, Completed)
  {
    MarkAnswerExample();
    OneRowReport("Greeting?", "teh  cat\n\n\nok", MarkerOf(Teh));
  }

  /** A second row without an answer cell stops the run after the first
      row's section has been printed, and the closing line is not printed. */
  lemma PartialReportExample()
    ensures Report([["Greeting?", "teh  cat\n\n\nok"], ["Farewell?"]], MarkerOf(Teh))
      == Transcript(Prolog + Section("Greeting?", "<mark>teh</mark> cat<br>\n<br>\nok") + "\n", Aborted(MissingAnswer))
  {
    MarkAnswerExample();
    AnswerlessSecondRowReport("Greeting?", "teh  cat\n\n\nok", "Farewell?", MarkerOf(Teh));
  }

  /** A checker that cannot be reached: every check fails. */
  function Offline(w: string): Reply
  {
    CheckFailed
  }

  /** Flattening three sequences. */
  lemma ConcatThree<T>(a: seq<T>, b: seq<T>, c: seq<T>)
    ensures Concat([a, b, c]) == a + b + c
  {
    var ss := [a, b, c];
    assert ss[..2] == [a, b] && ss[..2][..1] == [a] && ss[..2][..1][..0] == [];
    assert Concat([a]) == a by { assert [] + a == a; }
    assert Concat([a, b]) == a + b;
  }

  /** The words of three lines, in reading order. */
  lemma WordsOfThreeLines(x: string, y: string, z: string)
    ensures Concat(LineWords([x, y, z])) == Words(x) + Words(y) + Words(z)
  {
    assert LineWords([x, y, z]) == [Words(x), Words(y), Words(z)];
    ConcatThree(Words(x), Words(y), Words(z));
  }

  /** The checker is asked about the answer's words in reading order. */
  lemma AnswerWordsExample()
    ensures AnswerWords("teh  cat\n\n\nok") == ["teh", "cat", "ok"]
  {
    AnswerLinesExample();
    WordsExample();
    OneWordExample();
    WordsOfThreeLines("teh  cat", "", "ok");
    assert ["teh", "cat"] + [] + ["ok"] == ["teh", "cat", "ok"];
  }

  /** When every check fails, the run stops at the first row with nothing
      but the header printed, after asking about the first word only. */
  lemma OfflineExample()
    ensures Report([["Greeting?", "teh  cat\n\n\nok"]], MarkerOf(Offline))
      == Transcript(Prolog, Aborted(SpellcheckFailed))
    ensures RunConsulted([["Greeting?", "teh  cat\n\n\nok"]], Offline) == ["teh"]
  {
    var rows := [["Greeting?", "teh  cat\n\n\nok"]];
    AnswerWordsExample();
    MarkedAnswerAnswered("teh  cat\n\n\nok", Offline);
    assert !RowOk(rows[0], MarkerOf(Offline));
    SingleRowReport(rows[0], MarkerOf(Offline));
    assert rows[..0] == [];
    AbortedRunConsults(rows, Offline, 0);
  }

  /** A line holding only a space is a line of its own. */
  lemma SpaceLineLinesExample()
    ensures Lines("ok\n \nok") == ["ok", " ", "ok"]
  {
    var parts := ["ok", " ", "ok"];
    assert Join(parts, "\n") == "ok\n \nok" by {
      assert parts[1..][1..] == ["ok"];
      assert parts[1..] == [" ", "ok"];
    }
    LinesOfJoin(parts);
    assert StripCR("ok") == "ok" && StripCR(" ") == " ";
  }

  /** A line holding only a space has non-zero length, so squishing keeps
      it as a line of its own. */
  lemma SpaceLineKeptExample()
    ensures NonEmptyLines(Lines("ok\n \nok")) == ["ok", " ", "ok"]
  {
    SpaceLineLinesExample();
    var lines := ["ok", " ", "ok"];
    assert lines[..1][..0] == [];
    assert NonEmptyLines(lines[..1]) == ["ok"];
    assert lines[..2][..1] == lines[..1];
    assert NonEmptyLines(lines[..2]) == ["ok", " "];
    assert lines[..3][..2] == lines[..2];
    assert lines[..3] == lines;
  }
}
