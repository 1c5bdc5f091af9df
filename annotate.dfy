/** The text side of the pipeline in src/main.rs: squishing the blank lines
    of an answer, and marking every word the spell checker objects to. */
module Annotate {
  import opened Seqs
  import opened RustStr

  // ---------------------------------------------------------------------
  // The spell checker, as seen by the pipeline
  // ---------------------------------------------------------------------

  /** One complaint of the spell checker about a word: the text it objects
      to, where in the word, and its suggested replacements. */
  datatype SpellError = SpellError(misspelled: string, position: nat, suggestions: seq<string>)

  /** What one `check` call returns: the list of complaints (empty when the
      word is accepted), or a failure to talk to the checker. */
  datatype Reply = Checked(errors: seq<SpellError>) | CheckFailed

  /** The checker's reply to each word. */
  type Checker = string -> Reply

  /** A marking that either succeeds or is abandoned because a `check`
      call failed (the source's `expect("Spellcheck error")`). */
  datatype Result<T> = Ok(value: T) | SpellcheckError

  /** The checker answered every one of `words`. */
  predicate AllAnswered(words: seq<string>, check: Checker)
  {
    forall i :: 0 <= i < |words| ==> check(words[i]).Checked?
  }

  /** The words the checker is asked about, in order, when it is asked about
      `words` one at a time and the first failure stops everything. */
  function Consulted(words: seq<string>, check: Checker): seq<string>
  {
    if |words| == 0 then []
    else if check(words[0]).CheckFailed? then [words[0]]
    else [words[0]] + Consulted(words[1..], check)
  }

  /** The checker is asked about a prefix of the words: all of them when it
      answers all of them, otherwise exactly up to and including the first
      word whose check fails. */
  lemma {:induction false} ConsultedPrefix(words: seq<string>, check: Checker)
    ensures var c := Consulted(words, check);
      |c| <= |words| && c == words[..|c|]
      && (AllAnswered(words, check) ==> c == words)
      && (!AllAnswered(words, check) ==>
            |c| > 0 && check(c[|c| - 1]).CheckFailed? && AllAnswered(c[..|c| - 1], check))
    decreases |words|
  {
    if |words| > 0 {
      ConsultedPrefix(words[1..], check);
      var c := Consulted(words, check);
      if check(words[0]).CheckFailed? {
      } else {
        var c' := Consulted(words[1..], check);
        assert c == [words[0]] + c';
        if AllAnswered(words, check) {
          assert AllAnswered(words[1..], check) by {
            forall i | 0 <= i < |words| - 1 ensures check(words[1..][i]).Checked? {
              assert words[1..][i] == words[i + 1];
            }
          }
        } else {
          var j :| 0 <= j < |words| && check(words[j]).CheckFailed?;
          assert j > 0 && words[1..][j - 1] == words[j];
          var p, p' := c[..|c| - 1], c'[..|c'| - 1];
          assert p == [words[0]] + p';
          assert AllAnswered(p, check) by {
            forall i | 0 <= i < |p| ensures check(p[i]).Checked? {
              if i > 0 { assert p[i] == p'[i - 1]; }
            }
          }
        }
      }
    }
  }

  /** Words the checker answers are all asked about. */
  lemma ConsultedAll(words: seq<string>, check: Checker)
    requires AllAnswered(words, check)
    ensures Consulted(words, check) == words
  {
    ConsultedPrefix(words, check);
  }

  /** Words the checker answered all of do not stop the questioning. */
  lemma {:induction false} ConsultedAfterAnswered(a: seq<string>, b: seq<string>, check: Checker)
    requires AllAnswered(a, check)
    ensures Consulted(a + b, check) == a + Consulted(b, check)
    decreases |a|
  {
    if |a| == 0 {
      assert a + b == b;
    } else {
      assert (a + b)[0] == a[0];
      assert (a + b)[1..] == a[1..] + b;
      assert AllAnswered(a[1..], check) by {
        forall i | 0 <= i < |a| - 1 ensures check(a[1..][i]).Checked? {
          assert a[1..][i] == a[i + 1];
        }
      }
      ConsultedAfterAnswered(a[1..], b, check);
    }
  }

  /** A failure among the first words means none of the later ones is asked. */
  lemma {:induction false} ConsultedStopsAtFailure(a: seq<string>, b: seq<string>, check: Checker)
    requires !AllAnswered(a, check)
    ensures Consulted(a + b, check) == Consulted(a, check)
    decreases |a|
  {
    assert (a + b)[0] == a[0];
    assert (a + b)[1..] == a[1..] + b;
    if check(a[0]).Checked? {
      assert !AllAnswered(a[1..], check) by {
        var j :| 0 <= j < |a| && check(a[j]).CheckFailed?;
        assert j > 0 && a[1..][j - 1] == a[j];
      }
      ConsultedStopsAtFailure(a[1..], b, check);
    }
  }

  /** When the first `i` words are answered and word `i` is not, the
      checker is asked about exactly the first `i + 1` words. */
  lemma ConsultedUpTo(words: seq<string>, check: Checker, i: nat)
    requires i < |words|
    requires AllAnswered(words[..i], check)
    requires check(words[i]).CheckFailed?
    ensures !AllAnswered(words, check)
    ensures Consulted(words, check) == words[..i + 1]
  {
    ConsultedAfterAnswered(words[..i], words[i..], check);
    assert words[..i] + words[i..] == words;
    assert words[i..][0] == words[i];
    assert words[..i + 1] == words[..i] + [words[i]];
  }

  /** The checker answered all of a concatenation exactly when it answered
      both halves. */
  lemma AllAnsweredAppend(a: seq<string>, b: seq<string>, check: Checker)
    ensures AllAnswered(a + b, check) <==> AllAnswered(a, check) && AllAnswered(b, check)
  {
    if AllAnswered(a, check) && AllAnswered(b, check) {
      forall i | 0 <= i < |a + b| ensures check((a + b)[i]).Checked? {
        if i >= |a| { assert (a + b)[i] == b[i - |a|]; }
      }
    }
    if AllAnswered(a + b, check) {
      forall i | 0 <= i < |a| ensures check(a[i]).Checked? {
        assert (a + b)[i] == a[i];
      }
      forall i | 0 <= i < |b| ensures check(b[i]).Checked? {
        assert (a + b)[|a| + i] == b[i];
      }
    }
  }

  /** The checker answered all of a flattening when it answered every part. */
  lemma {:induction false} AllAnsweredConcat(parts: seq<seq<string>>, check: Checker)
    requires forall i :: 0 <= i < |parts| ==> AllAnswered(parts[i], check)
    ensures AllAnswered(Concat(parts), check)
    decreases |parts|
  {
    if |parts| > 0 {
      var n := |parts| - 1;
      AllAnsweredConcat(parts[..n], check);
      AllAnsweredAppend(Concat(parts[..n]), parts[n], check);
    }
  }

  // ---------------------------------------------------------------------
  // Squishing blank lines (src/main.rs:69-73)
  // ---------------------------------------------------------------------

  /** `lines.filter(|s| !s.is_empty())`: only lines of length zero go;
      a line of spaces stays. */
  function NonEmptyLines(lines: seq<string>): (kept: seq<string>)
    ensures forall i :: 0 <= i < |kept| ==> kept[i] != ""
  {
    if |lines| == 0 then []
    else
      var n := |lines| - 1;
      NonEmptyLines(lines[..n]) + (if lines[n] == "" then [] else [lines[n]])
  }

  /** The number of lines of non-zero length. */
  function CountNonEmpty(lines: seq<string>): nat
  {
    if |lines| == 0 then 0
    else CountNonEmpty(lines[..|lines| - 1]) + (if lines[|lines| - 1] == "" then 0 else 1)
  }

  /** The squish keeps exactly the non-empty lines, in their relative
      order: there are as many kept lines as non-empty input lines, and the
      non-empty line at index `i` is the kept line whose rank is the number
      of non-empty lines before it. */
  lemma {:induction false} NonEmptyLinesSpec(lines: seq<string>)
    ensures |NonEmptyLines(lines)| == CountNonEmpty(lines)
    ensures forall i :: 0 <= i < |lines| && lines[i] != "" ==>
              CountNonEmpty(lines[..i]) < |NonEmptyLines(lines)|
              && NonEmptyLines(lines)[CountNonEmpty(lines[..i])] == lines[i]
    decreases |lines|
  {
    if |lines| > 0 {
      var n := |lines| - 1;
      var front := lines[..n];
      NonEmptyLinesSpec(front);
      forall i | 0 <= i < |lines| && lines[i] != ""
        ensures CountNonEmpty(lines[..i]) < |NonEmptyLines(lines)|
        ensures NonEmptyLines(lines)[CountNonEmpty(lines[..i])] == lines[i]
      {
        if i < n {
          assert front[i] == lines[i];
          assert front[..i] == lines[..i];
        } else {
          assert lines[..i] == front;
        }
      }
    }
  }

  /** The squished answer: the non-empty lines joined by a blank line. */
  function Squish(answer: string): string
  {
    Join(NonEmptyLines(Lines(answer)), "\n\n")
  }

  /** The kept lines with an empty line between neighbours. */
  function Interleave(kept: seq<string>): seq<string>
  {
    if |kept| <= 1 then kept
    else [kept[0], ""] + Interleave(kept[1..])
  }

  /** The kept lines sit at the even positions of the interleaving, the
      empty lines at the odd ones. */
  lemma {:induction false} InterleaveAt(kept: seq<string>)
    ensures |kept| == 0 ==> Interleave(kept) == []
    ensures |kept| > 0 ==> |Interleave(kept)| == 2 * |kept| - 1
    ensures forall j :: 0 <= j < |Interleave(kept)| ==>
              Interleave(kept)[j] == (if j % 2 == 0 then kept[j / 2] else "")
    decreases |kept|
  {
    if |kept| > 1 {
      InterleaveAt(kept[1..]);
      var rest := Interleave(kept[1..]);
      forall j | 2 <= j < |Interleave(kept)|
        ensures Interleave(kept)[j] == (if j % 2 == 0 then kept[j / 2] else "")
      {
        assert Interleave(kept)[j] == rest[j - 2];
        assert (j - 2) % 2 == j % 2;
        if j % 2 == 0 { assert (j - 2) / 2 == j / 2 - 1; }
      }
    }
  }

  /** Joining with a blank line is joining the interleaving with newlines. */
  lemma {:induction false} JoinDoubleNewline(kept: seq<string>)
    ensures Join(kept, "\n\n") == Join(Interleave(kept), "\n")
    decreases |kept|
  {
    if |kept| > 1 {
      JoinDoubleNewline(kept[1..]);
      var rest := Interleave(kept[1..]);
      assert |rest| > 0 by { InterleaveAt(kept[1..]); }
      var parts := [kept[0]] + ([""] + rest);
      assert Interleave(kept) == parts;
      assert parts[1..] == [""] + rest;
      assert ([""] + rest)[1..] == rest;
      assert Join(parts, "\n") == kept[0] + "\n" + Join([""] + rest, "\n");
      assert Join([""] + rest, "\n") == "" + "\n" + Join(rest, "\n");
      assert Join(kept, "\n\n") == kept[0] + "\n\n" + Join(kept[1..], "\n\n");
    }
  }

  /** Re-splitting the squished answer with `lines` brings an empty line
      back between neighbouring kept lines: with k kept lines there are
      2k - 1 lines, the kept ones (less one trailing carriage return, which
      `lines` strips a second time) at even positions and empty lines at
      odd positions. */
  lemma SquishedLines(answer: string)
    ensures var kept := NonEmptyLines(Lines(answer));
      var r := Lines(Squish(answer));
      (|kept| == 0 ==> r == [])
      && (|kept| > 0 ==> |r| == 2 * |kept| - 1)
      && (forall j :: 0 <= j < |r| ==> r[j] == (if j % 2 == 0 then StripCR(kept[j / 2]) else ""))
  {
    var kept := NonEmptyLines(Lines(answer));
    JoinDoubleNewline(kept);
    InterleaveAt(kept);
    var parts := Interleave(kept);
    if |kept| > 0 {
      forall i | 0 <= i < |parts| ensures '\n' !in parts[i] {
        NonEmptyLinesFrom(Lines(answer), if i % 2 == 0 then i / 2 else 0);
      }
      LinesOfJoin(parts);
    } else {
      assert Split("", '\n') == [""];
    }
  }

  /** Every kept line is one of the input lines. */
  lemma {:induction false} NonEmptyLinesFrom(lines: seq<string>, i: nat)
    requires i < |NonEmptyLines(lines)|
    ensures NonEmptyLines(lines)[i] in lines
    decreases |lines|
  {
    var n := |lines| - 1;
    if i < |NonEmptyLines(lines[..n])| {
      NonEmptyLinesFrom(lines[..n], i);
    }
  }

  // ---------------------------------------------------------------------
  // Marking words (src/main.rs:75-90)
  // ---------------------------------------------------------------------

  const MarkOpen: string := "<mark>"
  const MarkClose: string := "</mark>"

  /** A word as emitted: wrapped in a highlight element when the checker
      reported any errors for it, unchanged otherwise. */
  function MarkWord(word: string, errors: seq<SpellError>): string
  {
    if |errors| == 0 then word else MarkOpen + word + MarkClose
  }

  /** The words checked one at a time and each emitted as `MarkWord` says;
      the first failed check abandons the lot. */
  function MarkWords(words: seq<string>, check: Checker): (r: Result<seq<string>>)
    ensures r.Ok? <==> AllAnswered(words, check)
    ensures r.Ok? ==> |r.value| == |words|
  {
    if |words| == 0 then Ok([])
    else
      var n := |words| - 1;
      match MarkWords(words[..n], check)
      case SpellcheckError => SpellcheckError
      case Ok(done) =>
        match check(words[n])
        case CheckFailed => SpellcheckError
        case Checked(errors) => Ok(done + [MarkWord(words[n], errors)])
  }

  /** Each word is emitted in its own place: unchanged when the checker
      reported no errors for it, wrapped in a highlight element otherwise. */
  lemma {:induction false} MarkWordsSpec(words: seq<string>, check: Checker)
    requires MarkWords(words, check).Ok?
    ensures forall i :: 0 <= i < |words| ==>
      MarkWords(words, check).value[i]
        == if |check(words[i]).errors| == 0 then words[i] else "<mark>" + words[i] + "</mark>"
    decreases |words|
  {
    if |words| > 0 {
      var n := |words| - 1;
      MarkWordsSpec(words[..n], check);
      var done := MarkWords(words[..n], check).value;
      assert MarkWords(words, check).value == done + [MarkWord(words[n], check(words[n]).errors)];
    }
  }

  /** Marking one more word of a marked prefix appends that word as
      `MarkWord` emits it. */
  lemma MarkWordsSnoc(words: seq<string>, i: nat, check: Checker)
    requires i < |words|
    requires MarkWords(words[..i], check).Ok? && check(words[i]).Checked?
    ensures MarkWords(words[..i + 1], check)
      == Ok(MarkWords(words[..i], check).value + [MarkWord(words[i], check(words[i]).errors)])
  {
    assert words[..i + 1][..i] == words[..i];
  }

  /** One line of the answer: its whitespace-separated words, marked, joined
      by single spaces. */
  function MarkLine(line: string, check: Checker): Result<string>
  {
    match MarkWords(Words(line), check)
    case SpellcheckError => SpellcheckError
    case Ok(marked) => Ok(Join(marked, " "))
  }

  /** A line without a non-whitespace character consults nobody and becomes
      the empty string; a line with one (when checked) does not. */
  lemma BlankLineMarksEmpty(line: string, check: Checker)
    ensures IsBlank(line) ==> Consulted(Words(line), check) == []
    ensures IsBlank(line) ==> MarkLine(line, check) == Ok("")
    ensures !IsBlank(line) && MarkLine(line, check).Ok? ==> MarkLine(line, check).value != ""
  {
    WordsEmptyIff(line);
    var words := Words(line);
    if !IsBlank(line) && MarkLine(line, check).Ok? {
      WordsAreWords(line);
      var marked := MarkWords(words, check).value;
      MarkWordsSpec(words, check);
      assert |marked[0]| >= |words[0]| > 0;
      if |marked| > 1 {
        assert Join(marked, " ")[0] == marked[0][0];
      }
    }
  }

  /** Removes every highlight tag from a text. */
  function Unmark(s: string): string
  {
    if |s| == 0 then ""
    else if |s| >= |MarkOpen| && s[..|MarkOpen|] == MarkOpen then Unmark(s[|MarkOpen|..])
    else if |s| >= |MarkClose| && s[..|MarkClose|] == MarkClose then Unmark(s[|MarkClose|..])
    else [s[0]] + Unmark(s[1..])
  }

  /** Text without a `<` is left alone by `Unmark`. */
  lemma {:induction false} UnmarkPlain(x: string, y: string)
    requires '<' !in x
    ensures Unmark(x + y) == x + Unmark(y)
    decreases |x|
  {
    if |x| == 0 {
      assert x + y == y;
    } else {
      var s := x + y;
      assert s[0] == x[0] && s[1..] == x[1..] + y;
      assert s[0] != '<';
      UnmarkPlain(x[1..], y);
    }
  }

  /** A plain word between highlight tags unmarks to itself. */
  lemma UnmarkMarked(w: string, y: string)
    requires '<' !in w
    ensures Unmark(MarkOpen + w + MarkClose + y) == w + Unmark(y)
  {
    var s := MarkOpen + w + MarkClose + y;
    assert s[..|MarkOpen|] == MarkOpen;
    assert s[|MarkOpen|..] == w + (MarkClose + y);
    UnmarkPlain(w, MarkClose + y);
    var t := MarkClose + y;
    assert t[..|MarkClose|] == MarkClose && t[|MarkClose|..] == y;
    assert !(|t| >= |MarkOpen| && t[..|MarkOpen|] == MarkOpen) by {
      if |t| >= |MarkOpen| { assert t[1] == '/' && MarkOpen[1] == 'm'; }
    }
  }

  /** Unmarking words that are each plain or highlighted, joined by spaces,
      gives the plain words joined by spaces. */
  lemma {:induction false} UnmarkJoin(marked: seq<string>, words: seq<string>)
    requires |marked| == |words|
    requires forall i :: 0 <= i < |words| ==> '<' !in words[i]
    requires forall i :: 0 <= i < |words| ==>
               marked[i] == words[i] || marked[i] == MarkOpen + words[i] + MarkClose
    ensures Unmark(Join(marked, " ")) == Join(words, " ")
    decreases |words|
  {
    if |words| > 0 {
      var w := words[0];
      var rest := if |words| == 1 then "" else " " + Join(marked[1..], " ");
      var restWords := if |words| == 1 then "" else " " + Join(words[1..], " ");
      assert Join(marked, " ") == marked[0] + rest;
      assert Join(words, " ") == w + restWords;
      if |words| > 1 {
        UnmarkJoin(marked[1..], words[1..]);
        UnmarkPlain(" ", Join(marked[1..], " "));
      } else {
        assert Unmark(rest) == restWords;
      }
      if marked[0] == w {
        UnmarkPlain(w, rest);
      } else {
        UnmarkMarked(w, rest);
        assert marked[0] + rest == MarkOpen + w + MarkClose + rest;
      }
    }
  }

  /** Stripping the highlight tags from a marked line gives the line's words
      in their original order, joined by single spaces: original spacing is
      lost, and no word is added, dropped, trimmed or reordered. (The
      condition excludes lines that themselves contain tag text, which the
      pipeline leaves unescaped.) */
  lemma UnmarkLine(line: string, check: Checker)
    requires '<' !in line
    requires MarkLine(line, check).Ok?
    ensures Unmark(MarkLine(line, check).value) == Join(Words(line), " ")
    ensures Words(Join(Words(line), " ")) == Words(line)
  {
    var words := Words(line);
    WordsKeepText(line);
    forall i | 0 <= i < |words| ensures '<' !in words[i] {
      WordInText(line, i);
    }
    MarkWordsSpec(words, check);
    UnmarkJoin(MarkWords(words, check).value, words);
    WordsAreWords(line);
    WordsOfJoin(words);
  }

  /** Each word's characters occur in the text it was split from. */
  lemma {:induction false} WordInText(s: string, i: nat)
    requires i < |Words(s)|
    ensures forall k :: 0 <= k < |Words(s)[i]| ==> Words(s)[i][k] in s
    decreases |s|
  {
    if IsWhitespace(s[0]) {
      WordInText(s[1..], i);
    } else {
      var n := WordLength(s);
      if i > 0 { WordInText(s[n..], i - 1); }
    }
  }

  // ---------------------------------------------------------------------
  // Marking a whole answer
  // ---------------------------------------------------------------------

  /** The lines the answer is marked line by line from. */
  function AnswerLines(answer: string): seq<string>
  {
    Lines(Squish(answer))
  }

  /** The words of each line. */
  function LineWords(lines: seq<string>): (r: seq<seq<string>>)
    ensures |r| == |lines|
  {
    seq(|lines|, i requires 0 <= i < |lines| => Words(lines[i]))
  }

  /** Every word the answer is checked for, in the order the checker is asked. */
  function AnswerWords(answer: string): seq<string>
  {
    Concat(LineWords(AnswerLines(answer)))
  }

  /** Adding a line adds its words last. */
  lemma LineWordsSnoc(lines: seq<string>, i: nat)
    requires i < |lines|
    ensures Concat(LineWords(lines[..i + 1])) == Concat(LineWords(lines[..i])) + Words(lines[i])
  {
    assert LineWords(lines[..i + 1])[..i] == LineWords(lines[..i]);
  }

  /** The words of the lines are those of the lines before line `i`, then
      line `i`'s, then those of the lines after it. */
  lemma LineWordsAround(lines: seq<string>, i: nat)
    requires i < |lines|
    ensures Concat(LineWords(lines))
      == Concat(LineWords(lines[..i])) + (Words(lines[i]) + Concat(LineWords(lines[i + 1..])))
  {
    var ws := LineWords(lines);
    LineWordsSnoc(lines, i);
    assert ws == LineWords(lines[..i + 1]) + LineWords(lines[i + 1..]);
    ConcatAppend(LineWords(lines[..i + 1]), LineWords(lines[i + 1..]));
  }

  /** Each line marked; the first failed check abandons the lot. */
  function MarkLines(lines: seq<string>, check: Checker): (r: Result<seq<string>>)
    ensures r.Ok? <==> AllAnswered(Concat(LineWords(lines)), check)
    ensures r.Ok? ==> |r.value| == |lines|
  {
    if |lines| == 0 then Ok([])
    else
      var n := |lines| - 1;
      assert LineWords(lines) == LineWords(lines[..n]) + [Words(lines[n])];
      AllAnsweredAppend(Concat(LineWords(lines[..n])), Words(lines[n]), check);
      match MarkLines(lines[..n], check)
      case SpellcheckError => SpellcheckError
      case Ok(done) =>
        match MarkLine(lines[n], check)
        case SpellcheckError => SpellcheckError
        case Ok(line) => Ok(done + [line])
  }

  /** Each line is marked in its own place, as `MarkLine` marks it alone. */
  lemma {:induction false} MarkLinesSpec(lines: seq<string>, check: Checker)
    requires MarkLines(lines, check).Ok?
    ensures forall i :: 0 <= i < |lines| ==> MarkLine(lines[i], check) == Ok(MarkLines(lines, check).value[i])
    decreases |lines|
  {
    if |lines| > 0 {
      var n := |lines| - 1;
      MarkLinesSpec(lines[..n], check);
      var done := MarkLines(lines[..n], check).value;
      assert MarkLines(lines, check).value == done + [MarkLine(lines[n], check).value];
    }
  }

  /** Marking one more line of a marked prefix appends that line as
      `MarkLine` marks it. */
  lemma MarkLinesSnoc(lines: seq<string>, i: nat, check: Checker)
    requires i < |lines|
    requires MarkLines(lines[..i], check).Ok? && MarkLine(lines[i], check).Ok?
    ensures MarkLines(lines[..i + 1], check)
      == Ok(MarkLines(lines[..i], check).value + [MarkLine(lines[i], check).value])
  {
    assert lines[..i + 1][..i] == lines[..i];
  }

  /** When the lines before line `i` are marked and line `i` is not, the
      whole marking fails, and the checker is asked about every word of the
      earlier lines and then about line `i`'s words up to and including the
      first whose check fails. */
  lemma MarkLinesStopAt(lines: seq<string>, i: nat, check: Checker)
    requires i < |lines|
    requires MarkLines(lines[..i], check).Ok? && MarkLine(lines[i], check).SpellcheckError?
    ensures MarkLines(lines, check).SpellcheckError?
    ensures Consulted(Concat(LineWords(lines)), check)
      == Concat(LineWords(lines[..i])) + Consulted(Words(lines[i]), check)
  {
    var before := Concat(LineWords(lines[..i]));
    var later := Concat(LineWords(lines[i + 1..]));
    LineWordsAround(lines, i);
    AllAnsweredAppend(Words(lines[i]), later, check);
    AllAnsweredAppend(before, Words(lines[i]) + later, check);
    ConsultedAfterAnswered(before, Words(lines[i]) + later, check);
    ConsultedStopsAtFailure(Words(lines[i]), later, check);
  }

  /** The answer as emitted: its lines marked and joined by line breaks. */
  function MarkAnswer(answer: string, check: Checker): Result<string>
  {
    match MarkLines(AnswerLines(answer), check)
    case SpellcheckError => SpellcheckError
    case Ok(marked) => Ok(Join(marked, "<br>\n"))
  }

  /** The marked answer has one marked line per line of the re-split
      squished answer: 2k - 1 of them for k kept lines, the odd ones empty,
      so k kept lines are separated by 2k - 2 line breaks. */
  lemma MarkedAnswerShape(answer: string, check: Checker)
    requires MarkAnswer(answer, check).Ok?
    ensures var kept := NonEmptyLines(Lines(answer));
      var marked := MarkLines(AnswerLines(answer), check).value;
      (|kept| == 0 ==> marked == [] && MarkAnswer(answer, check).value == "")
      && (|kept| > 0 ==> |marked| == 2 * |kept| - 1)
      && (forall j :: 0 <= j < |marked| ==>
            Ok(marked[j]) == (if j % 2 == 0 then MarkLine(StripCR(kept[j / 2]), check) else Ok("")))
  {
    SquishedLines(answer);
    var lines := AnswerLines(answer);
    var marked := MarkLines(lines, check).value;
    MarkLinesSpec(lines, check);
    forall j | 0 <= j < |marked| && j % 2 == 1 ensures marked[j] == "" {
      BlankLineMarksEmpty(lines[j], check);
    }
  }
}
