/** The Rust string operations the annotation pipeline is built from:
    `str::split` on one character, `str::lines`, `str::split_whitespace`
    and `[String]::join`. */
module RustStr {
  import opened Seqs

  /** `parts.join(sep)`: the parts in order, `sep` between neighbours. */
  function Join(parts: seq<string>, sep: string): string
  {
    if |parts| == 0 then ""
    else if |parts| == 1 then parts[0]
    else parts[0] + sep + Join(parts[1..], sep)
  }

  /** Joining a sequence that ends in `x`. */
  lemma {:induction false} JoinSnoc(parts: seq<string>, x: string, sep: string)
    requires |parts| > 0
    ensures Join(parts + [x], sep) == Join(parts, sep) + sep + x
    decreases |parts|
  {
    if |parts| > 1 {
      assert (parts + [x])[1..] == parts[1..] + [x];
      JoinSnoc(parts[1..], x, sep);
    }
  }

  // ---------------------------------------------------------------------
  // Splitting on one character and `lines`
  // ---------------------------------------------------------------------

  /** `s.split(c)`: the maximal pieces of `s` between occurrences of `c`;
      there is always one more piece than there are `c`s. */
  function Split(s: string, c: char): (r: seq<string>)
    ensures |r| >= 1
    ensures forall i :: 0 <= i < |r| ==> c !in r[i]
    decreases |s|
  {
    if |s| == 0 then [""]
    else
      var rest := Split(s[1..], c);
      if s[0] == c then [""] + rest
      else [[s[0]] + rest[0]] + rest[1..]
  }

  /** Splitting and re-joining with the same separator gives back the text. */
  lemma {:induction false} JoinSplit(s: string, c: char)
    ensures Join(Split(s, c), [c]) == s
    decreases |s|
  {
    if |s| > 0 {
      var rest := Split(s[1..], c);
      JoinSplit(s[1..], c);
      if s[0] == c {
        assert Split(s, c) == [""] + rest;
        assert ([""] + rest)[1..] == rest;
      } else {
        var pieces := [[s[0]] + rest[0]] + rest[1..];
        assert Split(s, c) == pieces;
        if |rest| > 1 {
          assert pieces[1..] == rest[1..];
          assert Join(rest, [c]) == rest[0] + [c] + Join(rest[1..], [c]);
        }
      }
    }
  }

  /** A separator-free prefix is glued onto the first piece of what follows. */
  lemma {:induction false} SplitPlainPrefix(x: string, y: string, c: char)
    requires c !in x
    ensures Split(x + y, c) == [x + Split(y, c)[0]] + Split(y, c)[1..]
    decreases |x|
  {
    if |x| > 0 {
      assert (x + y)[0] == x[0];
      assert (x + y)[1..] == x[1..] + y;
      SplitPlainPrefix(x[1..], y, c);
      assert [x[0]] + (x[1..] + Split(y, c)[0]) == x + Split(y, c)[0];
    } else {
      assert x + y == y;
      assert x + Split(y, c)[0] == Split(y, c)[0];
      assert [x + Split(y, c)[0]] + Split(y, c)[1..] == Split(y, c);
    }
  }

  /** Joining separator-free pieces and splitting again gives the pieces. */
  lemma {:induction false} SplitJoin(parts: seq<string>, c: char)
    requires |parts| > 0
    requires forall i :: 0 <= i < |parts| ==> c !in parts[i]
    ensures Split(Join(parts, [c]), c) == parts
    decreases |parts|
  {
    if |parts| == 1 {
      SplitPlainPrefix(parts[0], "", c);
      assert parts[0] + "" == parts[0];
    } else {
      var tail := Join(parts[1..], [c]);
      SplitJoin(parts[1..], c);
      assert Join(parts, [c]) == parts[0] + ([c] + tail);
      SplitPlainPrefix(parts[0], [c] + tail, c);
      assert ([c] + tail)[1..] == tail;
      assert Split([c] + tail, c) == [""] + parts[1..];
      assert parts[0] + "" == parts[0];
    }
  }

  /** Removes one carriage return at the end of a line. */
  function StripCR(line: string): string
  {
    if |line| > 0 && line[|line| - 1] == '\r' then line[..|line| - 1] else line
  }

  /** `s.lines()`: the pieces between newlines, without an empty last piece
      after a final newline, each with one trailing carriage return removed. */
  function Lines(s: string): (r: seq<string>)
    ensures forall i :: 0 <= i < |r| ==> '\n' !in r[i]
  {
    var pieces := Split(s, '\n');
    var body := if pieces[|pieces| - 1] == "" then pieces[..|pieces| - 1] else pieces;
    seq(|body|, i requires 0 <= i < |body| => StripCR(body[i]))
  }

  /** The last piece of a split is empty exactly when the text is empty or
      ends with the separator. */
  lemma {:induction false} SplitLastEmpty(s: string, c: char)
    ensures var r := Split(s, c);
      r[|r| - 1] == "" <==> (|s| == 0 || s[|s| - 1] == c)
    decreases |s|
  {
    if |s| > 0 {
      SplitLastEmpty(s[1..], c);
      var rest := Split(s[1..], c);
      if s[0] != c && |rest| == 1 {
        assert Split(s, c) == [[s[0]] + rest[0]];
        if |s| > 1 { assert s[1..][|s| - 2] == s[|s| - 1]; }
      } else if |s| > 1 {
        assert s[1..][|s| - 2] == s[|s| - 1];
      }
    }
  }

  /** Text without carriage returns splits into pieces that `StripCR`
      leaves alone. */
  lemma NoCarriageReturnPieces(s: string)
    requires '\r' !in s
    ensures forall i :: 0 <= i < |Split(s, '\n')| ==> StripCR(Split(s, '\n')[i]) == Split(s, '\n')[i]
  {
    var pieces := Split(s, '\n');
    forall i | 0 <= i < |pieces| ensures StripCR(pieces[i]) == pieces[i] {
      SplitPiecesFrom(s, '\n', i);
      if |pieces[i]| > 0 { assert pieces[i][|pieces[i]| - 1] in s; }
    }
  }

  /** For text without carriage returns, joining the lines with newlines
      and restoring a final newline gives back the text. */
  lemma LinesRoundTrip(s: string)
    requires '\r' !in s
    ensures Join(Lines(s), "\n") + (if |s| > 0 && s[|s| - 1] == '\n' then "\n" else "") == s
  {
    var pieces := Split(s, '\n');
    var n := |pieces|;
    var body := if pieces[n - 1] == "" then pieces[..n - 1] else pieces;
    assert Lines(s) == body by {
      NoCarriageReturnPieces(s);
      forall i | 0 <= i < |body| ensures Lines(s)[i] == body[i] {
        assert body[i] == pieces[i];
        assert StripCR(pieces[i]) == pieces[i];
        assert Lines(s)[i] == StripCR(pieces[i]);
      }
    }
    JoinSplit(s, '\n');
    SplitLastEmpty(s, '\n');
    if pieces[n - 1] == "" && n > 1 {
      assert pieces == body + [""];
      JoinSnoc(body, "", "\n");
    }
  }

  /** Every character of a piece comes from the split text. */
  lemma {:induction false} SplitPiecesFrom(s: string, c: char, i: nat)
    requires i < |Split(s, c)|
    ensures forall k :: 0 <= k < |Split(s, c)[i]| ==> Split(s, c)[i][k] in s
    decreases |s|
  {
    if |s| > 0 {
      var rest := Split(s[1..], c);
      if s[0] == c {
        if i > 0 { SplitPiecesFrom(s[1..], c, i - 1); }
      } else if i == 0 {
        SplitPiecesFrom(s[1..], c, 0);
      } else {
        SplitPiecesFrom(s[1..], c, i);
      }
    }
  }

  /** The lines of newline-joined, newline-free pieces whose last piece is
      not empty are those pieces, each with a trailing carriage return removed. */
  lemma LinesOfJoin(parts: seq<string>)
    requires |parts| > 0
    requires forall i :: 0 <= i < |parts| ==> '\n' !in parts[i]
    requires parts[|parts| - 1] != ""
    ensures Lines(Join(parts, "\n")) == seq(|parts|, i requires 0 <= i < |parts| => StripCR(parts[i]))
  {
    SplitJoin(parts, '\n');
  }

  // ---------------------------------------------------------------------
  // `split_whitespace`
  // ---------------------------------------------------------------------

  /** Rust's `char::is_whitespace`: the Unicode White_Space property. */
  predicate IsWhitespace(c: char)
  {
    ('\t' <= c <= '\r') || c == ' ' || c == '\U{85}' || c == '\U{A0}' || c == '\U{1680}'
    || ('\U{2000}' <= c <= '\U{200A}') || c == '\U{2028}' || c == '\U{2029}'
    || c == '\U{202F}' || c == '\U{205F}' || c == '\U{3000}'
  }

  /** A word: a non-empty run of non-whitespace characters. */
  predicate IsWord(w: string)
  {
    |w| > 0 && forall i :: 0 <= i < |w| ==> !IsWhitespace(w[i])
  }

  /** True when `s` has no non-whitespace character. */
  predicate IsBlank(s: string)
  {
    forall i :: 0 <= i < |s| ==> IsWhitespace(s[i])
  }

  /** Length of the run of non-whitespace characters that starts `s`. */
  function WordLength(s: string): (n: nat)
    ensures n <= |s|
    ensures forall i :: 0 <= i < n ==> !IsWhitespace(s[i])
    ensures n < |s| ==> IsWhitespace(s[n])
  {
    if |s| == 0 || IsWhitespace(s[0]) then 0 else 1 + WordLength(s[1..])
  }

  /** `s.split_whitespace()`: the maximal runs of non-whitespace characters,
      in order. */
  function Words(s: string): seq<string>
    decreases |s|
  {
    if |s| == 0 then []
    else if IsWhitespace(s[0]) then Words(s[1..])
    else
      var n := WordLength(s);
      [s[..n]] + Words(s[n..])
  }

  /** Every piece `split_whitespace` yields is a word. */
  lemma {:induction false} WordsAreWords(s: string)
    ensures forall i :: 0 <= i < |Words(s)| ==> IsWord(Words(s)[i])
    decreases |s|
  {
    if |s| > 0 {
      if IsWhitespace(s[0]) {
        WordsAreWords(s[1..]);
      } else {
        var n := WordLength(s);
        WordsAreWords(s[n..]);
        assert Words(s) == [s[..n]] + Words(s[n..]);
      }
    }
  }

  /** The characters of `s` that are not whitespace, in order. */
  function NonWhitespace(s: string): string
  {
    if |s| == 0 then ""
    else (if IsWhitespace(s[0]) then "" else [s[0]]) + NonWhitespace(s[1..])
  }

  lemma {:induction false} NonWhitespaceAppend(a: string, b: string)
    ensures NonWhitespace(a + b) == NonWhitespace(a) + NonWhitespace(b)
    decreases |a|
  {
    if |a| == 0 {
      assert a + b == b;
    } else {
      assert (a + b)[1..] == a[1..] + b;
      NonWhitespaceAppend(a[1..], b);
    }
  }

  lemma {:induction false} NonWhitespaceOfWord(w: string)
    requires forall i :: 0 <= i < |w| ==> !IsWhitespace(w[i])
    ensures NonWhitespace(w) == w
    decreases |w|
  {
    if |w| > 0 { NonWhitespaceOfWord(w[1..]); }
  }

  /** No character is added, dropped or reordered by `split_whitespace`
      except whitespace: the words laid end to end are the text's
      non-whitespace characters. */
  lemma {:induction false} WordsKeepText(s: string)
    ensures Concat(Words(s)) == NonWhitespace(s)
    decreases |s|
  {
    if |s| > 0 {
      if IsWhitespace(s[0]) {
        WordsKeepText(s[1..]);
      } else {
        var n := WordLength(s);
        WordsKeepText(s[n..]);
        ConcatCons(s[..n], Words(s[n..]));
        assert s == s[..n] + s[n..];
        NonWhitespaceAppend(s[..n], s[n..]);
        NonWhitespaceOfWord(s[..n]);
      }
    }
  }

  /** A text has no words exactly when it is blank. */
  lemma {:induction false} WordsEmptyIff(s: string)
    ensures Words(s) == [] <==> IsBlank(s)
    decreases |s|
  {
    if |s| > 0 {
      WordsEmptyIff(s[1..]);
      if IsWhitespace(s[0]) {
        if IsBlank(s[1..]) {
          forall i | 1 <= i < |s| ensures IsWhitespace(s[i]) {
            assert s[i] == s[1..][i - 1];
          }
        }
      }
    }
  }

  /** A word followed by whitespace (or nothing) is read off whole. */
  lemma {:induction false} WordLengthOfWord(w: string, rest: string)
    requires IsWord(w)
    requires |rest| == 0 || IsWhitespace(rest[0])
    ensures WordLength(w + rest) == |w|
    decreases |w|
  {
    assert (w + rest)[1..] == w[1..] + rest;
    if |w| > 1 {
      WordLengthOfWord(w[1..], rest);
    } else {
      assert w[1..] + rest == rest;
    }
  }

  /** Words joined by single spaces split back into the same words: joining
      adds, drops, trims and reorders nothing. */
  lemma {:induction false} WordsOfJoin(words: seq<string>)
    requires forall i :: 0 <= i < |words| ==> IsWord(words[i])
    ensures Words(Join(words, " ")) == words
    decreases |words|
  {
    if |words| == 1 {
      WordLengthOfWord(words[0], "");
      assert words[0] + "" == words[0];
      assert words[0][|words[0]|..] == "";
    } else if |words| > 1 {
      var w := words[0];
      var tail := Join(words[1..], " ");
      WordsOfJoin(words[1..]);
      var s := w + (" " + tail);
      assert Join(words, " ") == s;
      WordLengthOfWord(w, " " + tail);
      assert s[..|w|] == w;
      assert s[|w|..] == " " + tail;
      assert (" " + tail)[1..] == tail;
    }
  }

  /** A word on its own is read as that one word. */
  lemma WordsOfWord(w: string)
    requires IsWord(w)
    ensures Words(w) == [w]
  {
    WordLengthOfWord(w, "");
    assert w + "" == w;
    assert w[..|w|] == w && w[|w|..] == "";
  }

  /** A run of non-whitespace that stops inside `s` is not lengthened by
      text added after `s`. */
  lemma {:induction false} WordLengthPrefix(s: string, t: string)
    requires WordLength(s) < |s|
    ensures WordLength(s + t) == WordLength(s)
    decreases |s|
  {
    if !IsWhitespace(s[0]) {
      assert (s + t)[1..] == s[1..] + t;
      WordLengthPrefix(s[1..], t);
    }
  }

  /** Splitting at a whitespace character: the words of the text are the
      words before it followed by the words after it. With `Words("") ==
      []` and `WordsOfWord`, this determines `Words` on every text, so the
      words are exactly the maximal runs of non-whitespace. */
  lemma {:induction false} WordsSplitAt(a: string, b: string, c: char)
    requires IsWhitespace(c)
    ensures Words(a + [c] + b) == Words(a) + Words(b)
    decreases |a|
  {
    var s := a + [c] + b;
    if |a| == 0 {
      assert s == [c] + b && s[1..] == b;
    } else if IsWhitespace(a[0]) {
      assert s[1..] == a[1..] + [c] + b;
      WordsSplitAt(a[1..], b, c);
    } else {
      var n := WordLength(a);
      if n < |a| {
        assert s == a + ([c] + b);
        WordLengthPrefix(a, [c] + b);
        assert s[..n] == a[..n];
        assert s[n..] == a[n..] + [c] + b;
        WordsSplitAt(a[n..], b, c);
        AppendAssoc([a[..n]], Words(a[n..]), Words(b));
      } else {
        assert IsWord(a);
        WordLengthOfWord(a, [c] + b);
        assert s == a + ([c] + b);
        assert s[..n] == a && s[n..] == [c] + b;
        assert ([c] + b)[1..] == b;
        WordsOfWord(a);
      }
    }
  }
}
