/**
 * The two JavaScript string splits the assignment loader relies on:
 * `s.split(c)` for a one-character separator `c`, and `text.split(/\r?\n/)`.
 */
module TextSplit {

  /** The pieces of `s` between occurrences of `sep`, as `s.split(sep)` returns them
      for a one-character string separator: never empty, and one more piece than
      there are separators. */
  function SplitOn(s: string, sep: char): (parts: seq<string>)
    ensures |parts| >= 1
    ensures forall i :: 0 <= i < |parts| ==> sep !in parts[i]
    decreases |s|
  {
    if |s| == 0 then [""]
    else
      var rest := SplitOn(s[1..], sep);
      if s[0] == sep then [""] + rest
      else [[s[0]] + rest[0]] + rest[1..]
  }

  /** The inverse of `SplitOn`: the pieces glued back together with `sep` between them. */
  function Join(parts: seq<string>, sep: char): string
    requires |parts| >= 1
    decreases |parts|
  {
    if |parts| == 1 then parts[0] else parts[0] + [sep] + Join(parts[1..], sep)
  }

  /** Gluing the pieces of a split restores the original string. */
  lemma {:induction false} JoinSplitOn(s: string, sep: char)
    ensures Join(SplitOn(s, sep), sep) == s
    decreases |s|
  {
    if |s| > 0 {
      var rest := SplitOn(s[1..], sep);
      JoinSplitOn(s[1..], sep);
      var parts := SplitOn(s, sep);
      if s[0] == sep {
        assert parts[1..] == rest;
        assert s == [sep] + s[1..];
      } else if |rest| == 1 {
        assert parts == [[s[0]] + rest[0]];
        assert s == [s[0]] + s[1..];
      } else {
        assert parts[0] == [s[0]] + rest[0];
        assert parts[1..] == rest[1..];
        assert Join(rest, sep) == rest[0] + [sep] + Join(rest[1..], sep);
        assert s == [s[0]] + s[1..];
      }
    }
  }

  /** Splitting a string that starts with a separator-free prefix `a`: the prefix
      extends the first piece of the remainder. */
  lemma {:induction false} SplitOnPrefix(a: string, t: string, sep: char)
    requires sep !in a
    ensures SplitOn(a + t, sep) == [a + SplitOn(t, sep)[0]] + SplitOn(t, sep)[1..]
    decreases |a|
  {
    var p := SplitOn(t, sep);
    if |a| == 0 {
      assert a + t == t;
      assert a + p[0] == p[0];
      assert [p[0]] + p[1..] == p;
    } else {
      SplitOnPrefix(a[1..], t, sep);
      assert (a + t)[0] == a[0];
      assert (a + t)[1..] == a[1..] + t;
      assert [a[0]] + (a[1..] + p[0]) == a + p[0];
    }
  }

  /** Splitting separator-free pieces glued with the separator gives the pieces back. */
  lemma {:induction false} SplitOnJoin(parts: seq<string>, sep: char)
    requires |parts| >= 1
    requires forall i :: 0 <= i < |parts| ==> sep !in parts[i]
    ensures SplitOn(Join(parts, sep), sep) == parts
    decreases |parts|
  {
    if |parts| == 1 {
      SplitOnPrefix(parts[0], "", sep);
      assert parts[0] + "" == parts[0];
    } else {
      var tail := Join(parts[1..], sep);
      SplitOnJoin(parts[1..], sep);
      assert ([sep] + tail)[1..] == tail;
      assert SplitOn([sep] + tail, sep) == [""] + parts[1..];
      SplitOnPrefix(parts[0], [sep] + tail, sep);
      assert parts[0] + [sep] + tail == parts[0] + ([sep] + tail);
      assert parts[0] + "" == parts[0];
    }
  }

  /** Appending one more piece to a join appends a separator and that piece. */
  lemma {:induction false} JoinAppend(parts: seq<string>, last: string, sep: char)
    requires |parts| >= 1
    ensures Join(parts + [last], sep) == Join(parts, sep) + [sep] + last
    decreases |parts|
  {
    if |parts| == 1 {
      assert (parts + [last])[1..] == [last];
    } else {
      JoinAppend(parts[1..], last, sep);
      assert (parts + [last])[1..] == parts[1..] + [last];
    }
  }

  /** A string that ends with the separator splits into a last piece that is empty. */
  lemma EndsWithSeparator(s: string, sep: char)
    requires |s| > 0 && s[|s| - 1] == sep
    ensures SplitOn(s, sep) == SplitOn(s[..|s| - 1], sep) + [""]
  {
    var front := s[..|s| - 1];
    var parts := SplitOn(front, sep) + [""];
    JoinSplitOn(front, sep);
    JoinAppend(SplitOn(front, sep), "", sep);
    assert s == front + [sep] + "";
    assert forall i :: 0 <= i < |parts| ==> sep !in parts[i] by {
      forall i | 0 <= i < |parts|
        ensures sep !in parts[i]
      {
        if i < |parts| - 1 {
          assert parts[i] == SplitOn(front, sep)[i];
        }
      }
    }
    SplitOnJoin(parts, sep);
  }

  /** `line` without one carriage return at its end, if it has one. */
  function DropCR(line: string): string {
    if |line| > 0 && line[|line| - 1] == '\r' then line[..|line| - 1] else line
  }

  /** Drops one trailing carriage return from every piece except the last one:
      only a piece that was followed by a line feed can have lost its `\r` to
      the `\r?\n` separator. */
  function DropCRs(pieces: seq<string>): (lines: seq<string>)
    ensures |lines| == |pieces|
    ensures |pieces| > 0 ==> lines[|lines| - 1] == pieces[|pieces| - 1]
    ensures forall i :: 0 <= i < |lines| - 1 ==> lines[i] == DropCR(pieces[i])
    decreases |pieces|
  {
    if |pieces| <= 1 then pieces else [DropCR(pieces[0])] + DropCRs(pieces[1..])
  }

  /** The lines of `text`, as `text.split(/\r?\n/)` returns them. */
  function SplitLines(text: string): (lines: seq<string>)
    ensures |lines| == |SplitOn(text, '\n')| >= 1
    ensures forall i :: 0 <= i < |lines| ==> '\n' !in lines[i]
  {
    var pieces := SplitOn(text, '\n');
    var lines := DropCRs(pieces);
    assert forall i :: 0 <= i < |lines| ==> '\n' !in lines[i] by {
      forall i | 0 <= i < |lines|
        ensures '\n' !in lines[i]
      {
        if i < |lines| - 1 {
          assert '\n' !in pieces[i];
          assert lines[i] == DropCR(pieces[i]);
        }
      }
    }
    lines
  }

  /** The line splitter as a regular-expression engine runs it: scanning left to
      right, every position where `\r?\n` matches (preferring the two-character
      match) ends the current line; every other character joins it. */
  function RegexLines(text: string): (lines: seq<string>)
    ensures |lines| >= 1
    decreases |text|
  {
    if |text| == 0 then [""]
    else if text[0] == '\n' then [""] + RegexLines(text[1..])
    else if |text| >= 2 && text[0] == '\r' && text[1] == '\n' then [""] + RegexLines(text[2..])
    else
      var rest := RegexLines(text[1..]);
      [[text[0]] + rest[0]] + rest[1..]
  }

  /** A line feed at the front ends an empty first line. */
  lemma LinesAfterLineFeed(text: string)
    requires |text| > 0 && text[0] == '\n'
    ensures SplitLines(text) == [""] + SplitLines(text[1..])
  {
    var rest := SplitOn(text[1..], '\n');
    assert SplitOn(text, '\n') == [""] + rest;
    assert ([""] + rest)[1..] == rest;
  }

  /** A carriage return and line feed at the front end an empty first line. */
  lemma LinesAfterCRLF(text: string)
    requires |text| >= 2 && text[0] == '\r' && text[1] == '\n'
    ensures SplitLines(text) == [""] + SplitLines(text[2..])
  {
    var q := SplitOn(text[1..], '\n');
    assert text[1..][1..] == text[2..];
    assert q == [""] + SplitOn(text[2..], '\n');
    assert q[1..] == SplitOn(text[2..], '\n');
    var p := SplitOn(text, '\n');
    assert p == [['\r'] + q[0]] + q[1..];
    assert ['\r'] + q[0] == ['\r'];
    assert p[1..] == SplitOn(text[2..], '\n');
    assert DropCR(['\r']) == "";
  }

  /** Any other first character joins the first line of the rest. */
  lemma LinesAfterOrdinary(text: string)
    requires |text| > 0 && text[0] != '\n'
    requires !(|text| >= 2 && text[0] == '\r' && text[1] == '\n')
    ensures SplitLines(text) == [[text[0]] + SplitLines(text[1..])[0]] + SplitLines(text[1..])[1..]
  {
    var c := text[0];
    var q := SplitOn(text[1..], '\n');
    var p := SplitOn(text, '\n');
    assert p == [[c] + q[0]] + q[1..];
    if |q| == 1 {
      assert p == [[c] + q[0]];
    } else {
      assert p[1..] == q[1..];
      assert DropCRs(p) == [DropCR([c] + q[0])] + DropCRs(q[1..]);
      assert DropCRs(q) == [DropCR(q[0])] + DropCRs(q[1..]);
      if |q[0]| == 0 {
        // An empty first piece followed by more pieces means `text[1]` is a line
        // feed, so `c` is not a carriage return here.
        assert text[1] == '\n';
        assert DropCR([c] + q[0]) == [c];
      } else {
        assert ([c] + q[0])[..|[c] + q[0]| - 1] == [c] + q[0][..|q[0]| - 1];
      }
      assert DropCR([c] + q[0]) == [c] + DropCR(q[0]);
    }
  }

  /** Splitting on line feeds and dropping the carriage return before each one is
      exactly what the regular-expression split does. */
  lemma {:induction false} SplitLinesIsRegexSplit(text: string)
    ensures SplitLines(text) == RegexLines(text)
    decreases |text|
  {
    if |text| == 0 {
    } else if text[0] == '\n' {
      LinesAfterLineFeed(text);
      SplitLinesIsRegexSplit(text[1..]);
    } else if |text| >= 2 && text[0] == '\r' && text[1] == '\n' {
      LinesAfterCRLF(text);
      SplitLinesIsRegexSplit(text[2..]);
    } else {
      LinesAfterOrdinary(text);
      SplitLinesIsRegexSplit(text[1..]);
    }
  }
}
