/**
 * The line splitter: every non-empty line of the form `key: value` yields
 * its value with surrounding whitespace removed; other lines yield nothing.
 */
module Splitter {
  import opened Wrappers
  import opened Text

  /** A line as `str::lines` yields it: a `\r` is dropped only when it ended a `\r\n` pair. */
  function StripCr(line: string): (r: string)
    ensures r == line || (line == r + "\r")
  {
    if |line| > 0 && line[|line| - 1] == '\r' then line[..|line| - 1] else line
  }

  /**
   * `str::lines`: the pieces between line feeds, each without its line ending;
   * a final line feed does not start an empty last line, and the empty text has no lines.
   */
  function Lines(text: string): seq<string>
    decreases |text|
  {
    if text == [] then []
    else if '\n' !in text then [text]
    else
      var i := FirstIndex(text, '\n');
      [StripCr(text[..i])] + Lines(text[i + 1..])
  }

  /** No line holds a line feed, and only the empty text has no lines. */
  lemma {:induction false} LinesSpec(text: string)
    ensures forall i :: 0 <= i < |Lines(text)| ==> '\n' !in Lines(text)[i]
    ensures text == [] <==> Lines(text) == []
    decreases |text|
  {
    if text != [] && '\n' in text {
      var i := FirstIndex(text, '\n');
      var rest := text[i + 1..];
      LinesSpec(rest);
      var lines := Lines(text);
      assert lines == [StripCr(text[..i])] + Lines(rest);
      forall k | 0 <= k < |lines|
        ensures '\n' !in lines[k]
      {
        if k > 0 {
          assert lines[k] == Lines(rest)[k - 1];
        }
      }
    }
  }

  /** The line ending that `lines` drops from the end of the text, if any. */
  function FinalNewline(text: string): string {
    if text != [] && text[|text| - 1] == '\n' then "\n" else ""
  }

  /** The text around its first line feed, neither part with a carriage return. */
  lemma FirstLine(text: string) returns (line: string, rest: string)
    requires '\r' !in text && '\n' in text
    ensures text == line + "\n" + rest
    ensures '\n' !in line && '\r' !in line && '\r' !in rest
    ensures |rest| < |text|
  {
    var i := FirstIndex(text, '\n');
    line, rest := text[..i], text[i + 1..];
    assert text == line + "\n" + rest;
  }

  /** A text without line feeds is one line, or none when empty. */
  lemma JoinOneLine(text: string)
    requires '\n' !in text
    ensures Join(Lines(text), "\n") + FinalNewline(text) == text
  {
    if text != [] {
      assert Lines(text) == [text];
      assert text[|text| - 1] in text;
    }
  }

  /** The last line of a text that ends in a line feed. */
  lemma JoinLastLine(line: string)
    requires '\n' !in line && '\r' !in line
    ensures Join(Lines(line + "\n"), "\n") + FinalNewline(line + "\n") == line + "\n"
  {
    var text := line + "\n";
    assert text == line + "\n" + [];
    LinesCons(line, []);
    assert Lines(text) == [line];
    assert text[|text| - 1] == '\n';
  }

  lemma FinalOfCons(line: string, rest: string)
    requires rest != []
    ensures FinalNewline(line + "\n" + rest) == FinalNewline(rest)
  {
    var text := line + "\n" + rest;
    assert text[|text| - 1] == rest[|rest| - 1];
  }

  lemma Reassoc(a: string, b: string, c: string, d: string)
    ensures a + b + c + d == a + b + (c + d)
  {
  }

  /** One more line in front of a non-empty text that joins back. */
  lemma JoinLinesCons(line: string, rest: string)
    requires '\n' !in line && '\r' !in line && rest != []
    requires Join(Lines(rest), "\n") + FinalNewline(rest) == rest
    ensures Join(Lines(line + "\n" + rest), "\n") + FinalNewline(line + "\n" + rest) == line + "\n" + rest
  {
    LinesCons(line, rest);
    LinesSpec(rest);
    JoinCons(line, Lines(rest), "\n");
    FinalOfCons(line, rest);
    Reassoc(line, "\n", Join(Lines(rest), "\n"), FinalNewline(rest));
  }

  /** Lines joined back with line feeds give the text, when it has no carriage returns. */
  lemma {:induction false} JoinLines(text: string)
    requires '\r' !in text
    ensures Join(Lines(text), "\n") + FinalNewline(text) == text
    decreases |text|
  {
    if '\n' in text {
      var line, rest := FirstLine(text);
      if rest == [] {
        assert text == line + "\n";
        JoinLastLine(line);
      } else {
        JoinLines(rest);
        JoinLinesCons(line, rest);
      }
    } else {
      JoinOneLine(text);
    }
  }

  /** What one line contributes: nothing when empty or without ':', else the trimmed text after its first ':'. */
  function Entry(line: string): Option<string> {
    if line == [] then None
    else
      match SplitOnce(Trim(line), ':')
      case None => None
      case Some((_, value)) => Some(Trim(value))
  }

  /** `splitter` over a sequence of lines, in order. */
  function Collect(lines: seq<string>): seq<string>
    decreases |lines|
  {
    if lines == [] then []
    else
      var rest := Collect(lines[1..]);
      match Entry(lines[0])
      case None => rest
      case Some(value) => [value] + rest
  }

  /** `splitter`: the table names listed in `text`. */
  function TableNames(text: string): seq<string> {
    Collect(Lines(text))
  }

  /** The lines that contain a ':', in order. */
  function ColonLines(lines: seq<string>): (r: seq<string>)
    ensures forall i :: 0 <= i < |r| ==> ':' in r[i]
    decreases |lines|
  {
    if lines == [] then []
    else (if ':' in lines[0] then [lines[0]] else []) + ColonLines(lines[1..])
  }

  /** The trimmed text after the first ':' of the trimmed line. */
  function ValueOf(line: string): string {
    match SplitOnce(Trim(line), ':')
    case Some((_, value)) => Trim(value)
    case None => ""
  }

  /** A line contributes exactly when it contains a ':', and then its value. */
  lemma EntrySpec(line: string)
    ensures Entry(line).Some? <==> ':' in line
    ensures ':' in line ==> Entry(line) == Some(ValueOf(line))
  {
    TrimKeeps(line, ':');
  }

  /** `f` applied to each element, in order. */
  function Map<A, B>(f: A -> B, s: seq<A>): seq<B>
    decreases |s|
  {
    if s == [] then [] else [f(s[0])] + Map(f, s[1..])
  }

  /** One result per element, the i-th from the i-th. */
  lemma {:induction false} MapSpec<A, B>(f: A -> B, s: seq<A>)
    ensures |Map(f, s)| == |s|
    ensures forall i :: 0 <= i < |s| ==> Map(f, s)[i] == f(s[i])
    decreases |s|
  {
    if s != [] {
      var tail := s[1..];
      MapSpec(f, tail);
      var r, rest := Map(f, s), Map(f, tail);
      assert r == [f(s[0])] + rest;
      forall i | 1 <= i < |s|
        ensures r[i] == f(s[i])
      {
        assert r[i] == rest[i - 1] && s[i] == tail[i - 1];
      }
    }
  }

  lemma ValueTrimmed(line: string)
    ensures Trimmed(ValueOf(line))
  {
  }

  /**
   * The filter-then-map reading of `splitter`: keep the lines that contain a
   * ':', then take the value of each.
   */
  lemma {:induction false} CollectSpec(lines: seq<string>)
    ensures Collect(lines) == Map(ValueOf, ColonLines(lines))
    decreases |lines|
  {
    if lines != [] {
      CollectSpec(lines[1..]);
      EntrySpec(lines[0]);
      if ':' in lines[0] {
        assert ColonLines(lines) == [lines[0]] + ColonLines(lines[1..]);
        assert ([lines[0]] + ColonLines(lines[1..]))[1..] == ColonLines(lines[1..]);
      } else {
        assert ColonLines(lines) == ColonLines(lines[1..]);
      }
    }
  }

  /** `splitter` yields, in order, the trimmed value of each line that contains a ':', and nothing else. */
  lemma TableNamesSpec(text: string)
    ensures var colon := ColonLines(Lines(text));
            |TableNames(text)| == |colon|
            && forall i :: 0 <= i < |colon| ==> TableNames(text)[i] == ValueOf(colon[i]) && Trimmed(TableNames(text)[i])
  {
    var colon := ColonLines(Lines(text));
    CollectSpec(Lines(text));
    MapSpec(ValueOf, colon);
    forall i | 0 <= i < |colon|
      ensures Trimmed(ValueOf(colon[i]))
    {
      ValueTrimmed(colon[i]);
    }
  }

  predicate AllWhitespace(ws: string) {
    forall k :: 0 <= k < |ws| ==> IsWhitespace(ws[k])
  }

  lemma {:induction false} TrimStartPadded(ws: string, s: string)
    requires AllWhitespace(ws)
    requires s == [] || !IsWhitespace(s[0])
    ensures TrimStart(ws + s) == s
    decreases |ws|
  {
    if ws != [] {
      assert (ws + s)[1..] == ws[1..] + s;
      TrimStartPadded(ws[1..], s);
    } else {
      assert ws + s == s;
    }
  }

  /** Leading whitespace in front of a trimmed string is all that trimming removes. */
  lemma TrimPadded(ws: string, s: string)
    requires AllWhitespace(ws) && Trimmed(s)
    ensures Trim(ws + s) == s
  {
    TrimStartPadded(ws, s);
    TrimStartPadded([], s);
    assert [] + s == s;
    TrimOfTrimmed(s);
  }

  /** The first ':' of `key + ":" + rest` is the one after `key`. */
  lemma SplitOnceAfter(key: string, rest: string)
    requires ':' !in key
    ensures SplitOnce(key + ":" + rest, ':') == Some((key, rest))
  {
    var s := key + ":" + rest;
    assert s[|key|] == ':' && s[..|key|] == key;
    assert FirstIndex(s, ':') == |key|;
    assert s[|key| + 1..] == rest;
  }

  lemma TrimPair(ws: string, key: string, value: string)
    requires AllWhitespace(ws)
    requires key != [] && Trimmed(key)
    requires value != [] && Trimmed(value)
    ensures Trim(ws + key + ": " + value) == key + ":" + (" " + value)
  {
    var core := key + ":" + (" " + value);
    assert ws + key + ": " + value == ws + core;
    assert core[0] == key[0] && core[|core| - 1] == value[|value| - 1];
    assert Trimmed(core);
    TrimPadded(ws, core);
  }

  lemma TrimSpaced(value: string)
    requires Trimmed(value)
    ensures Trim(" " + value) == value
  {
    assert AllWhitespace(" ");
    TrimPadded(" ", value);
  }

  /** An indented `key: value` line contributes its value. */
  lemma EntryOfPair(ws: string, key: string, value: string)
    requires AllWhitespace(ws)
    requires key != [] && Trimmed(key) && ':' !in key
    requires value != [] && Trimmed(value)
    ensures Entry(ws + key + ": " + value) == Some(value)
  {
    var line := ws + key + ": " + value;
    assert line != [];
    TrimPair(ws, key, value);
    SplitOnceAfter(key, " " + value);
    TrimSpaced(value);
  }

  /** The text of the splitter test: a blank first line, three entries and a blank last line. */
  const ENTRY0: string := "    0: a.tb1"
  const ENTRY1: string := "    1: a.tb2"
  const ENTRY2: string := "    2: a.tb3"
  const LAST: string := "    "
  const TAIL2: string := ENTRY2 + "\n" + LAST
  const TAIL1: string := ENTRY1 + "\n" + TAIL2
  const TAIL0: string := ENTRY0 + "\n" + TAIL1
  const TEST_INPUT: string := "" + "\n" + TAIL0

  /** A line ending in a line feed comes off the front of the text. */
  lemma LinesCons(line: string, rest: string)
    requires '\n' !in line && '\r' !in line
    ensures Lines(line + "\n" + rest) == [line] + Lines(rest)
  {
    var text := line + "\n" + rest;
    assert text[|line|] == '\n';
    assert text[..|line|] == line;
    assert FirstIndex(text, '\n') == |line|;
    assert text[|line| + 1..] == rest;
  }

  /** A test line: an indented digit key and a table name ending in a digit. */
  lemma TestEntry(d: char, n: char)
    requires '0' <= d <= '9' && '0' <= n <= '9'
    ensures Entry("    " + [d] + ": " + ("a.tb" + [n])) == Some("a.tb" + [n])
  {
    var value := "a.tb" + [n];
    assert AllWhitespace("    ");
    assert value[0] == 'a' && value[|value| - 1] == n;
    EntryOfPair("    ", [d], value);
  }

  lemma TestEntry0()
    ensures Entry(ENTRY0) == Some("a.tb1")
  {
    assert ENTRY0 == "    " + ['0'] + ": " + ("a.tb" + ['1']);
    assert "a.tb1" == "a.tb" + ['1'];
    TestEntry('0', '1');
  }

  lemma TestEntry1()
    ensures Entry(ENTRY1) == Some("a.tb2")
  {
    assert ENTRY1 == "    " + ['1'] + ": " + ("a.tb" + ['2']);
    assert "a.tb2" == "a.tb" + ['2'];
    TestEntry('1', '2');
  }

  lemma TestEntry2()
    ensures Entry(ENTRY2) == Some("a.tb3")
  {
    assert ENTRY2 == "    " + ['2'] + ": " + ("a.tb" + ['3']);
    assert "a.tb3" == "a.tb" + ['3'];
    TestEntry('2', '3');
  }

  /** The blank last line yields nothing. */
  lemma TestLast()
    ensures TableNames(LAST) == []
  {
    assert ':' !in LAST && '\n' !in LAST;
    EntrySpec(LAST);
    assert Lines(LAST) == [LAST];
    assert [LAST][1..] == [];
  }

  /** The first line's contribution comes first. */
  lemma CollectCons(line: string, rest: seq<string>)
    ensures Collect([line] + rest) == (if Entry(line).Some? then [Entry(line).value] else []) + Collect(rest)
  {
    assert ([line] + rest)[1..] == rest;
  }

  /** One more line of the test text, holding an entry, in front of a tail whose names are known. */
  lemma TestStep(line: string, value: string, tail: string, names: seq<string>)
    requires '\n' !in line && '\r' !in line
    requires Entry(line) == Some(value)
    requires TableNames(tail) == names
    ensures TableNames(line + "\n" + tail) == [value] + names
  {
    LinesCons(line, tail);
    CollectCons(line, Lines(tail));
  }

  lemma TestNoBreaks()
    ensures '\n' !in ENTRY0 && '\r' !in ENTRY0
    ensures '\n' !in ENTRY1 && '\r' !in ENTRY1
    ensures '\n' !in ENTRY2 && '\r' !in ENTRY2
  {
  }

  /** Two entry lines in front of a last line without a name give the two names, in order. */
  lemma TwoEntries(e1: string, e2: string, last: string, v1: string, v2: string)
    requires '\n' !in e1 && '\r' !in e1 && Entry(e1) == Some(v1)
    requires '\n' !in e2 && '\r' !in e2 && Entry(e2) == Some(v2)
    requires TableNames(last) == []
    ensures TableNames(e1 + "\n" + (e2 + "\n" + last)) == [v1, v2]
  {
    TestStep(e2, v2, last, []);
    assert [v2] + [] == [v2];
    TestStep(e1, v1, e2 + "\n" + last, [v2]);
  }

  /** Three entry lines in front of a last line without a name give the three names, in order. */
  lemma ThreeEntries(e0: string, e1: string, e2: string, last: string, v0: string, v1: string, v2: string)
    requires '\n' !in e0 && '\r' !in e0 && Entry(e0) == Some(v0)
    requires '\n' !in e1 && '\r' !in e1 && Entry(e1) == Some(v1)
    requires '\n' !in e2 && '\r' !in e2 && Entry(e2) == Some(v2)
    requires TableNames(last) == []
    ensures TableNames(e0 + "\n" + (e1 + "\n" + (e2 + "\n" + last))) == [v0, v1, v2]
  {
    TwoEntries(e1, e2, last, v1, v2);
    TestStep(e0, v0, e1 + "\n" + (e2 + "\n" + last), [v1, v2]);
  }

  lemma TestTail0()
    ensures TableNames(TAIL0) == ["a.tb1", "a.tb2", "a.tb3"]
  {
    TestNoBreaks();
    TestLast();
    TestEntry0();
    TestEntry1();
    TestEntry2();
    ThreeEntries(ENTRY0, ENTRY1, ENTRY2, LAST, "a.tb1", "a.tb2", "a.tb3");
  }

  /** The splitter test: three values, the first "a.tb1" and the last "a.tb3". */
  lemma SplitterTestVector()
    ensures TableNames(TEST_INPUT) == ["a.tb1", "a.tb2", "a.tb3"]
  {
    TestTail0();
    LinesCons("", TAIL0);
    CollectCons("", Lines(TAIL0));
    EntrySpec("");
  }
}
