/** Python's line splitting and joining. */
module Lines {
  import opened Common

  /** The characters `str.splitlines` breaks at. */
  predicate IsBoundary(c: char) {
    var n := c as int;
    10 <= n <= 13 || 28 <= n <= 30 || n == 0x85 || n == 0x2028 || n == 0x2029
  }

  predicate OneLine(s: string) {
    forall c :: c in s ==> !IsBoundary(c)
  }

  predicate AllOneLine(lines: seq<string>) {
    forall l :: l in lines ==> OneLine(l)
  }

  /** The length of the first line. */
  function LineEnd(s: string): (i: nat)
    ensures i <= |s|
    ensures OneLine(s[..i])
    ensures i < |s| ==> IsBoundary(s[i])
  {
    if s == "" || IsBoundary(s[0]) then 0
    else
      assert s[..1 + LineEnd(s[1..])] == [s[0]] + s[1..][..LineEnd(s[1..])];
      1 + LineEnd(s[1..])
  }

  /** Where the next line starts; a carriage return and a line feed are one break. */
  function NextLine(s: string): (i: nat)
    ensures i <= |s| && (s != "" ==> i > 0)
  {
    var i := LineEnd(s);
    if i == |s| then i
    else if s[i] == '\r' && i + 1 < |s| && s[i + 1] == '\n' then i + 2
    else i + 1
  }

  function SplitLines(s: string): seq<string>
    decreases |s|
  {
    if s == "" then [] else [s[..LineEnd(s)]] + SplitLines(s[NextLine(s)..])
  }

  function Join(lines: seq<string>): string {
    if lines == [] then ""
    else if |lines| == 1 then lines[0]
    else lines[0] + "\n" + Join(lines[1..])
  }

  /** A final empty line is lost when a joined text is split again. */
  function Settle(lines: seq<string>): seq<string> {
    if lines != [] && lines[|lines| - 1] == "" then lines[..|lines| - 1] else lines
  }

  lemma {:induction false} SplitOneLine(s: string)
    ensures AllOneLine(SplitLines(s))
    decreases |s|
  {
    if s != "" {
      SplitOneLine(s[NextLine(s)..]);
    }
  }

  lemma {:induction false} LineEndOf(line: string, rest: string)
    requires OneLine(line) && (rest != "" ==> IsBoundary(rest[0]))
    ensures LineEnd(line + rest) == |line|
  {
    if line == "" {
      assert line + rest == rest;
    } else {
      assert (line + rest)[1..] == line[1..] + rest;
      LineEndOf(line[1..], rest);
    }
  }

  lemma SplitFirst(line: string, rest: string)
    requires OneLine(line)
    ensures SplitLines(line + "\n" + rest) == [line] + SplitLines(rest)
  {
    var s := line + "\n" + rest;
    assert s == line + ("\n" + rest);
    LineEndOf(line, "\n" + rest);
    assert s[..|line|] == line && s[|line| + 1..] == rest;
  }

  /** Line feed, vertical tab, form feed, carriage return, the file, group and record separators,
      next line, line and paragraph separator. */
  const BREAKS := {'\n', '\U{0B}', '\U{0C}', '\r', '\U{1C}', '\U{1D}', '\U{1E}', '\U{85}', '\U{2028}', '\U{2029}'}

  lemma BoundaryIsBreak(c: char)
    ensures IsBoundary(c) <==> c in BREAKS
  {
  }

  /** A text splits after each of the ten breaks, a carriage return with its line feed being one,
      and nowhere else. */
  lemma SplitsAtBreaks(line: string, c: char, rest: string)
    requires (forall i :: 0 <= i < |line| ==> line[i] !in BREAKS) && c in BREAKS
    ensures SplitLines(line + [c] + rest) ==
      [line] + SplitLines(if c == '\r' && rest != "" && rest[0] == '\n' then rest[1..] else rest)
    ensures SplitLines(line) == if line == "" then [] else [line]
  {
    forall i | 0 <= i < |line| ensures !IsBoundary(line[i]) {
      BoundaryIsBreak(line[i]);
    }
    BoundaryIsBreak(c);
    var s := line + [c] + rest;
    assert s == line + ([c] + rest);
    LineEndOf(line, [c] + rest);
    assert s[..|line|] == line && s[|line|] == c && s[|line| + 1..] == rest;
    assert rest != "" ==> s[|line| + 1] == rest[0] && s[|line| + 2..] == rest[1..];
    SplitSingle(line);
  }

  lemma SplitSingle(line: string)
    requires OneLine(line)
    ensures SplitLines(line) == if line == "" then [] else [line]
  {
    assert line + "" == line;
    LineEndOf(line, "");
    if line != "" {
      assert line[|line|..] == "";
      assert line[..|line|] == line;
    }
  }

  /** Splitting undoes joining, up to one final empty line. */
  lemma {:induction false} SplitJoin(lines: seq<string>)
    requires AllOneLine(lines)
    ensures SplitLines(Join(lines)) == Settle(lines)
  {
    if |lines| == 1 {
      SplitSingle(lines[0]);
    } else if |lines| > 1 {
      SplitFirst(lines[0], Join(lines[1..]));
      SplitJoin(lines[1..]);
      assert lines == [lines[0]] + lines[1..];
      assert Settle(lines) == [lines[0]] + Settle(lines[1..]);
    }
  }

  // ----- appending to a text -----

  predicate EndsWithNewline(s: string) {
    s != "" && s[|s| - 1] == '\n'
  }

  lemma {:induction false} LineEndStays(s: string, rest: string)
    requires LineEnd(s) < |s|
    ensures LineEnd(s + rest) == LineEnd(s)
  {
    if !IsBoundary(s[0]) {
      assert (s + rest)[1..] == s[1..] + rest;
      LineEndStays(s[1..], rest);
    }
  }

  lemma FirstBreakStays(s: string, rest: string)
    requires LineEnd(s) < |s|
    requires LineEnd(s) + 1 == |s| && s[LineEnd(s)] == '\r' ==> rest == "" || rest[0] != '\n'
    ensures LineEnd(s + rest) == LineEnd(s) && NextLine(s + rest) == NextLine(s)
  {
    LineEndStays(s, rest);
  }

  /** Appending leaves the first line alone, unless it ends in a final carriage
      return that the appended text would complete. */
  lemma FirstLineStays(s: string, rest: string)
    requires LineEnd(s) < |s|
    requires LineEnd(s) + 1 == |s| && s[LineEnd(s)] == '\r' ==> rest == "" || rest[0] != '\n'
    ensures SplitLines(s + rest) == [s[..LineEnd(s)]] + SplitLines(s[NextLine(s)..] + rest)
  {
    FirstBreakStays(s, rest);
    SplitUnfold(s + rest);
    SliceAppend(s, rest, LineEnd(s));
    SliceAppend(s, rest, NextLine(s));
  }

  lemma SplitUnfold(s: string)
    requires s != ""
    ensures SplitLines(s) == [s[..LineEnd(s)]] + SplitLines(s[NextLine(s)..])
  {
  }

  lemma {:induction false} SplitAppend(s: string, rest: string)
    requires s == "" || EndsWithNewline(s)
    ensures SplitLines(s + rest) == SplitLines(s) + SplitLines(rest)
    decreases |s|
  {
    if s == "" {
      assert s + rest == rest;
    } else {
      LineIsProper(s);
      FirstLineStays(s, rest);
      TailEnds(s);
      var tail := s[NextLine(s)..];
      SplitAppend(tail, rest);
      SplitUnfold(s);
      Associative([s[..LineEnd(s)]], SplitLines(tail), SplitLines(rest));
    }
  }

  /** A text that ends with a newline has its first break inside. */
  lemma LineIsProper(s: string)
    requires EndsWithNewline(s)
    ensures LineEnd(s) < |s|
  {
    assert s[..|s|] == s;
  }

  lemma TailEnds(s: string)
    requires s != ""
    ensures NextLine(s) < |s| ==> s[NextLine(s)..] != "" && s[NextLine(s)..][|s| - NextLine(s) - 1] == s[|s| - 1]
  {
  }

  /** What one more newline adds to the lines of a text: an empty line, unless the text
      ends inside a line or with a carriage return that the newline completes. */
  function ExtraLine(s: string): seq<string> {
    if s == "" || (IsBoundary(s[|s| - 1]) && s[|s| - 1] != '\r') then [""] else []
  }

  lemma {:induction false} SplitNewline(s: string)
    ensures SplitLines(s + "\n") == SplitLines(s) + ExtraLine(s)
    decreases |s|
  {
    if s == "" {
      SplitFirst("", "");
      assert "" + "\n" + "" == s + "\n";
      assert SplitLines(s + "\n") == [""];
    } else if LineEnd(s) == |s| {
      OpenLine(s);
    } else if LineEnd(s) + 1 == |s| && s[|s| - 1] == '\r' {
      Unsnoc(s);
      CompletedBreak(s[..LineEnd(s)]);
    } else {
      var tail := s[NextLine(s)..];
      FirstLineStays(s, "\n");
      SplitNewline(tail);
      TailExtra(s);
      SplitUnfold(s);
      Associative([s[..LineEnd(s)]], SplitLines(tail), ExtraLine(s));
    }
  }

  lemma TailExtra(s: string)
    requires LineEnd(s) < |s| && !(LineEnd(s) + 1 == |s| && s[|s| - 1] == '\r')
    ensures ExtraLine(s[NextLine(s)..]) == ExtraLine(s)
  {
    TailExtraAt(s, LineEnd(s), NextLine(s));
  }

  lemma TailExtraAt(s: string, i: nat, next: nat)
    requires i < next <= |s| && IsBoundary(s[i]) && !(i + 1 == |s| && s[i] == '\r')
    requires next == i + 1 || (next == i + 2 && s[i + 1] == '\n')
    ensures ExtraLine(s[next..]) == ExtraLine(s)
  {
    if next < |s| {
      assert s[next..][|s| - next - 1] == s[|s| - 1];
    }
  }

  lemma OpenLine(s: string)
    requires s != "" && LineEnd(s) == |s|
    ensures SplitLines(s + "\n") == SplitLines(s) && ExtraLine(s) == []
  {
    assert s[..|s|] == s;
    SplitFirst(s, "");
    assert s + "\n" + "" == s + "\n";
    SplitSingle(s);
    assert s[|s| - 1] in s;
  }

  lemma CompletedBreak(line: string)
    requires OneLine(line)
    ensures SplitLines(line + "\r" + "\n") == SplitLines(line + "\r") && ExtraLine(line + "\r") == []
  {
    BrokenLine(line, "\r");
    BrokenLine(line, "\r\n");
    Associative(line, "\r", "\n");
    assert "\r" + "\n" == "\r\n";
  }

  /** A line with its break is that one line. */
  lemma BrokenLine(line: string, end: string)
    requires OneLine(line) && (end == "\r" || end == "\r\n")
    ensures SplitLines(line + end) == [line]
  {
    var s := line + end;
    LineEndOf(line, end);
    assert s[|line|] == '\r';
    assert NextLine(s) == |s|;
    SliceAppend(line, end, |line|);
    assert s[..|line|] == line && s[|s|..] == "";
  }

  // ----- texts whose only line break is the newline -----

  ghost predicate NewlinesOnly(s: string) {
    forall c :: c in s && IsBoundary(c) ==> c == '\n'
  }

  function TrimNewlines(s: string): string {
    if EndsWithNewline(s) then TrimNewlines(s[..|s| - 1]) else s
  }

  /** The lines without final empty ones. */
  function TrimBlank(lines: seq<string>): seq<string> {
    if lines != [] && lines[|lines| - 1] == "" then TrimBlank(lines[..|lines| - 1]) else lines
  }

  lemma {:induction false} TrimKeepsOthers(s: string, c: char)
    requires c != '\n'
    ensures c in TrimNewlines(s) <==> c in s
  {
    if EndsWithNewline(s) {
      TrimKeepsOthers(s[..|s| - 1], c);
      assert s == s[..|s| - 1] + [s[|s| - 1]];
    }
  }

  lemma TrimOneNewline(s: string)
    ensures TrimNewlines(s + "\n") == TrimNewlines(s)
  {
    assert (s + "\n")[..|s|] == s;
  }

  lemma {:induction false} JoinLast(lines: seq<string>, last: string)
    requires lines != []
    ensures Join(lines + [last]) == Join(lines) + "\n" + last
  {
    if |lines| > 1 {
      assert (lines + [last])[1..] == lines[1..] + [last];
      JoinLast(lines[1..], last);
    } else {
      assert (lines + [last])[1..] == [last];
    }
  }

  lemma {:induction false} JoinNewlinesOnly(lines: seq<string>)
    requires AllOneLine(lines)
    ensures NewlinesOnly(Join(lines))
  {
    if lines != [] {
      JoinNewlinesOnly(lines[1..]);
      assert OneLine(lines[0]);
      assert |lines| > 1 ==> forall c :: c in Join(lines) ==> c in lines[0] || c == '\n' || c in Join(lines[1..]);
    }
  }

  /** Final empty lines of a joined text are final newlines. */
  lemma {:induction false} TrimJoin(lines: seq<string>)
    ensures TrimNewlines(Join(lines)) == TrimNewlines(Join(TrimBlank(lines)))
  {
    if lines != [] && lines[|lines| - 1] == "" {
      var front := lines[..|lines| - 1];
      assert lines == front + [""];
      if front != [] {
        JoinLast(front, "");
        assert Join(front) + "\n" + "" == Join(front) + "\n";
        TrimOneNewline(Join(front));
      }
      TrimJoin(front);
    }
  }

  lemma CutAt(s: string, i: nat)
    requires i < |s| && s[i] == '\n'
    ensures s == s[..i] + "\n" + s[i + 1..]
  {
  }

  lemma JoinCons(line: string, lines: seq<string>)
    ensures Join([line] + lines) == if lines == [] then line else line + "\n" + Join(lines)
  {
    assert ([line] + lines)[1..] == lines;
  }

  /** Joining undoes splitting, up to one final newline, when there is no other break. */
  lemma {:induction false} JoinSplit(s: string)
    requires NewlinesOnly(s)
    ensures s == Join(SplitLines(s)) || s == Join(SplitLines(s)) + "\n"
    decreases |s|
  {
    var i := LineEnd(s);
    if i == |s| {
      assert s[..|s|] == s;
      SplitSingle(s);
    } else {
      assert s[i] in s && s[i] == '\n';
      var line, rest := s[..i], s[i + 1..];
      CutAt(s, i);
      SplitFirst(line, rest);
      JoinSplit(rest);
      JoinCons(line, SplitLines(rest));
      Associative(line + "\n", Join(SplitLines(rest)), "\n");
      assert rest == "" || SplitLines(rest) != [];
    }
  }

  /** Such a text is its lines, up to final newlines. */
  lemma TrimSplit(s: string)
    requires NewlinesOnly(s)
    ensures TrimNewlines(s) == TrimNewlines(Join(TrimBlank(SplitLines(s))))
  {
    JoinSplit(s);
    TrimOneNewline(Join(SplitLines(s)));
    TrimJoin(SplitLines(s));
  }
}
