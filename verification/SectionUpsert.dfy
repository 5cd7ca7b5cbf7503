/** Inserting or replacing a section of a Markdown text by its header, as a lens. */
module SectionUpsert {
  import opened Common
  import opened Lines

  function Lower(s: string): string {
    seq(|s|, i requires 0 <= i < |s| => if 'A' <= s[i] <= 'Z' then (s[i] as int + 32) as char else s[i])
  }

  predicate IsHeader(line: string, header: string) {
    Lower(Strip(line)) == Lower(Strip(header))
  }

  /** A heading of the same or a higher level. */
  predicate IsHeading(line: string) {
    "## " <= line || "# " <= line
  }

  /** The first line that is the header, or the number of lines. */
  function FindHeader(lines: seq<string>, header: string): (i: nat)
    ensures i <= |lines|
  {
    if lines == [] || IsHeader(lines[0], header) then 0 else 1 + FindHeader(lines[1..], header)
  }

  /** How many lines precede the first heading. */
  function BodyLength(lines: seq<string>): (i: nat)
    ensures i <= |lines|
  {
    if lines == [] || IsHeading(lines[0]) then 0 else 1 + BodyLength(lines[1..])
  }

  /** The text around a section; without one, everything is before. */
  datatype Parsed = Parsed(before: seq<string>, section: Option<seq<string>>, after: seq<string>)

  function Parse(lines: seq<string>, header: string): Parsed {
    var i := FindHeader(lines, header);
    if i == |lines| then Parsed(lines, None, [])
    else
      var n := BodyLength(lines[i + 1..]);
      Parsed(lines[..i], Some(lines[i + 1..i + 1 + n]), lines[i + 1 + n..])
  }

  function Appended(text: string, header: string, body: string): string {
    (if EndsWithNewline(text) then text else text + "\n") + "\n" + header + "\n" + body + "\n"
  }

  function Upsert(text: string, header: string, body: string): string {
    var p := Parse(SplitLines(text), header);
    if p.section.None? then Appended(text, header, body)
    else Join(p.before + [header] + SplitLines(body) + p.after)
  }

  method ScanForHeader(lines: seq<string>, header: string) returns (start: nat)
    ensures start == FindHeader(lines, header)
  {
    start := 0;
    while start < |lines| && !IsHeader(lines[start], header)
      invariant start <= |lines|
      invariant FindHeader(lines, header) == start + FindHeader(lines[start..], header)
    {
      start := start + 1;
    }
  }

  method ScanForHeading(lines: seq<string>, start: nat) returns (end: nat)
    requires start < |lines|
    ensures end == start + 1 + BodyLength(lines[start + 1..])
  {
    end := start + 1;
    while end < |lines| && !IsHeading(lines[end])
      invariant start < end <= |lines|
      invariant BodyLength(lines[start + 1..]) == end - start - 1 + BodyLength(lines[end..])
    {
      end := end + 1;
    }
  }

  /** The section update as the code performs it. */
  method UpsertSection(text: string, header: string, body: string) returns (result: string)
    ensures result == Upsert(text, header, body)
  {
    var lines := SplitLines(text);
    var start := ScanForHeader(lines, header);
    if start == |lines| {
      result := text;
      if !EndsWithNewline(text) {
        result := result + "\n";
      }
      result := result + "\n" + header + "\n" + body + "\n";
      return;
    }
    var end := ScanForHeading(lines, start);
    var updated := lines[..start];
    updated := updated + [header];
    updated := updated + SplitLines(body);
    updated := updated + lines[end..];
    result := Join(updated);
  }

  // ----- parsing an assembled text -----

  ghost predicate NoHeader(lines: seq<string>, header: string) {
    forall l :: l in lines ==> !IsHeader(l, header)
  }

  ghost predicate NoHeading(lines: seq<string>) {
    forall l :: l in lines ==> !IsHeading(l)
  }

  predicate StartsSection(lines: seq<string>) {
    lines == [] || IsHeading(lines[0])
  }

  lemma {:induction false} FindHeaderAt(before: seq<string>, rest: seq<string>, header: string)
    requires NoHeader(before, header)
    ensures FindHeader(before + rest, header) == |before| + FindHeader(rest, header)
  {
    if before == [] {
      assert before + rest == rest;
    } else {
      assert (before + rest)[1..] == before[1..] + rest;
      FindHeaderAt(before[1..], rest, header);
    }
  }

  lemma {:induction false} BodyLengthAt(section: seq<string>, after: seq<string>)
    requires NoHeading(section) && StartsSection(after)
    ensures BodyLength(section + after) == |section|
  {
    if section == [] {
      assert section + after == after;
    } else {
      assert (section + after)[1..] == section[1..] + after;
      BodyLengthAt(section[1..], after);
    }
  }

  /** A text put together around a header is taken apart the same way. */
  lemma ParseAssembled(before: seq<string>, head: string, section: seq<string>, after: seq<string>, header: string)
    requires NoHeader(before, header) && IsHeader(head, header) && NoHeading(section) && StartsSection(after)
    ensures Parse(before + [head] + section + after, header) == Parsed(before, Some(section), after)
  {
    AssembledPieces(before, head, section, after);
    FindHeaderAt(before, [head] + section + after, header);
    BodyLengthAt(section, after);
  }

  lemma AssembledPieces<T>(before: seq<T>, head: T, section: seq<T>, after: seq<T>)
    ensures var lines, i := before + [head] + section + after, |before|;
      && lines == before + ([head] + section + after)
      && lines[..i] == before && lines[i] == head && lines[i + 1..] == section + after
      && lines[i + 1..i + 1 + |section|] == section && lines[i + 1 + |section|..] == after
  {
  }

  lemma {:induction false} HeaderFirst(lines: seq<string>, header: string)
    ensures var i := FindHeader(lines, header);
      NoHeader(lines[..i], header) && (i < |lines| ==> IsHeader(lines[i], header))
  {
    if lines != [] && !IsHeader(lines[0], header) {
      HeaderFirst(lines[1..], header);
      var i := FindHeader(lines[1..], header);
      assert lines[..i + 1] == [lines[0]] + lines[1..][..i];
    }
  }

  lemma {:induction false} BodyHasNoHeading(lines: seq<string>)
    ensures NoHeading(lines[..BodyLength(lines)]) && StartsSection(lines[BodyLength(lines)..])
  {
    if lines != [] && !IsHeading(lines[0]) {
      BodyHasNoHeading(lines[1..]);
      var n := BodyLength(lines[1..]);
      assert lines[..n + 1] == [lines[0]] + lines[1..][..n];
      assert lines[n + 1..] == lines[1..][n..];
    }
  }

  /** What every parse satisfies. */
  lemma ParseFacts(lines: seq<string>, header: string)
    ensures var p := Parse(lines, header);
      && NoHeader(p.before, header) && StartsSection(p.after)
      && (p.section.None? ==> p.before == lines && p.after == [])
      && (p.section.Some? ==> NoHeading(p.section.value))
      && (forall l :: l in p.before || l in p.after ==> l in lines)
  {
    var i := FindHeader(lines, header);
    HeaderFirst(lines, header);
    if i < |lines| {
      var rest := lines[i + 1..];
      BodyHasNoHeading(rest);
      var n := BodyLength(rest);
      assert rest[..n] == lines[i + 1..i + 1 + n] && rest[n..] == lines[i + 1 + n..];
    } else {
      assert lines[..i] == lines;
    }
  }

  /** Equal but for the case of ASCII letters. */
  predicate SameIgnoringCase(a: string, b: string) {
    |a| == |b| && forall i :: 0 <= i < |a| ==>
      || a[i] == b[i]
      || ('A' <= a[i] <= 'Z' && b[i] as int == a[i] as int + 32)
      || ('A' <= b[i] <= 'Z' && a[i] as int == b[i] as int + 32)
  }

  lemma LowerIsSame(a: string, b: string)
    ensures Lower(a) == Lower(b) <==> SameIgnoringCase(a, b)
  {
    if Lower(a) == Lower(b) {
      forall i | 0 <= i < |a|
        ensures a[i] == b[i] || ('A' <= a[i] <= 'Z' && b[i] as int == a[i] as int + 32) || ('A' <= b[i] <= 'Z' && a[i] as int == b[i] as int + 32)
      {
        assert Lower(a)[i] == Lower(b)[i];
      }
    }
  }

  /** One or two hash marks and a blank. */
  predicate OpensSection(line: string) {
    |line| >= 2 && line[0] == '#' && (line[1] == ' ' || (|line| >= 3 && line[1] == '#' && line[2] == ' '))
  }

  predicate IsHeadOf(line: string, header: string) {
    SameIgnoringCase(Strip(line), Strip(header))
  }

  /** What the section is: it starts after the first line equal to the header but for case and
      surrounding blanks, and reaches to the next line that opens a section of either level;
      deeper headings belong to it. */
  lemma ParsesExactly(lines: seq<string>, header: string, before: seq<string>, section: seq<string>, after: seq<string>)
    ensures Parse(lines, header) == Parsed(before, Some(section), after) <==>
      && (exists head :: lines == before + [head] + section + after && IsHeadOf(head, header))
      && (forall l :: l in before ==> !IsHeadOf(l, header))
      && (forall l :: l in section ==> !OpensSection(l))
      && (after == [] || OpensSection(after[0]))
  {
    forall l: string ensures IsHeadOf(l, header) <==> IsHeader(l, header) {
      LowerIsSame(Strip(l), Strip(header));
    }
    forall l: string ensures OpensSection(l) <==> IsHeading(l) {
      HeadingOpens(l);
    }
    if Parse(lines, header) == Parsed(before, Some(section), after) {
      ParseFacts(lines, header);
      ParsePieces(lines, header);
    } else {
      forall head | lines == before + [head] + section + after && IsHeader(head, header)
        ensures !(NoHeader(before, header) && NoHeading(section) && StartsSection(after))
      {
        if NoHeader(before, header) && NoHeading(section) && StartsSection(after) {
          ParseAssembled(before, head, section, after, header);
        }
      }
    }
  }

  lemma HeadingOpens(l: string)
    ensures OpensSection(l) <==> IsHeading(l)
  {
    assert "## " <= l <==> |l| >= 3 && l[0] == '#' && l[1] == '#' && l[2] == ' ';
    assert "# " <= l <==> |l| >= 2 && l[0] == '#' && l[1] == ' ';
  }

  lemma ParsePieces(lines: seq<string>, header: string)
    requires Parse(lines, header).section.Some?
    ensures var p := Parse(lines, header);
      exists head :: lines == p.before + [head] + p.section.value + p.after && IsHeader(head, header)
  {
    var i := FindHeader(lines, header);
    var n := BodyLength(lines[i + 1..]);
    HeaderFirst(lines, header);
    assert lines == lines[..i] + [lines[i]] + lines[i + 1..i + 1 + n] + lines[i + 1 + n..];
  }

  /** And there is none exactly when no line is the header. */
  lemma ParsesNoneExactly(lines: seq<string>, header: string)
    ensures Parse(lines, header).section == None <==> forall l :: l in lines ==> !IsHeadOf(l, header)
  {
    HeaderFirst(lines, header);
    forall l: string ensures IsHeadOf(l, header) <==> IsHeader(l, header) {
      LowerIsSame(Strip(l), Strip(header));
    }
    var i := FindHeader(lines, header);
    if i == |lines| {
      assert lines[..i] == lines;
    } else {
      assert lines[i] in lines;
    }
  }

  // ----- the laws -----

  /** A one-line header that is not blank. */
  predicate GoodHeader(header: string) {
    OneLine(header) && Strip(header) != ""
  }

  ghost predicate GoodBody(body: string) {
    NoHeading(SplitLines(body))
  }

  function Section(text: string, header: string): Option<seq<string>> {
    Parse(SplitLines(text), header).section
  }

  /** The blank lines an append puts before a new header. */
  function Gap(text: string): seq<string> {
    (if EndsWithNewline(text) then [] else ExtraLine(text)) + [""]
  }

  lemma SectionLines(header: string, body: string)
    requires OneLine(header)
    ensures SplitLines("\n" + header + "\n" + body + "\n") == [""] + ([header] + (SplitLines(body) + ExtraLine(body)))
  {
    var rest := header + "\n" + (body + "\n");
    Lines.SplitFirst("", rest);
    Lines.SplitFirst(header, body + "\n");
    SplitNewline(body);
    SectionText(header, body);
  }

  lemma SectionText(header: string, body: string)
    ensures "\n" + header + "\n" + body + "\n" == "" + "\n" + (header + "\n" + (body + "\n"))
  {
    var a, b := "\n" + header + "\n" + body + "\n", "" + "\n" + (header + "\n" + (body + "\n"));
    assert |a| == |b|;
    assert forall i :: 0 <= i < |a| ==> a[i] == b[i];
  }

  /** The lines after an append. */
  lemma AppendedLines(text: string, header: string, body: string)
    requires OneLine(header)
    ensures SplitLines(Appended(text, header, body))
         == SplitLines(text) + Gap(text) + [header] + (SplitLines(body) + ExtraLine(body))
  {
    var base := if EndsWithNewline(text) then text else text + "\n";
    var tail := "\n" + header + "\n" + body + "\n";
    if !EndsWithNewline(text) {
      SplitNewline(text);
    }
    AppendedText(base, header, body);
    SplitAppend(base, tail);
    SectionLines(header, body);
    Regroup(SplitLines(text), if EndsWithNewline(text) then [] else ExtraLine(text), [header], SplitLines(body) + ExtraLine(body));
    assert EndsWithNewline(text) ==> SplitLines(text) + [] == SplitLines(text);
  }

  lemma AppendedText(base: string, header: string, body: string)
    ensures base + "\n" + header + "\n" + body + "\n" == base + ("\n" + header + "\n" + body + "\n")
  {
    Associative("\n" + header + "\n", body, "\n");
    Associative(base + "\n" + header + "\n", body, "\n");
    Associative("\n" + header, "\n", body + "\n");
    Associative(base, "\n" + header, "\n");
    Associative(base, "\n" + header + "\n", body + "\n");
    Associative(base, "\n", header);
  }

  lemma Regroup(a: seq<string>, b: seq<string>, c: seq<string>, d: seq<string>)
    ensures a + b + ([""] + (c + d)) == a + (b + [""]) + c + d
  {
  }

  lemma BlankIsNoHeader(header: string)
    requires GoodHeader(header)
    ensures !IsHeader("", header) && header != ""
  {
    assert |Lower(Strip(header))| == |Strip(header)|;
  }

  lemma AllOneLineConcat(a: seq<string>, b: seq<string>)
    requires AllOneLine(a) && AllOneLine(b)
    ensures AllOneLine(a + b)
  {
  }

  /** The lines after a replacement. */
  lemma ReplacedLines(text: string, header: string, body: string)
    requires GoodHeader(header) && Section(text, header).Some?
    ensures var p := Parse(SplitLines(text), header);
      SplitLines(Upsert(text, header, body)) == Settle(p.before + [header] + SplitLines(body) + p.after)
  {
    var p := Parse(SplitLines(text), header);
    ParseFacts(SplitLines(text), header);
    SplitOneLine(text);
    SplitOneLine(body);
    AllOneLineConcat(p.before, [header]);
    AllOneLineConcat(p.before + [header], SplitLines(body));
    AllOneLineConcat(p.before + [header] + SplitLines(body), p.after);
    SplitJoin(p.before + [header] + SplitLines(body) + p.after);
  }

  /** Settling an assembled text settles its last part. */
  lemma SettleAssembled(before: seq<string>, header: string, section: seq<string>, after: seq<string>)
    requires header != "" && StartsSection(after)
    ensures Settle(before + [header] + section + after) ==
      if after == [] then before + [header] + Settle(section) + []
      else before + [header] + section + Settle(after)
    ensures StartsSection(Settle(after))
  {
    var lines := before + [header] + section + after;
    if after == [] {
      assert lines == before + [header] + section;
      if section != [] {
        assert lines[|lines| - 1] == section[|section| - 1];
      }
    } else {
      assert lines[|lines| - 1] == after[|after| - 1];
    }
  }

  /** What a replacement leaves, in full: the text around the section, up to one final
      empty line, and the new body, which loses a final empty line at the very end. */
  lemma ReplaceParses(text: string, header: string, body: string)
    requires GoodHeader(header) && GoodBody(body) && Section(text, header).Some?
    ensures var p := Parse(SplitLines(text), header);
      Parse(SplitLines(Upsert(text, header, body)), header) ==
        if p.after == [] then Parsed(p.before, Some(Settle(SplitLines(body))), [])
        else Parsed(p.before, Some(SplitLines(body)), Settle(p.after))
  {
    var p := Parse(SplitLines(text), header);
    ParseFacts(SplitLines(text), header);
    ReplacedLines(text, header, body);
    BlankIsNoHeader(header);
    SettleAssembled(p.before, header, SplitLines(body), p.after);
    if p.after == [] {
      ParseAssembled(p.before, header, Settle(SplitLines(body)), [], header);
    } else {
      ParseAssembled(p.before, header, SplitLines(body), Settle(p.after), header);
    }
  }

  /** What an append leaves, in full. */
  lemma AppendParses(text: string, header: string, body: string)
    requires GoodHeader(header) && GoodBody(body) && Section(text, header).None?
    ensures Parse(SplitLines(Upsert(text, header, body)), header)
         == Parsed(SplitLines(text) + Gap(text), Some(SplitLines(body) + ExtraLine(body)), [])
  {
    ParseFacts(SplitLines(text), header);
    AppendedLines(text, header, body);
    BlankIsNoHeader(header);
    var before, section := SplitLines(text) + Gap(text), SplitLines(body) + ExtraLine(body);
    assert before + [header] + section == before + [header] + section + [];
    ParseAssembled(before, header, section, [], header);
  }

  lemma SettleSame(lines: seq<string>)
    ensures Settle(lines) == lines <==> (lines == [] || lines[|lines| - 1] != "")
  {
  }

  lemma ExtendSame(lines: seq<string>, more: seq<string>)
    ensures lines + more == lines <==> more == []
  {
    assert |lines + more| == |lines| + |more|;
  }

  /** Where a put body keeps all its lines and gains none: not ending in an empty line
      at the end of a replaced text, nor in a line break (or nothing) when appended. */
  predicate BodySurvives(p: Parsed, body: string) {
    if p.section.Some? then p.after != [] || SplitLines(body) == [] || SplitLines(body)[|SplitLines(body)| - 1] != ""
    else ExtraLine(body) == []
  }

  /** Get after put: the section holds exactly the body's lines if and only if the body
      survives; a caller can tell before the call. */
  lemma SectionIsBody(text: string, header: string, body: string)
    requires GoodHeader(header) && GoodBody(body)
    ensures Section(Upsert(text, header, body), header) == Some(SplitLines(body))
       <==> BodySurvives(Parse(SplitLines(text), header), body)
  {
    SettleSame(SplitLines(body));
    ExtendSame(SplitLines(body), ExtraLine(body));
    if Section(text, header).Some? {
      ReplaceParses(text, header, body);
    } else {
      AppendParses(text, header, body);
    }
  }

  /** Everything outside the section keeps its content and order; an append adds only
      blank lines before the header, a replacement drops at most a final empty line. */
  lemma OutsideIsKept(text: string, header: string, body: string)
    requires GoodHeader(header) && GoodBody(body)
    ensures var p, q := Parse(SplitLines(text), header), Parse(SplitLines(Upsert(text, header, body)), header);
      if p.section.Some? then q.before == p.before && (q.after == p.after || q.after == Settle(p.after))
      else q.before == SplitLines(text) + Gap(text) && q.after == []
  {
    if Section(text, header).Some? {
      ReplaceParses(text, header, body);
    } else {
      AppendParses(text, header, body);
    }
  }

  // ----- putting twice -----

  lemma TrimSettle(lines: seq<string>)
    ensures TrimBlank(Settle(lines)) == TrimBlank(lines)
  {
  }

  lemma {:induction false} TrimBlankTail(lines: seq<string>, tail: seq<string>, tail': seq<string>)
    requires TrimBlank(tail) == TrimBlank(tail')
    ensures TrimBlank(lines + tail) == TrimBlank(lines + tail')
  {
    TrimConcat(lines, tail);
    TrimConcat(lines, tail');
  }

  lemma {:induction false} TrimConcat(lines: seq<string>, tail: seq<string>)
    ensures TrimBlank(lines + tail) == TrimBlank(lines + TrimBlank(tail))
  {
    if tail != [] && tail[|tail| - 1] == "" {
      assert (lines + tail)[..|lines + tail| - 1] == lines + tail[..|tail| - 1];
      TrimConcat(lines, tail[..|tail| - 1]);
    }
  }

  lemma ReplaceTwice(text: string, header: string, first: string, second: string)
    requires GoodHeader(header) && GoodBody(first) && Section(text, header).Some?
    ensures TrimBlank(SplitLines(Upsert(Upsert(text, header, first), header, second)))
         == TrimBlank(SplitLines(Upsert(text, header, second)))
  {
    var p := Parse(SplitLines(text), header);
    ReplaceParses(text, header, first);
    ReplacedLines(text, header, second);
    ReplacedLines(Upsert(text, header, first), header, second);
    var head := p.before + [header] + SplitLines(second);
    var after := if p.after == [] then [] else Settle(p.after);
    TrimSettle(p.after);
    TrimSettle(head + p.after);
    TrimSettle(head + after);
    TrimBlankTail(head, after, p.after);
  }

  lemma AppendThenReplace(text: string, header: string, first: string, second: string)
    requires GoodHeader(header) && GoodBody(first) && Section(text, header).None?
    ensures TrimBlank(SplitLines(Upsert(Upsert(text, header, first), header, second)))
         == TrimBlank(SplitLines(Upsert(text, header, second)))
  {
    var once := Upsert(text, header, first);
    AppendParses(text, header, first);
    ReplacedLines(once, header, second);
    AppendedLines(text, header, second);
    var before := SplitLines(text) + Gap(text) + [header];
    var b := SplitLines(second);
    assert SplitLines(Upsert(once, header, second)) == Settle(before + b + []);
    Associative(before, b, []);
    Associative(before, b, ExtraLine(second));
    assert b + [] == b;
    TrimSettle(before + b);
    TrimExtra(before + b, second);
  }

  lemma TrimExtra(lines: seq<string>, body: string)
    ensures TrimBlank(lines + ExtraLine(body)) == TrimBlank(lines)
  {
    if ExtraLine(body) == [] {
      assert lines + ExtraLine(body) == lines;
    } else {
      assert (lines + [""])[..|lines|] == lines;
    }
  }

  /** Put after put: the second put wins, up to final empty lines. */
  lemma PutPut(text: string, header: string, first: string, second: string)
    requires GoodHeader(header) && GoodBody(first) && GoodBody(second)
    ensures TrimBlank(SplitLines(Upsert(Upsert(text, header, first), header, second)))
         == TrimBlank(SplitLines(Upsert(text, header, second)))
  {
    if Section(text, header).Some? {
      ReplaceTwice(text, header, first, second);
    } else {
      AppendThenReplace(text, header, first, second);
    }
  }

  /** Applying the same update twice equals applying it once, up to final empty lines. */
  lemma Idempotent(text: string, header: string, body: string)
    requires GoodHeader(header) && GoodBody(body)
    ensures TrimBlank(SplitLines(Upsert(Upsert(text, header, body), header, body)))
         == TrimBlank(SplitLines(Upsert(text, header, body)))
  {
    PutPut(text, header, body, body);
  }

  /** A replacement joins single lines, so it leaves no line break but newlines. */
  lemma ReplacedNewlinesOnly(text: string, header: string, body: string)
    requires GoodHeader(header) && Section(text, header).Some?
    ensures NewlinesOnly(Upsert(text, header, body))
  {
    var p := Parse(SplitLines(text), header);
    ParseFacts(SplitLines(text), header);
    SplitOneLine(text);
    SplitOneLine(body);
    AllOneLineConcat(p.before, [header]);
    AllOneLineConcat(p.before + [header], SplitLines(body));
    AllOneLineConcat(p.before + [header] + SplitLines(body), p.after);
    JoinNewlinesOnly(p.before + [header] + SplitLines(body) + p.after);
  }

  lemma AppendedChars(text: string, header: string, body: string, c: char)
    requires c != '\n'
    ensures c in Appended(text, header, body) <==> c in text || c in header || c in body
  {
  }

  /** As texts, twice equals once up to final newlines if and only if the section was
      there already or neither text nor body has any other kind of line break. */
  lemma TextIdempotentIff(text: string, header: string, body: string)
    requires GoodHeader(header) && GoodBody(body)
    ensures TrimNewlines(Upsert(Upsert(text, header, body), header, body)) == TrimNewlines(Upsert(text, header, body))
       <==> Section(text, header).Some? || (NewlinesOnly(text) && NewlinesOnly(body))
  {
    var once := Upsert(text, header, body);
    var twice := Upsert(once, header, body);
    OnceHasSection(text, header, body);
    ReplacedNewlinesOnly(once, header, body);
    if Section(text, header).Some? {
      ReplacedNewlinesOnly(text, header, body);
    }
    forall c | c != '\n' ensures Section(text, header).None? ==> (c in once <==> c in text || c in header || c in body) {
      if Section(text, header).None? {
        AppendedChars(text, header, body, c);
      }
    }
    if NewlinesOnly(once) {
      Idempotent(text, header, body);
      TrimSplit(once);
      TrimSplit(twice);
    } else {
      var c :| c in once && IsBoundary(c) && c != '\n';
      TrimKeepsOthers(once, c);
      TrimKeepsOthers(twice, c);
    }
  }

  lemma OnceHasSection(text: string, header: string, body: string)
    requires GoodHeader(header) && GoodBody(body)
    ensures Section(Upsert(text, header, body), header).Some?
  {
    if Section(text, header).Some? {
      ReplaceParses(text, header, body);
    } else {
      AppendParses(text, header, body);
    }
  }
}
