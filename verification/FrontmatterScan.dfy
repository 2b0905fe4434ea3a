/** The frontmatter scanner: fenced code is masked, `---` lines of the masked header are
    paired up, and each pair delimits a block.  `space` is the whitespace `str.strip`
    removes; YAML is seen only through the key set of what it loads. */
module FrontmatterScan {
  import opened Basics
  import opened Text

  const NL := '\n'

  // ------------------------------------------------------------ masking

  function TrimLeft(space: char -> bool, s: string): string {
    if s != [] && space(s[0]) then TrimLeft(space, s[1..]) else s
  }

  function TrimRight(space: char -> bool, s: string): string {
    if s != [] && space(s[|s| - 1]) then TrimRight(space, s[..|s| - 1]) else s
  }

  function Strip(space: char -> bool, s: string): string {
    TrimRight(space, TrimLeft(space, s))
  }

  function FenceOf(space: char -> bool, line: string): Option<string> {
    var s := Strip(space, line);
    if "```" <= s then Some("```") else if "~~~" <= s then Some("~~~") else None
  }

  // The open fence after a line.
  function Next(space: char -> bool, line: string, fence: Option<string>): Option<string> {
    if fence.None? then FenceOf(space, line)
    else if fence.value <= Strip(space, line) then None else fence
  }

  function After(space: char -> bool, lines: seq<string>, fence: Option<string>): Option<string> {
    if lines == [] then fence else After(space, lines[1..], Next(space, lines[0], fence))
  }

  function Blank(n: nat): (s: string)
    ensures |s| == n && forall i | 0 <= i < n :: s[i] == ' '
  {
    seq(n, _ => ' ')
  }

  predicate Fenced(space: char -> bool, line: string, fence: Option<string>) {
    fence.Some? || FenceOf(space, line).Some?
  }

  function MaskLine(space: char -> bool, line: string, fence: Option<string>): string {
    if Fenced(space, line, fence) then Blank(|line|) else line
  }

  function Mask(space: char -> bool, lines: seq<string>, fence: Option<string>): (masked: seq<string>)
    ensures |masked| == |lines|
  {
    if lines == [] then []
    else [MaskLine(space, lines[0], fence)] + Mask(space, lines[1..], Next(space, lines[0], fence))
  }

  function Masked(space: char -> bool, text: string): string {
    Join(Mask(space, Split(text, NL), None), NL)
  }

  lemma MaskStep(space: char -> bool, lines: seq<string>, k: nat, fence: Option<string>)
    requires k < |lines|
    ensures Mask(space, lines[k..], fence)
         == [MaskLine(space, lines[k], fence)] + Mask(space, lines[k + 1..], Next(space, lines[k], fence))
  {
    assert lines[k..][1..] == lines[k + 1..];
  }

  lemma Opening(space: char -> bool, line: string)
    ensures var s := Strip(space, line);
      FenceOf(space, line) == if "```" <= s || "~~~" <= s then Some(s[..3]) else None
  {
    var s := Strip(space, line);
    assert "```" <= s ==> s[..3] == "```";
    assert "~~~" <= s ==> s[..3] == "~~~";
  }

  method MaskFencedCode(space: char -> bool, text: string) returns (masked: string)
    ensures masked == Masked(space, text)
  {
    hide Mask, Strip, FenceOf;
    var lines := Split(text, NL);
    var out: seq<string> := [];
    var fence: Option<string> := None;
    for k := 0 to |lines|
      invariant out + Mask(space, lines[k..], fence) == Mask(space, lines, None)
    {
      var line := lines[k];
      var stripped := Strip(space, line);
      MaskStep(space, lines, k, fence);
      Opening(space, line);
      ghost var before, was := out, fence;
      if fence.None? && ("```" <= stripped || "~~~" <= stripped) {
        fence := Some(stripped[..3]);
        out := out + [Blank(|line|)];
      } else if fence.Some? {
        if fence.value <= stripped {
          fence := None;
        }
        out := out + [Blank(|line|)];
      } else {
        out := out + [line];
      }
      assert fence == Next(space, line, was) && out == before + [MaskLine(space, line, was)];
      assert before + ([MaskLine(space, line, was)] + Mask(space, lines[k + 1..], fence))
          == out + Mask(space, lines[k + 1..], fence);
    }
    assert out == Mask(space, lines, None) by {
      assert lines[|lines|..] == [];
      assert Mask(space, [], fence) == [];
    }
    masked := Join(out, NL);
  }

  lemma {:induction false} MaskAppend(space: char -> bool, a: seq<string>, b: seq<string>, fence: Option<string>)
    ensures Mask(space, a + b, fence) == Mask(space, a, fence) + Mask(space, b, After(space, a, fence))
    ensures After(space, a + b, fence) == After(space, b, After(space, a, fence))
  {
    if a == [] {
      assert a + b == b;
    } else {
      assert (a + b)[1..] == a[1..] + b;
      MaskAppend(space, a[1..], b, Next(space, a[0], fence));
    }
  }

  lemma {:induction false} MaskAt(space: char -> bool, lines: seq<string>, fence: Option<string>, i: nat)
    requires i < |lines|
    ensures Mask(space, lines, fence)[i] == MaskLine(space, lines[i], After(space, lines[..i], fence))
    ensures i + 1 <= |lines|
        && After(space, lines[..i + 1], fence) == Next(space, lines[i], After(space, lines[..i], fence))
  {
    if i > 0 {
      MaskAt(space, lines[1..], Next(space, lines[0], fence), i - 1);
      assert lines[..i][1..] == lines[1..][..i - 1] && lines[..i + 1][1..] == lines[1..][..i];
    } else {
      assert lines[..1][1..] == [];
    }
  }

  // Line by line: the same length, and every character kept or blanked.
  ghost predicate Blanked(lines: seq<string>, masked: seq<string>) {
    && |masked| == |lines|
    && (forall i | 0 <= i < |lines| :: |masked[i]| == |lines[i]|)
    && (forall i, j | 0 <= i < |lines| && 0 <= j < |lines[i]| :: masked[i][j] == lines[i][j] || masked[i][j] == ' ')
  }

  lemma MaskBlanks(space: char -> bool, lines: seq<string>, fence: Option<string>)
    ensures Blanked(lines, Mask(space, lines, fence))
  {
    forall i | 0 <= i < |lines| ensures var m := Mask(space, lines, fence)[i];
      |m| == |lines[i]| && forall j | 0 <= j < |m| :: m[j] == lines[i][j] || m[j] == ' '
    {
      MaskAt(space, lines, fence, i);
    }
  }

  ghost predicate Plain(lines: seq<string>) {
    forall i | 0 <= i < |lines| :: NL !in lines[i]
  }

  lemma BlankedPlain(lines: seq<string>, masked: seq<string>)
    requires Blanked(lines, masked) && Plain(lines)
    ensures Plain(masked)
  {
    forall i, j | 0 <= i < |masked| && 0 <= j < |masked[i]| ensures masked[i][j] != NL {
      assert lines[i][j] != NL;
    }
  }

  ghost predicate SameShape(text: string, masked: string) {
    && |masked| == |text|
    && forall i | 0 <= i < |text| :: masked[i] == text[i] || (masked[i] == ' ' && text[i] != NL)
  }

  lemma {:induction false} JoinBlanked(lines: seq<string>, masked: seq<string>)
    requires Blanked(lines, masked) && Plain(lines)
    ensures SameShape(Join(lines, NL), Join(masked, NL))
  {
    if |lines| > 1 {
      assert lines[0] in lines;
      assert forall i, j | 0 <= i < |lines[1..]| && 0 <= j < |lines[1..][i]| :: lines[1..][i][j] == lines[i + 1][j];
      JoinBlanked(lines[1..], masked[1..]);
    } else if |lines| == 1 {
      assert lines[0] in lines;
    }
  }

  // Masking keeps the length and every newline, and changes other characters only to blanks.
  lemma MaskKeepsOffsets(space: char -> bool, text: string)
    ensures SameShape(text, Masked(space, text))
    ensures forall i | 0 <= i < |text| :: Masked(space, text)[i] == NL <==> text[i] == NL
  {
    var lines := Split(text, NL);
    SplitParts(text, NL);
    JoinSplit(text, NL);
    MaskBlanks(space, lines, None);
    JoinBlanked(lines, Mask(space, lines, None));
  }

  lemma MaskedLines(space: char -> bool, text: string)
    ensures Split(Masked(space, text), NL) == Mask(space, Split(text, NL), None)
  {
    var lines := Split(text, NL);
    SplitParts(text, NL);
    MaskBlanks(space, lines, None);
    BlankedPlain(lines, Mask(space, lines, None));
    SplitJoin(Mask(space, lines, None), NL);
  }

  lemma {:induction false} BlankStrips(space: char -> bool, n: nat)
    requires space(' ')
    ensures TrimLeft(space, Blank(n)) == ""
  {
    if n > 0 {
      assert Blank(n)[1..] == Blank(n - 1);
      BlankStrips(space, n - 1);
    }
  }

  lemma {:induction false} NoFenceUnmasked(space: char -> bool, lines: seq<string>)
    requires forall i | 0 <= i < |lines| :: FenceOf(space, lines[i]).None?
    ensures Mask(space, lines, None) == lines && After(space, lines, None) == None
  {
    if lines != [] {
      assert FenceOf(space, lines[0]).None?;
      NoFenceUnmasked(space, lines[1..]);
    }
  }

  // Masking twice is masking once: no fence is left.
  lemma MaskIdempotent(space: char -> bool, text: string)
    requires space(' ')
    ensures Masked(space, Masked(space, text)) == Masked(space, text)
  {
    var lines := Split(text, NL);
    var masked := Mask(space, lines, None);
    forall i | 0 <= i < |masked| ensures FenceOf(space, masked[i]).None? {
      MaskAt(space, lines, None, i);
      BlankStrips(space, |lines[i]|);
    }
    NoFenceUnmasked(space, masked);
    MaskedLines(space, text);
  }

  // ------------------------------------------------------------ markers

  datatype Span = Span(start: nat, end: nat)

  predicate IsMarker(line: string) {
    "---" <= line && forall i | 3 <= i < |line| :: line[i] == ' ' || line[i] == '\t'
  }

  predicate IsHeading(line: string) {
    "##" <= line && |line| > 2 && (line[2] == ' ' || line[2] == '\t')
  }

  // Length of the lines with a newline after each.
  function Len(lines: seq<string>): nat {
    if lines == [] then 0 else |lines[0]| + 1 + Len(lines[1..])
  }

  // Where the marker lines are, in document order.
  function Spans(lines: seq<string>, off: nat): seq<Span> {
    if lines == [] then []
    else
      (if IsMarker(lines[0]) then [Span(off, off + |lines[0]|)] else [])
      + Spans(lines[1..], off + |lines[0]| + 1)
  }

  // Offset of the first heading line.
  function Boundary(lines: seq<string>, off: nat): Option<nat> {
    if lines == [] then None
    else if IsHeading(lines[0]) then Some(off)
    else Boundary(lines[1..], off + |lines[0]| + 1)
  }

  // The lines before the first heading; the text cut there ends in an empty line.
  function HeaderLines(lines: seq<string>): seq<string> {
    if lines == [] then []
    else if IsHeading(lines[0]) then [""]
    else [lines[0]] + HeaderLines(lines[1..])
  }

  lemma {:induction false} BoundaryInside(lines: seq<string>, off: nat)
    requires Boundary(lines, off).Some?
    ensures lines != [] && off <= Boundary(lines, off).value <= off + |Join(lines, NL)|
  {
    if !IsHeading(lines[0]) {
      BoundaryInside(lines[1..], off + |lines[0]| + 1);
    }
  }

  function Header(content: string): (header: string)
    ensures |header| <= |content|
  {
    var boundary := Boundary(Split(content, NL), 0);
    if boundary.None? then content
    else
      BoundaryInside(Split(content, NL), 0);
      JoinSplit(content, NL);
      content[..boundary.value]
  }

  lemma {:induction false} HeaderSplits(lines: seq<string>, off: nat)
    requires lines != [] && Plain(lines)
    ensures HeaderLines(lines) != [] && Plain(HeaderLines(lines))
    ensures var b := Boundary(lines, off);
      if b.None? then HeaderLines(lines) == lines
      else off <= b.value <= off + |Join(lines, NL)| && Join(HeaderLines(lines), NL) == Join(lines, NL)[..b.value - off]
  {
    var b := Boundary(lines, off);
    if b.Some? {
      BoundaryInside(lines, off);
    }
    if !IsHeading(lines[0]) && |lines| > 1 {
      var rest, head := off + |lines[0]| + 1, HeaderLines(lines[1..]);
      HeaderSplits(lines[1..], rest);
      assert ([lines[0]] + head)[1..] == head;
      assert lines[0] in lines;
      if b.Some? {
        assert Join(lines, NL)[..b.value - off] == lines[0] + [NL] + Join(lines[1..], NL)[..b.value - rest];
      }
    } else if !IsHeading(lines[0]) {
      assert lines == [lines[0]] && HeaderLines(lines[1..]) == [];
    }
  }

  // A line start followed by `##` and a blank or a tab.
  predicate HeadingAt(text: string, i: nat) {
    && (i == 0 || (i <= |text| && text[i - 1] == '\n')) && i + 2 < |text|
    && text[i] == '#' && text[i + 1] == '#' && (text[i + 2] == ' ' || text[i + 2] == '\t')
  }

  lemma HeadingOfLine(line: string)
    requires NL !in line
    ensures HeadingAt(line, 0) <==> IsHeading(line)
    ensures forall i: nat | i > 0 :: !HeadingAt(line, i)
  {
    if |line| >= 2 { assert line[..2] == "##" <==> line[0] == '#' && line[1] == '#'; }
  }

  lemma HeadingShift(line: string, rest: string, k: nat)
    requires NL !in line
    ensures var text := line + [NL] + rest;
      && (HeadingAt(text, 0) <==> IsHeading(line))
      && (forall i: nat | 0 < i <= |line| :: !HeadingAt(text, i))
      && (HeadingAt(text, |line| + 1 + k) <==> HeadingAt(rest, k))
  {
    var text := line + [NL] + rest;
    if |line| >= 2 { assert line[..2] == "##" <==> line[0] == '#' && line[1] == '#'; }
    assert text[|line|] == NL && forall i | 0 <= i < |line| :: text[i] == line[i];
    assert forall i | 0 <= i < |rest| :: text[|line| + 1 + i] == rest[i];
  }

  ghost predicate NoHeadingBefore(text: string, n: nat) {
    forall i: nat | i < n :: !HeadingAt(text, i)
  }

  lemma HeadingsShift(line: string, rest: string, n: nat)
    requires NL !in line && !IsHeading(line) && NoHeadingBefore(rest, n)
    ensures NoHeadingBefore(line + [NL] + rest, |line| + 1 + n)
  {
    hide HeadingAt, IsHeading;
    HeadingShift(line, rest, 0);
    forall i: nat | |line| < i < |line| + 1 + n ensures !HeadingAt(line + [NL] + rest, i) {
      HeadingShift(line, rest, i - |line| - 1);
    }
  }

  lemma {:induction false} BoundaryMeans(lines: seq<string>, off: nat)
    requires lines != [] && Plain(lines)
    ensures Boundary(lines, off).None? ==> NoHeadingBefore(Join(lines, NL), |Join(lines, NL)|)
    ensures Boundary(lines, off).Some? ==>
      var at := Boundary(lines, off).value - off;
      at >= 0 && HeadingAt(Join(lines, NL), at) && NoHeadingBefore(Join(lines, NL), at)
  {
    hide HeadingAt, IsHeading, NoHeadingBefore;
    assert lines[0] in lines;
    var b := Boundary(lines, off);
    NothingBefore(Join(lines, NL));
    if |lines| == 1 {
      HeadingOfLine(lines[0]);
      if b.None? { NothingInside(lines[0]); }
    } else {
      var rest := Join(lines[1..], NL);
      BoundaryMeans(lines[1..], off + |lines[0]| + 1);
      HeadingShift(lines[0], rest, if b.Some? && !IsHeading(lines[0]) then b.value - off - |lines[0]| - 1 else 0);
      if !IsHeading(lines[0]) {
        HeadingsShift(lines[0], rest, if b.Some? then b.value - off - |lines[0]| - 1 else |rest|);
      }
    }
  }

  lemma NothingBefore(text: string)
    ensures NoHeadingBefore(text, 0)
  {}

  lemma NothingInside(line: string)
    requires NL !in line && !IsHeading(line)
    ensures NoHeadingBefore(line, |line|)
  {
    HeadingOfLine(line);
  }

  lemma HeadingAtMeans(content: string, i: nat)
    ensures HeadingAt(content, i) <==>
      && (i == 0 || (i <= |content| && content[i - 1] == '\n')) && i + 2 < |content|
      && content[i] == '#' && content[i + 1] == '#' && (content[i + 2] == ' ' || content[i + 2] == '\t')
  {}

  // The header ends at the first line start followed by `##` and a blank or a tab.
  lemma HeaderMeans(content: string)
    ensures var n := |Header(content)|;
      && n <= |content| && Header(content) == content[..n]
      && (n < |content| ==> HeadingAt(content, n))
      && forall i: nat | i < n :: !HeadingAt(content, i)
    ensures forall i: nat :: HeadingAt(content, i) <==>
      && (i == 0 || (i <= |content| && content[i - 1] == '\n')) && i + 2 < |content|
      && content[i] == '#' && content[i + 1] == '#' && (content[i + 2] == ' ' || content[i + 2] == '\t')
  {
    hide Boundary, Split, Join, HeadingAt;
    forall i: nat { HeadingAtMeans(content, i); }
    var lines := Split(content, NL);
    SplitParts(content, NL);
    JoinSplit(content, NL);
    BoundaryMeans(lines, 0);
    if Boundary(lines, 0).Some? {
      BoundaryInside(lines, 0);
    } else {
      assert content[..|content|] == content;
    }
  }

  lemma HeaderByLine(content: string)
    ensures Split(Header(content), NL) == HeaderLines(Split(content, NL))
  {
    hide HeaderLines, Boundary;
    var lines := Split(content, NL);
    SplitParts(content, NL);
    JoinSplit(content, NL);
    HeaderSplits(lines, 0);
    SplitJoin(HeaderLines(lines), NL);
  }

  function Markers(space: char -> bool, content: string): seq<Span> {
    Spans(Split(Masked(space, Header(content)), NL), 0)
  }

  function MarkerLines(space: char -> bool, lines: seq<string>): seq<string> {
    Mask(space, HeaderLines(lines), None)
  }

  lemma MarkersByLine(space: char -> bool, content: string)
    ensures Markers(space, content) == Spans(MarkerLines(space, Split(content, NL)), 0)
  {
    MaskedLines(space, Header(content));
    HeaderByLine(content);
  }

  // Every span is a line of at least three characters, and spans are apart.
  ghost predicate Orderly(spans: seq<Span>, lo: nat, hi: nat) {
    && (forall i | 0 <= i < |spans| :: lo <= spans[i].start && spans[i].start + 3 <= spans[i].end <= hi)
    && (forall i, j | 0 <= i < j < |spans| :: spans[i].end < spans[j].start)
  }

  lemma {:induction false} SpansOrderly(lines: seq<string>, off: nat)
    requires lines != []
    ensures Orderly(Spans(lines, off), off, off + |Join(lines, NL)|)
  {
    hide Orderly, IsMarker;
    var rest, hi := off + |lines[0]| + 1, off + |Join(lines, NL)|;
    if |lines| > 1 {
      SpansOrderly(lines[1..], rest);
    } else {
      assert Spans(lines[1..], rest) == [];
      OrderlyNone(rest, rest);
    }
    OrderlyCons(lines[0], Spans(lines[1..], rest), off, if |lines| > 1 then hi else rest, hi);
  }

  lemma OrderlyNone(lo: nat, hi: nat)
    ensures Orderly([], lo, hi)
  {}

  lemma OrderlyCons(line: string, spans: seq<Span>, off: nat, mid: nat, hi: nat)
    requires Orderly(spans, off + |line| + 1, mid) && off + |line| <= hi && (spans == [] || mid <= hi)
    ensures Orderly((if IsMarker(line) then [Span(off, off + |line|)] else []) + spans, off, hi)
  {}

  lemma OrderlyWiden(spans: seq<Span>, lo: nat, mid: nat, hi: nat)
    requires Orderly(spans, lo, mid) && mid <= hi
    ensures Orderly(spans, lo, hi)
  {}

  lemma OrderlyDrop(spans: seq<Span>, lo: nat, hi: nat, i: nat)
    requires Orderly(spans, lo, hi) && i <= |spans|
    ensures Orderly(spans[i..], lo, hi)
    ensures i + 1 < |spans| ==> spans[i].start < spans[i].end < spans[i + 1].start < spans[i + 1].end <= hi
  {}

  lemma MarkersOrderly(space: char -> bool, content: string)
    ensures Orderly(Markers(space, content), 0, |content|)
  {
    hide Orderly, Spans, Masked, SameShape;
    var masked := Masked(space, Header(content));
    SpansOrderly(Split(masked, NL), 0);
    JoinSplit(masked, NL);
    assert |masked| <= |content| by {
      MaskedLength(space, Header(content));
    }
    OrderlyWiden(Markers(space, content), 0, |masked|, |content|);
  }

  lemma MaskedLength(space: char -> bool, text: string)
    ensures |Masked(space, text)| == |text|
  {
    MaskKeepsOffsets(space, text);
  }

  ghost predicate MarksLine(lines: seq<string>, off: nat, span: Span, i: nat) {
    i < |lines| && IsMarker(lines[i]) && span == LineSpan(lines, off, i)
  }

  lemma {:induction false} SpanIff(lines: seq<string>, off: nat, span: Span)
    ensures span in Spans(lines, off) <==> exists i: nat :: MarksLine(lines, off, span, i)
  {
    if lines != [] {
      var rest := off + |lines[0]| + 1;
      SpanIff(lines[1..], rest, span);
      MarksFirst(lines, off, span);
      forall i: nat ensures MarksLine(lines, off, span, i + 1) <==> MarksLine(lines[1..], rest, span, i) {
        MarksRest(lines, off, span, i);
      }
      if i: nat :| MarksLine(lines, off, span, i) {
        if i > 0 {
          MarksRest(lines, off, span, i - 1);
        }
      }
    }
  }

  lemma MarksFirst(lines: seq<string>, off: nat, span: Span)
    requires lines != []
    ensures MarksLine(lines, off, span, 0) <==> IsMarker(lines[0]) && span == Span(off, off + |lines[0]|)
  {}

  lemma MarksRest(lines: seq<string>, off: nat, span: Span, i: nat)
    requires lines != []
    ensures MarksLine(lines, off, span, i + 1) <==> MarksLine(lines[1..], off + |lines[0]| + 1, span, i)
  {
    if i + 1 < |lines| {
      assert lines[..i + 1][1..] == lines[1..][..i];
    }
  }

  function LineSpan(lines: seq<string>, off: nat, i: nat): Span
    requires i < |lines|
  {
    var start := off + Len(lines[..i]);
    Span(start, start + |lines[i]|)
  }

  // Line i is a `---` line that no code fence covers.
  ghost predicate MarksOpenLine(space: char -> bool, lines: seq<string>, span: Span, i: nat) {
    && i < |lines| && IsMarker(lines[i])
    && !Fenced(space, lines[i], After(space, lines[..i], None))
    && span == LineSpan(lines, 0, i)
  }

  ghost predicate OnOpenLine(space: char -> bool, lines: seq<string>, span: Span) {
    exists i: nat :: MarksOpenLine(space, lines, span, i)
  }

  // A marker is exactly a `---` line of the header that no code fence covers.
  lemma MarkersExact(space: char -> bool, content: string, span: Span)
    ensures span in Markers(space, content) <==> OnOpenLine(space, HeaderLines(Split(content, NL)), span)
  {
    hide *;
    MarkersByLine(space, content);
    SpanIff(MarkerLines(space, Split(content, NL)), 0, span);
    OnLineSame(space, Split(content, NL), span);
  }

  lemma OnLineSame(space: char -> bool, all: seq<string>, span: Span)
    ensures OnOpenLine(space, HeaderLines(all), span)
        <==> exists i: nat :: MarksLine(MarkerLines(space, all), 0, span, i)
  {
    hide MarkerLines, HeaderLines, MarksLine, MarksOpenLine;
    forall i: nat
      ensures MarksLine(MarkerLines(space, all), 0, span, i) <==> MarksOpenLine(space, HeaderLines(all), span, i)
    {
      MarksSame(space, all, span, i);
    }
  }

  lemma MarksSame(space: char -> bool, all: seq<string>, span: Span, i: nat)
    ensures MarksLine(MarkerLines(space, all), 0, span, i) <==> MarksOpenLine(space, HeaderLines(all), span, i)
  {
    hide Fenced, After, Mask, Len, HeaderLines;
    var lines, masked := HeaderLines(all), MarkerLines(space, all);
    if i < |lines| {
      MaskAt(space, lines, None, i);
      MaskBlanks(space, lines, None);
      LenSame(lines[..i], masked[..i]);
    }
  }

  lemma {:induction false} LenSame(a: seq<string>, b: seq<string>)
    requires |a| == |b| && forall i | 0 <= i < |a| :: |a[i]| == |b[i]|
    ensures Len(a) == Len(b)
  {
    if a != [] {
      LenSame(a[1..], b[1..]);
    }
  }

  // What a marker line, a heading line and a fence line look like.
  lemma LineKinds(space: char -> bool, line: string)
    ensures IsMarker(line) <==>
      && |line| >= 3 && line[0] == '-' && line[1] == '-' && line[2] == '-'
      && forall i | 3 <= i < |line| :: line[i] == ' ' || line[i] == '\t'
    ensures FenceOf(space, line) ==
      if "```" <= Strip(space, line) then Some("```")
      else if "~~~" <= Strip(space, line) then Some("~~~") else None
  {
    if |line| >= 3 { assert "---" <= line <==> line[0] == '-' && line[1] == '-' && line[2] == '-'; }
  }

  predicate Spaces(space: char -> bool, s: string) {
    forall i | 0 <= i < |s| :: space(s[i])
  }

  // Stripping drops the whitespace at both ends and nothing else.
  lemma StripMeans(space: char -> bool, s: string) returns (a: string, b: string)
    ensures Spaces(space, a) && Spaces(space, b) && s == a + Strip(space, s) + b
    ensures var t := Strip(space, s); t != "" ==> !space(t[0]) && !space(t[|t| - 1])
  {
    a := LeftSpaces(space, s);
    b := RightSpaces(space, TrimLeft(space, s));
    var t, left := Strip(space, s), TrimLeft(space, s);
    assert left == t + b && s == a + (t + b);
    if t != "" { assert t[0] == left[0]; }
  }

  lemma {:induction false} LeftSpaces(space: char -> bool, s: string) returns (a: string)
    ensures Spaces(space, a) && s == a + TrimLeft(space, s)
    ensures TrimLeft(space, s) != "" ==> !space(TrimLeft(space, s)[0])
  {
    a := "";
    if s != "" && space(s[0]) {
      a := LeftSpaces(space, s[1..]);
      assert s == [s[0]] + s[1..] && [s[0]] + (a + TrimLeft(space, s)) == ([s[0]] + a) + TrimLeft(space, s);
      a := [s[0]] + a;
    }
  }

  lemma {:induction false} RightSpaces(space: char -> bool, s: string) returns (b: string)
    ensures Spaces(space, b) && s == TrimRight(space, s) + b
    ensures var t := TrimRight(space, s); t != "" ==> !space(t[|t| - 1])
    decreases |s|
  {
    b := "";
    if s != "" && space(s[|s| - 1]) {
      b := RightSpaces(space, s[..|s| - 1]);
      assert s == s[..|s| - 1] + [s[|s| - 1]];
      assert TrimRight(space, s) + b + [s[|s| - 1]] == TrimRight(space, s) + (b + [s[|s| - 1]]);
      b := b + [s[|s| - 1]];
    }
  }

  // The fence state line by line: a fence line opens a fence, a line that starts with the
  // open marker closes it, and nothing else changes it.
  lemma {:induction false} FenceSnoc(space: char -> bool, lines: seq<string>, line: string, fence: Option<string>)
    ensures After(space, [], fence) == fence
    ensures var open := After(space, lines, fence);
      After(space, lines + [line], fence)
      == match open
         case None => FenceOf(space, line)
         case Some(marker) => if marker <= Strip(space, line) then None else open
  {
    hide FenceOf, Strip;
    if lines == [] {
      assert [] + [line] == [line] && [line][1..] == [];
    } else {
      assert (lines + [line])[1..] == lines[1..] + [line];
      FenceSnoc(space, lines[1..], line, Next(space, lines[0], fence));
    }
  }

  // A line is blanked exactly when a fence is open before it or it opens one.
  lemma MaskMeans(space: char -> bool, lines: seq<string>, i: nat)
    requires i < |lines|
    ensures Mask(space, lines, None)[i] ==
      if After(space, lines[..i], None).Some? || FenceOf(space, lines[i]).Some?
      then seq(|lines[i]|, _ => ' ') else lines[i]
  {
    hide FenceOf, Mask, After;
    MaskAt(space, lines, None, i);
  }

  // ------------------------------------------------------------ blocks

  // The keys of a loaded mapping, when the text loads as one; and the keys the line scan finds.
  datatype Parser = Parser(mapping: string -> Option<set<string>>, permissive: string -> set<string>)

  datatype Block = Block(span: Span, body: Span, keys: set<string>, isCanonical: bool)

  function BodySpan(open: Span, close: Span): Span
  {
    var start, end := open.end + 1, close.start - 1;
    Span(start, if end < start then start else end)
  }

  function ParseBlockData(parser: Parser, text: string): set<string> {
    match parser.mapping(text)
    case Some(keys) => keys
    case None => parser.permissive(text)
  }

  // A pair of markers, as a block unless it is a later one that is no mapping.
  function BlockOf(parser: Parser, content: string, open: Span, close: Span, first: bool): Option<Block>
    requires open.end < close.start && close.end <= |content| && close.start <= close.end
  {
    var body := BodySpan(open, close);
    var text := content[body.start..body.end];
    if !first && parser.mapping(text).None? then None
    else
      var keys := ParseBlockData(parser, text);
      Some(Block(Span(open.start, close.end), body, keys, "id" in keys))
  }

  function Scan(parser: Parser, content: string, markers: seq<Span>, first: bool): seq<Block>
    requires Orderly(markers, 0, |content|)
  {
    if |markers| < 2 then []
    else
      var block := BlockOf(parser, content, markers[0], markers[1], first);
      (if block.Some? then [block.value] else []) + Scan(parser, content, markers[2..], false)
  }

  function Blocks(space: char -> bool, parser: Parser, content: string): seq<Block> {
    MarkersOrderly(space, content);
    if !("---" <= content) then [] else Scan(parser, content, Markers(space, content), true)
  }

  lemma ScanStep(parser: Parser, content: string, markers: seq<Span>, i: nat, first: bool)
    requires Orderly(markers, 0, |content|) && i + 1 < |markers|
    ensures Orderly(markers[i..], 0, |content|) && Orderly(markers[i + 2..], 0, |content|)
    ensures markers[i].start < markers[i].end < markers[i + 1].start < markers[i + 1].end <= |content|
    ensures var block := BlockOf(parser, content, markers[i], markers[i + 1], first);
      Scan(parser, content, markers[i..], first)
      == (if block.Some? then [block.value] else []) + Scan(parser, content, markers[i + 2..], false)
  {
    hide Orderly;
    OrderlyDrop(markers, 0, |content|, i);
    OrderlyDrop(markers, 0, |content|, i + 2);
    assert markers[i..][2..] == markers[i + 2..];
  }

  method IterFrontmatterBlocks(space: char -> bool, parser: Parser, content: string) returns (blocks: seq<Block>)
    ensures blocks == Blocks(space, parser, content)
  {
    hide Scan, Orderly, Spans, Masked, BlockOf, Header, BodySpan, ParseBlockData;
    MarkersOrderly(space, content);
    if content == "" || !("---" <= content) {
      return [];
    }
    var masked := MaskFencedCode(space, Header(content));
    var markers := Spans(Split(masked, NL), 0);
    blocks := [];
    var i := 0;
    var isFirst := true;
    assert markers[0..] == markers;
    while i + 1 < |markers|
      invariant 0 <= i <= |markers| && (isFirst <==> i == 0) && Orderly(markers[i..], 0, |content|)
      invariant blocks + Scan(parser, content, markers[i..], isFirst) == Scan(parser, content, markers, true)
    {
      var open, close := markers[i], markers[i + 1];
      ScanStep(parser, content, markers, i, isFirst);
      BlockMeans(parser, content, open, close, isFirst);
      ghost var before, rest := blocks, Scan(parser, content, markers[i + 2..], false);
      i := i + 2;
      var start, end := open.end + 1, close.start - 1;
      if end < start {
        end := start;
      }
      var text := content[start..end];
      var keys: set<string>;
      if isFirst {
        keys := ParseBlockData(parser, text);
        isFirst := false;
      } else {
        var loaded := parser.mapping(text);
        if loaded.None? {
          assert [] + rest == rest;
          continue;
        }
        keys := loaded.value;
      }
      var block := Block(Span(open.start, close.end), Span(start, end), keys, "id" in keys);
      blocks := blocks + [block];
      assert before + ([block] + rest) == blocks + rest;
    }
    assert Scan(parser, content, markers[i..], isFirst) == [] by {
      ScanShort(parser, content, markers[i..], isFirst);
    }
  }

  lemma BlockMeans(parser: Parser, content: string, open: Span, close: Span, first: bool)
    requires open.end < close.start && close.end <= |content| && close.start <= close.end
    ensures var start := open.end + 1;
      var end := if close.start - 1 < start then start else close.start - 1;
      && start <= end <= |content|
      && var text := content[start..end];
         var keys := ParseBlockData(parser, text);
         && (parser.mapping(text).Some? ==> keys == parser.mapping(text).value)
         && BlockOf(parser, content, open, close, first)
            == if !first && parser.mapping(text).None? then None
               else Some(Block(Span(open.start, close.end), Span(start, end), keys, "id" in keys))
  {}

  lemma ScanShort(parser: Parser, content: string, markers: seq<Span>, first: bool)
    requires Orderly(markers, 0, |content|) && |markers| < 2
    ensures Scan(parser, content, markers, first) == []
  {}

  // Each body lies strictly inside its span, and the spans are apart and in order.
  ghost predicate Apart(blocks: seq<Block>, lo: nat, hi: nat) {
    && (forall i | 0 <= i < |blocks| ::
          && lo <= blocks[i].span.start && blocks[i].span.start + 4 <= blocks[i].body.start <= blocks[i].body.end
          && blocks[i].body.end + 3 <= blocks[i].span.end <= hi)
    && (forall i, j | 0 <= i < j < |blocks| :: blocks[i].span.end < blocks[j].span.start)
  }

  lemma {:induction false} ScanApart(parser: Parser, content: string, markers: seq<Span>, first: bool)
    requires Orderly(markers, 0, |content|)
    ensures Apart(Scan(parser, content, markers, first), if markers == [] then 0 else markers[0].start, |content|)
    decreases |markers|
  {
    if |markers| >= 2 {
      ScanApart(parser, content, markers[2..], false);
      if |markers| == 2 {
        assert Scan(parser, content, markers[2..], false) == [];
      }
    }
  }

  lemma BlocksApart(space: char -> bool, parser: Parser, content: string)
    ensures Apart(Blocks(space, parser, content), 0, |content|)
  {
    MarkersOrderly(space, content);
    ScanApart(parser, content, Markers(space, content), true);
  }

  ghost predicate Mapped(parser: Parser, content: string, block: Block) {
    && block.body.start <= block.body.end <= |content|
    && parser.mapping(content[block.body.start..block.body.end]).Some?
  }

  // The first pair of markers is always a block; a later block's text loads as a mapping.
  lemma FirstAlwaysLaterMapping(space: char -> bool, parser: Parser, content: string)
    ensures var blocks := Blocks(space, parser, content);
      && (blocks != [] <==> "---" <= content && |Markers(space, content)| >= 2)
      && (blocks != [] ==> blocks[0].span.start == Markers(space, content)[0].start)
      && (blocks != [] ==> forall b | b in blocks[1..] :: Mapped(parser, content, b))
  {
    hide Markers, Orderly, Mapped;
    MarkersOrderly(space, content);
    var markers := Markers(space, content);
    if |markers| >= 2 {
      ScanStep(parser, content, markers, 0, true);
      assert markers[0..] == markers;
      ScanMappings(parser, content, markers[2..]);
    }
  }

  lemma {:induction false} ScanMappings(parser: Parser, content: string, markers: seq<Span>)
    requires Orderly(markers, 0, |content|)
    ensures var blocks := Scan(parser, content, markers, false);
      forall b | b in blocks :: Mapped(parser, content, b)
    decreases |markers|
  {
    if |markers| >= 2 {
      ScanMappings(parser, content, markers[2..]);
      var block := BlockOf(parser, content, markers[0], markers[1], false);
      assert block.Some? ==> Mapped(parser, content, block.value);
    }
  }
}
