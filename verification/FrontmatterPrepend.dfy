/** What the scanner finds after a block has been prepended to a text without one. */
module FrontmatterPrepend {
  import opened Basics
  import opened Text
  import opened FrontmatterScan
  import opened FrontmatterEdit
  import opened FrontmatterReadback

  const MARK: string := "---"

  lemma MarkLine(space: char -> bool, off: nat)
    ensures Mask(space, [MARK], None) == [MARK] && After(space, [MARK], None) == None
    ensures Spans([MARK], off) == [Span(off, off + 3)] && Len([MARK]) == 4
    ensures NoHeading([MARK]) && HeaderLines([MARK]) == [MARK]
  {
    hide FenceOf;
    assert [MARK][1..] == [];
    Dashes(space, MARK);
  }

  lemma Dashes(space: char -> bool, line: string)
    requires line == MARK
    ensures FenceOf(space, line).None?
  {
    if space('-') {
      assert line[1..] == "--" && "--"[1..] == "-" && "-"[1..] == "";
      assert TrimLeft(space, "-") == "" && TrimLeft(space, "--") == "" && TrimLeft(space, line) == "";
      assert TrimRight(space, "") == "";
    } else {
      assert TrimLeft(space, line) == line && TrimRight(space, line) == line;
    }
  }

  lemma PrependedLines(dumped: string, content: string)
    ensures Split(Prepended(dumped, content), NL) == [MARK] + Split(dumped, NL) + ([MARK] + Split(content, NL))
  {
    hide Split, Join;
    var f, c := Split(dumped, NL), Split(content, NL);
    JoinSplit(dumped, NL);
    JoinSplit(content, NL);
    SplitParts(dumped, NL);
    SplitParts(content, NL);
    JoinOne(MARK);
    JoinAppend([MARK], c, NL);
    JoinAppend(f, [MARK] + c, NL);
    JoinAppend([MARK], f + ([MARK] + c), NL);
    Associate([MARK], f, [MARK] + c);
    Regroups(dumped, content);
    SplitJoin([MARK] + f + ([MARK] + c), NL);
  }

  lemma JoinOne(line: string)
    ensures Join([line], NL) == line
  {}

  lemma Regroups(dumped: string, content: string)
    ensures Prepended(dumped, content) == MARK + [NL] + (dumped + [NL] + (MARK + [NL] + content))
  {
    assert "---\n" == MARK + [NL] && "\n---\n" == [NL] + MARK + [NL];
  }

  // The text keeps its place behind the two markers.
  lemma PrependedPlaces(dumped: string, content: string)
    ensures var updated, p := Prepended(dumped, content), |dumped| + 5;
      && MARK <= updated && |updated| == p + 4 + |content|
      && updated[4..4 + |dumped|] == dumped && updated[4 + |dumped|] == NL && updated[p + 4..] == content
  {
    Regroups(dumped, content);
  }

  lemma OpensWithMark(space: char -> bool, dumped: string, content: string)
    ensures Markers(space, Prepended(dumped, content)) != []
    ensures Markers(space, Prepended(dumped, content))[0] == Span(0, 3)
  {
    hide Markers, Split, Mask, After, HeaderLines, Spans, NoHeading, Len;
    var updated, rest := Prepended(dumped, content), Split(dumped, NL) + ([MARK] + Split(content, NL));
    PrependedLines(dumped, content);
    Associate([MARK], Split(dumped, NL), [MARK] + Split(content, NL));
    assert [MARK] + [] + rest == [MARK] + rest;
    MarkLine(space, 0);
    NothingHeads();
    MarkersOfPieces(space, updated, [MARK], [], rest);
  }

  lemma NothingHeads()
    ensures NoHeading([])
  {}

  // When the dump is contained, the markers are the two of the new block and those of the
  // old text, moved.
  lemma PrependedMarkers(space: char -> bool, dumped: string, content: string)
    requires Contained(space, dumped)
    ensures var p := |dumped| + 5;
      && From(Markers(space, content), 0)
      && Markers(space, Prepended(dumped, content))
         == [Span(0, 3), Span(p, p + 3)] + Moved(Markers(space, content), 0, p + 4)
  {
    hide Markers, Split, Join, Mask, After, HeaderLines, Spans, NoHeading, Len, Moved;
    var updated, p := Prepended(dumped, content), |dumped| + 5;
    var f, c := Split(dumped, NL), Split(content, NL);
    PrependedLines(dumped, content);
    MarkLine(space, 0);
    SplitLength(dumped);
    MarkersOfPieces(space, updated, [MARK], f, [MARK] + c);
    SpansMoved(Mask(space, f, None), 0, 4);
    MovedNone(0, 4);
    HeaderAppend([MARK], c);
    MaskAppend(space, [MARK], HeaderLines(c), None);
    var masked := Mask(space, HeaderLines(c), None);
    SpansAppend([MARK], masked, p);
    MarkLine(space, p);
    MarkersByLine(space, content);
    SpansMoved(masked, 0, p + 4);
  }

  // A later scan reads back the dump and, behind it, the mappings among the pairs of markers
  // the text had before.
  lemma ReadsPrepended(space: char -> bool, parser: Parser, content: string, dumped: string)
    requires Contained(space, dumped)
    ensures Orderly(Markers(space, content), 0, |content|)
    ensures var later := Scan(parser, content, Markers(space, content), false);
      && InText(content, later)
      && BlockTexts(space, parser, Prepended(dumped, content)) == [dumped] + Texts(content, later)
  {
    hide Markers, Orderly, Scan, InText, Texts, Contained, Moved, From;
    var updated, p := Prepended(dumped, content), |dumped| + 5;
    var ms, ns := Markers(space, content), Markers(space, updated);
    PrependedMarkers(space, dumped, content);
    PrependedPlaces(dumped, content);
    MarkersOrderly(space, content);
    MarkersOrderly(space, updated);
    ScanInText(parser, content, ms, false);
    assert content[0..] == content;
    ScanMoved(parser, content, updated, ms, 0, p + 4);
    TextsStep(parser, updated, ns, true);
    assert ns[2..] == Moved(ms, 0, p + 4);
  }

  // The branch that prepends a block: the text of the first block found afterwards is the
  // dump if and only if the dump closes its fences and shows neither a heading nor a marker.
  lemma PrependedReadBackIff(space: char -> bool, parser: Parser, content: string, dumped: string)
    ensures var texts := BlockTexts(space, parser, Prepended(dumped, content));
      texts != [] && texts[0] == dumped <==> Contained(space, dumped)
  {
    hide Markers, Orderly, Scan, Contained, Blocks, Cut, BlockTexts, Pair, HasLine, Split, Len;
    var updated := Prepended(dumped, content);
    var texts := BlockTexts(space, parser, updated);
    if Contained(space, dumped) {
      ReadsPrepended(space, parser, content, dumped);
    }
    if texts != [] && texts[0] == dumped {
      FirstBlockAt(space, parser, updated);
      OpensWithMark(space, dumped, content);
      PrependedPlaces(dumped, content);
      var block := Blocks(space, parser, updated)[0];
      assert block.body == Span(4, 4 + |dumped|);
      var j := BlockPair(space, parser, updated, 0);
      FirstPair(space, parser, updated, j, block);
      var a, b, c := CutAt(space, updated, 0);
      CutBody(space, parser, updated, 0, 0, block, a, b, c);
      EndsBeforeNewline(updated, block);
      CutIsLines(space, updated, 0, a, b, c);
      PrependedLines(dumped, content);
      MarkLine(space, 0);
      SplitLength(dumped);
      SamePieces([MARK], Split(dumped, NL), [MARK] + Split(content, NL), a, b, c);
      CutContained(space, updated, 0, a, dumped, c);
    }
  }

  lemma FirstPair(space: char -> bool, parser: Parser, content: string, j: nat, block: Block)
    requires Pair(space, parser, content, 0, j, block)
    ensures j == 0 && 1 < |Markers(space, content)|
  {}

  lemma EndsBeforeNewline(content: string, block: Block)
    requires block.body.end < |content| && content[block.body.end] == NL
    ensures HasLine(content, block)
  {}
}
