/** What the scanner finds after one block's text has been replaced: the new text in that
    block and every other block as it was, exactly when the block had a line to replace. */
module FrontmatterReadback {
  import opened Basics
  import opened Text
  import opened FrontmatterScan
  import opened FrontmatterEdit

  // ------------------------------------------------------------ spans over pieces

  lemma {:induction false} LenAppend(a: seq<string>, b: seq<string>)
    ensures Len(a + b) == Len(a) + Len(b)
  {
    if a == [] {
      assert a + b == b;
    } else {
      assert (a + b)[1..] == a[1..] + b;
      LenAppend(a[1..], b);
    }
  }

  lemma {:induction false} LenJoin(lines: seq<string>)
    requires lines != []
    ensures Len(lines) == |Join(lines, NL)| + 1
  {
    if |lines| > 1 {
      LenJoin(lines[1..]);
    } else {
      assert Len(lines[1..]) == 0;
    }
  }

  lemma {:induction false} SpansAppend(a: seq<string>, b: seq<string>, off: nat)
    ensures Spans(a + b, off) == Spans(a, off) + Spans(b, off + Len(a))
  {
    if a == [] {
      assert a + b == b;
    } else {
      assert (a + b)[1..] == a[1..] + b;
      SpansAppend(a[1..], b, off + |a[0]| + 1);
    }
  }

  ghost predicate From(spans: seq<Span>, from: nat) {
    forall i | 0 <= i < |spans| :: from <= spans[i].start <= spans[i].end
  }

  function Moved(spans: seq<Span>, from: nat, to: nat): seq<Span>
    requires From(spans, from)
  {
    if spans == [] then []
    else [Span(spans[0].start - from + to, spans[0].end - from + to)] + Moved(spans[1..], from, to)
  }

  lemma {:induction false} SpansFrom(lines: seq<string>, off: nat)
    ensures From(Spans(lines, off), off)
  {
    if lines != [] {
      SpansFrom(lines[1..], off + |lines[0]| + 1);
    }
  }

  lemma {:induction false} MovedAgain(spans: seq<Span>, from: nat, to: nat, d: nat)
    requires From(spans, from + d)
    ensures Moved(spans, from + d, to + d) == Moved(spans, from, to)
  {
    if spans != [] {
      MovedAgain(spans[1..], from, to, d);
    }
  }

  lemma {:induction false} SpansMoved(lines: seq<string>, from: nat, to: nat)
    ensures From(Spans(lines, from), from)
    ensures Spans(lines, to) == Moved(Spans(lines, from), from, to)
  {
    hide IsMarker, Moved;
    SpansFrom(lines, from);
    if lines != [] {
      var d := |lines[0]| + 1;
      SpansMoved(lines[1..], from + d, to + d);
      MovedAgain(Spans(lines[1..], from + d), from, to, d);
      if IsMarker(lines[0]) {
        MovedCons(Span(from, from + |lines[0]|), Spans(lines[1..], from + d), from, to);
      } else {
        assert Spans(lines, from) == Spans(lines[1..], from + d);
        assert Spans(lines, to) == Spans(lines[1..], to + d);
      }
    } else {
      MovedNone(from, to);
    }
  }

  lemma MovedNone(from: nat, to: nat)
    ensures Moved([], from, to) == []
  {}

  lemma MovedCons(span: Span, spans: seq<Span>, from: nat, to: nat)
    requires From([span] + spans, from) && From(spans, from)
    ensures from <= span.start <= span.end
    ensures Moved([span] + spans, from, to)
        == [Span(span.start - from + to, span.end - from + to)] + Moved(spans, from, to)
  {
    assert ([span] + spans)[0] == span && ([span] + spans)[1..] == spans;
  }

  lemma {:induction false} NoSpans(lines: seq<string>, off: nat)
    requires forall i | 0 <= i < |lines| :: !IsMarker(lines[i])
    ensures Spans(lines, off) == []
  {
    if lines != [] {
      NoSpans(lines[1..], off + |lines[0]| + 1);
    }
  }

  // The line behind the j-th span, and the spans of the lines before and after it.
  lemma {:induction false} SpanLine(lines: seq<string>, off: nat, j: nat) returns (i: nat)
    requires j < |Spans(lines, off)|
    ensures i < |lines| && IsMarker(lines[i]) && Spans(lines, off)[j] == LineSpan(lines, off, i)
    ensures Spans(lines[..i], off) == Spans(lines, off)[..j]
    ensures Spans(lines[i..], off + Len(lines[..i])) == Spans(lines, off)[j..]
  {
    var rest := off + |lines[0]| + 1;
    if IsMarker(lines[0]) && j == 0 {
      i := 0;
      assert lines[0..] == lines;
    } else {
      var k := if IsMarker(lines[0]) then j - 1 else j;
      var i' := SpanLine(lines[1..], rest, k);
      i := i' + 1;
      assert lines[..i][1..] == lines[1..][..i'];
      assert lines[i..] == lines[1..][i'..];
    }
  }

  // The lines of two successive spans.
  lemma PairLines(lines: seq<string>, j: nat) returns (o: nat, c: nat)
    requires j + 1 < |Spans(lines, 0)|
    ensures o < c < |lines| && IsMarker(lines[o]) && IsMarker(lines[c])
    ensures Spans(lines, 0)[j] == LineSpan(lines, 0, o) && Spans(lines, 0)[j + 1] == LineSpan(lines, 0, c)
    ensures Spans(lines[..o + 1], 0) == Spans(lines, 0)[..j + 1]
    ensures Spans(lines[c..], Len(lines[..c])) == Spans(lines, 0)[j + 1..]
  {
    hide Spans, Len, IsMarker;
    var spans := Spans(lines, 0);
    o := SpanLine(lines, 0, j);
    c := SpanLine(lines, 0, j + 1);
    Ascending(lines, o, c);
    SpansAppend(lines[..o], [lines[o]], 0);
    assert lines[..o] + [lines[o]] == lines[..o + 1];
    OneSpan(lines[o], Len(lines[..o]));
    assert spans[..j] + [spans[j]] == spans[..j + 1];
  }

  lemma OneSpan(line: string, off: nat)
    requires IsMarker(line)
    ensures Spans([line], off) == [Span(off, off + |line|)]
  {
    assert [line][1..] == [];
  }

  lemma Ascending(lines: seq<string>, o: nat, c: nat)
    requires o < |lines| && c < |lines| && |Spans(lines[..o], 0)| < |Spans(lines[..c], 0)|
    ensures o < c
  {
    if c <= o {
      assert lines[..o] == lines[..c] + lines[c..o];
      SpansAppend(lines[..c], lines[c..o], 0);
    }
  }

  // ------------------------------------------------------------ the header over pieces

  ghost predicate NoHeading(lines: seq<string>) {
    forall i | 0 <= i < |lines| :: !IsHeading(lines[i])
  }

  lemma {:induction false} HeaderAppend(a: seq<string>, b: seq<string>)
    requires NoHeading(a)
    ensures HeaderLines(a + b) == a + HeaderLines(b)
  {
    if a == [] {
      assert a + b == b;
    } else {
      assert (a + b)[1..] == a[1..] + b;
      assert !IsHeading(a[0]);
      HeaderAppend(a[1..], b);
    }
  }

  // Up to any non-empty line, the header is the text itself.
  lemma {:induction false} HeaderPrefix(lines: seq<string>, i: nat)
    requires i < |HeaderLines(lines)| && HeaderLines(lines)[i] != ""
    ensures i < |lines| && HeaderLines(lines)[..i + 1] == lines[..i + 1] && NoHeading(lines[..i + 1])
  {
    var header := HeaderLines(lines);
    assert !IsHeading(lines[0]);
    if i > 0 {
      HeaderPrefix(lines[1..], i - 1);
      assert header[..i + 1] == [lines[0]] + HeaderLines(lines[1..])[..i];
      assert lines[..i + 1] == [lines[0]] + lines[1..][..i];
    }
  }

  // After a marker that shows, no fence is open.
  lemma VisibleMarker(space: char -> bool, lines: seq<string>, i: nat)
    requires i < |lines| && IsMarker(Mask(space, lines, None)[i])
    ensures lines[i] == Mask(space, lines, None)[i]
    ensures After(space, lines[..i], None) == None && After(space, lines[..i + 1], None) == None
  {
    hide Mask, After;
    MaskAt(space, lines, None, i);
    BlankNoMarker(|lines[i]|);
  }

  lemma BlankNoMarker(n: nat)
    ensures !IsMarker(Blank(n))
  {
    if n >= 3 {
      assert Blank(n)[0] == ' ';
    }
  }

  // ------------------------------------------------------------ one replaced text

  // Text without a heading line and without a marker outside its own fences, that closes
  // every fence it opens.
  ghost predicate Contained(space: char -> bool, text: string) {
    var f := Split(text, NL);
    NoHeading(f) && Spans(Mask(space, f, None), 0) == [] && After(space, f, None) == None
  }

  // The lines of `content` cut around a pair of markers: a ends with the opening marker and
  // c starts with the closing one.
  ghost predicate Cut(space: char -> bool, content: string, j: nat, a: seq<string>, b: seq<string>, c: seq<string>) {
    && a != [] && c != [] && Split(content, NL) == a + b + c
    && NoHeading(a) && NoHeading(b)
    && After(space, a, None) == None && After(space, a + b, None) == None
    && "---" <= c[0]
    && j + 1 < |Markers(space, content)|
    && Markers(space, content)[j].end + 1 == Len(a)
    && Markers(space, content)[j + 1].start == Len(a) + Len(b)
    && Spans(Mask(space, a, None), 0) == Markers(space, content)[..j + 1]
    && Spans(Mask(space, HeaderLines(c), None), Len(a) + Len(b)) == Markers(space, content)[j + 1..]
  }

  lemma CutAt(space: char -> bool, content: string, j: nat) returns (a: seq<string>, b: seq<string>, c: seq<string>)
    requires j + 1 < |Markers(space, content)|
    ensures Cut(space, content, j, a, b, c)
  {
    hide Markers, Spans, Mask, HeaderLines, After, Len;
    var lines := Split(content, NL);
    var header, masked := HeaderLines(lines), MarkerLines(space, lines);
    MarkersByLine(space, content);
    var o, k := PairLines(masked, j);
    VisibleMarker(space, header, o);
    VisibleMarker(space, header, k);
    HeaderPrefix(lines, k);
    a, b, c := lines[..o + 1], lines[o + 1..k], lines[k..];
    assert lines == a + b + c;
    PrefixSame(header, lines, k, o);
    CutHeadings(lines, o, k);
    CutMask(space, header, lines, o, k);
    CutLengths(space, header, lines, masked, o, k);
  }

  lemma PrefixSame(header: seq<string>, lines: seq<string>, k: nat, o: nat)
    requires k < |header| && k < |lines| && header[..k + 1] == lines[..k + 1] && o < k
    ensures header[..k] == lines[..k] && header[..o + 1] == lines[..o + 1] && header[k] == lines[k]
    ensures header[..o] == lines[..o] && header[o] == lines[o]
  {
    assert header[..k] == header[..k + 1][..k] && lines[..k] == lines[..k + 1][..k];
    assert header[..o + 1] == header[..k + 1][..o + 1] && lines[..o + 1] == lines[..k + 1][..o + 1];
    assert header[..o] == header[..k + 1][..o] && lines[..o] == lines[..k + 1][..o];
    assert header[k] == header[..k + 1][k] && header[o] == header[..k + 1][o];
  }

  lemma CutHeadings(lines: seq<string>, o: nat, k: nat)
    requires o < k < |lines| && NoHeading(lines[..k + 1])
    ensures NoHeading(lines[..o + 1]) && NoHeading(lines[o + 1..k]) && !IsHeading(lines[k])
  {
    assert forall i | 0 <= i <= k :: lines[i] == lines[..k + 1][i];
  }

  lemma CutMask(space: char -> bool, header: seq<string>, lines: seq<string>, o: nat, k: nat)
    requires o < k < |header| && k < |lines| && header == HeaderLines(lines) && header[..k] == lines[..k]
    requires NoHeading(lines[..o + 1]) && NoHeading(lines[o + 1..k])
    requires After(space, header[..o + 1], None) == None && After(space, header[..k], None) == None
    ensures lines[..o + 1] + lines[o + 1..k] == lines[..k] && header[..o + 1] == lines[..o + 1]
    ensures Mask(space, header, None)[..o + 1] == Mask(space, lines[..o + 1], None)
    ensures Mask(space, header, None)[k..] == Mask(space, HeaderLines(lines[k..]), None)
  {
    hide Mask, After, HeaderLines, IsHeading;
    assert header[..o + 1] == header[..k][..o + 1] && lines[..o + 1] == lines[..k][..o + 1];
    assert header == header[..o + 1] + header[o + 1..];
    MaskAppend(space, header[..o + 1], header[o + 1..], None);
    assert lines[..o + 1] + lines[o + 1..k] == lines[..k];
    assert lines == lines[..k] + lines[k..];
    NoHeadingAppend(lines[..o + 1], lines[o + 1..k]);
    HeaderAppend(lines[..k], lines[k..]);
    MaskAppend(space, lines[..k], HeaderLines(lines[k..]), None);
  }

  lemma NoHeadingAppend(a: seq<string>, b: seq<string>)
    requires NoHeading(a) && NoHeading(b)
    ensures NoHeading(a + b)
  {}

  lemma CutLengths(space: char -> bool, header: seq<string>, lines: seq<string>, masked: seq<string>, o: nat, k: nat)
    requires o < k < |header| && k < |lines| && header[..k] == lines[..k] && header[o] == lines[o]
    requires masked == Mask(space, header, None)
    ensures LineSpan(masked, 0, o).end + 1 == Len(lines[..o + 1])
    ensures LineSpan(masked, 0, k).start == Len(lines[..k]) == Len(masked[..k])
    ensures Len(lines[..k]) == Len(lines[..o + 1]) + Len(lines[o + 1..k])
  {
    hide Mask;
    MaskBlanks(space, header, None);
    assert header[..o] == header[..k][..o] && lines[..o] == lines[..k][..o];
    LenSame(masked[..o], lines[..o]);
    LenSame(masked[..k], lines[..k]);
    assert lines[..o + 1] == lines[..o] + [lines[o]];
    LenAppend(lines[..o], [lines[o]]);
    assert Len([lines[o]]) == |lines[o]| + 1;
    assert lines[..k] == lines[..o + 1] + lines[o + 1..k];
    LenAppend(lines[..o + 1], lines[o + 1..k]);
  }

  // Markers of a text cut where no fence is open.
  lemma MarkersOfPieces(space: char -> bool, content: string, a: seq<string>, f: seq<string>, c: seq<string>)
    requires Split(content, NL) == a + f + c && NoHeading(a) && NoHeading(f) && After(space, a, None) == None
    ensures Markers(space, content)
         == Spans(Mask(space, a, None), 0) + Spans(Mask(space, f, None), Len(a))
          + Spans(Mask(space, HeaderLines(c), After(space, f, None)), Len(a) + Len(f))
  {
    hide Markers, Spans, Mask, HeaderLines, After, Len, IsHeading, IsMarker;
    MarkersByLine(space, content);
    NoHeadingAppend(a, f);
    HeaderAppend(a + f, c);
    MaskAppend(space, a + f, HeaderLines(c), None);
    MaskAppend(space, a, f, None);
    var x, y := Mask(space, a, None), Mask(space, f, None);
    SpansAppend(x + y, Mask(space, HeaderLines(c), After(space, f, None)), 0);
    SpansAppend(x, y, 0);
    MaskedLen(space, a, None);
    MaskedLen(space, a + f, None);
    LenAppend(a, f);
  }

  lemma MaskedLen(space: char -> bool, lines: seq<string>, fence: Option<string>)
    ensures Len(Mask(space, lines, fence)) == Len(lines)
  {
    MaskBlanks(space, lines, fence);
    LenSame(Mask(space, lines, fence), lines);
  }

  function Ended(lines: seq<string>): string {
    if lines == [] then "" else Join(lines, NL) + [NL]
  }

  lemma Shape(content: string, a: seq<string>, b: seq<string>, c: seq<string>)
    requires a != [] && c != [] && Split(content, NL) == a + b + c
    ensures content == Ended(a) + Ended(b) + Join(c, NL)
  {
    hide Join, Split;
    JoinSplit(content, NL);
    if b == [] {
      assert a + b + c == a + c;
      JoinAppend(a, c, NL);
    } else {
      assert a + b + c == a + (b + c);
      JoinAppend(a, b + c, NL);
      JoinAppend(b, c, NL);
      Associate(Join(a, NL) + [NL], Join(b, NL) + [NL], Join(c, NL));
    }
  }

  lemma EndedLength(lines: seq<string>)
    ensures |Ended(lines)| == Len(lines)
    ensures lines != [] ==>
      Len(lines) >= 1 && |Join(lines, NL)| == Len(lines) - 1 && Ended(lines) == Join(lines, NL) + [NL]
  {
    if lines != [] {
      LenJoin(lines);
    }
  }

  // The text around a cut.
  lemma Pieces(content: string, a: seq<string>, b: seq<string>, c: seq<string>)
    requires a != [] && c != [] && Split(content, NL) == a + b + c
    ensures Len(a) + Len(b) <= |content| && content[..Len(a)] == Ended(a)
    ensures content[Len(a) + Len(b)..] == Join(c, NL)
    ensures b != [] ==> Len(b) >= 1 && content[Len(a) + Len(b) - 1..] == [NL] + Join(c, NL)
  {
    hide *;
    PiecesFront(content, a, b, c);
    if b != [] {
      PiecesTail(content, a, b, c);
    }
  }

  lemma PiecesFront(content: string, a: seq<string>, b: seq<string>, c: seq<string>)
    requires a != [] && c != [] && Split(content, NL) == a + b + c
    ensures Len(a) + Len(b) <= |content| && content[..Len(a)] == Ended(a)
    ensures content[Len(a) + Len(b)..] == Join(c, NL)
  {
    hide *;
    Shape(content, a, b, c);
    EndedLength(a);
    EndedLength(b);
    Slices(Ended(a), Ended(b), Join(c, NL), content);
  }

  lemma PiecesTail(content: string, a: seq<string>, b: seq<string>, c: seq<string>)
    requires a != [] && b != [] && c != [] && Split(content, NL) == a + b + c
    ensures Len(b) >= 1 && Len(a) + Len(b) - 1 <= |content| && content[Len(a) + Len(b) - 1..] == [NL] + Join(c, NL)
  {
    hide *;
    Shape(content, a, b, c);
    EndedLength(a);
    EndedLength(b);
    LastNewline(Ended(a), Join(b, NL), Join(c, NL), content);
  }

  lemma LastNewline(x: string, y: string, z: string, all: string)
    requires all == x + (y + [NL]) + z
    ensures |x| + |y| <= |all| && all[|x| + |y|..] == [NL] + z
  {
    assert all == x + y + ([NL] + z);
  }

  lemma Slices(x: string, y: string, z: string, all: string)
    requires all == x + y + z
    ensures all[..|x|] == x && all[|x| + |y|..] == z
  {}

  lemma LenNone()
    ensures Len([]) == 0
  {}

  // The pieces of the updated text, when there was at least one line to replace.
  lemma UpdatedLines(content: string, text: string, a: seq<string>, b: seq<string>, c: seq<string>)
    requires a != [] && b != [] && c != [] && Split(content, NL) == a + b + c
    requires Len(a) + Len(b) <= |content| && Len(b) >= 1
    ensures Split(content[..Len(a)] + text + content[Len(a) + Len(b) - 1..], NL) == a + Split(text, NL) + c
  {
    hide Len, Split, Join, Ended;
    var f := Split(text, NL);
    Pieces(content, a, b, c);
    EndedLength(a);
    JoinSplit(text, NL);
    SplitParts(text, NL);
    SplitParts(content, NL);
    JoinAppend(a, f + c, NL);
    JoinAppend(f, c, NL);
    assert a + f + c == a + (f + c);
    PlainPieces(a, b, c, f);
    SplitJoin(a + f + c, NL);
    Associate(text, [NL], Join(c, NL));
    Associate(Join(a, NL) + [NL], text, [NL] + Join(c, NL));
  }

  lemma PlainPieces(a: seq<string>, b: seq<string>, c: seq<string>, f: seq<string>)
    requires Plain(a + b + c) && Plain(f)
    ensures Plain(a + f + c) && Plain(a) && Plain(c)
  {
    assert forall i | 0 <= i < |a| :: a[i] == (a + b + c)[i];
    assert forall i | 0 <= i < |c| :: c[i] == (a + b + c)[|a| + |b| + i];
  }

  // The markers of the updated text: the later ones have moved.
  lemma UpdatedMarkers(space: char -> bool, content: string, text: string, updated: string, j: nat,
                       a: seq<string>, b: seq<string>, c: seq<string>)
    requires Cut(space, content, j, a, b, c) && b != [] && Contained(space, text)
    requires Len(a) + Len(b) <= |content| && Len(b) >= 1
    requires updated == content[..Len(a)] + text + content[Len(a) + Len(b) - 1..]
    ensures Edited(Markers(space, content), Markers(space, updated), j, Len(a) + Len(b), Len(a) + |text| + 1)
  {
    hide Markers, Spans, Mask, HeaderLines, After, Len, Moved;
    var f := Split(text, NL);
    UpdatedLines(content, text, a, b, c);
    MarkersOfPieces(space, updated, a, f, c);
    JoinSplit(text, NL);
    LenJoin(f);
    SpansMoved(Mask(space, f, None), 0, Len(a));
    MovedNone(0, Len(a));
    SpansMoved(Mask(space, HeaderLines(c), None), Len(a) + Len(b), Len(a) + Len(f));
    assert Spans(Mask(space, a, None), 0) + [] == Spans(Mask(space, a, None), 0);
  }

  // ------------------------------------------------------------ the blocks over pieces

  ghost predicate InText(content: string, blocks: seq<Block>) {
    forall b | b in blocks :: b.body.start <= b.body.end <= |content|
  }

  // The texts of the blocks, in order.
  function Texts(content: string, blocks: seq<Block>): (texts: seq<string>)
    requires InText(content, blocks)
    ensures |texts| == |blocks|
  {
    if blocks == [] then [] else [BodyText(content, blocks[0])] + Texts(content, blocks[1..])
  }

  lemma {:induction false} TextsAppend(content: string, a: seq<Block>, b: seq<Block>)
    requires InText(content, a) && InText(content, b)
    ensures InText(content, a + b) && Texts(content, a + b) == Texts(content, a) + Texts(content, b)
  {
    if a == [] {
      assert a + b == b;
    } else {
      assert (a + b)[1..] == a[1..] + b;
      TextsAppend(content, a[1..], b);
    }
  }

  lemma ScanInText(parser: Parser, content: string, markers: seq<Span>, first: bool)
    requires Orderly(markers, 0, |content|)
    ensures InText(content, Scan(parser, content, markers, first))
  {
    ScanApart(parser, content, markers, first);
  }

  lemma OrderlySlice(spans: seq<Span>, lo: nat, hi: nat, i: nat)
    requires Orderly(spans, lo, hi) && i <= |spans|
    ensures Orderly(spans[..i], lo, hi) && Orderly(spans[i..], lo, hi)
  {}

  lemma {:induction false} ScanSplit(parser: Parser, content: string, markers: seq<Span>, first: bool, j: nat)
    requires Orderly(markers, 0, |content|) && j <= |markers| && j % 2 == 0
    ensures Orderly(markers[..j], 0, |content|) && Orderly(markers[j..], 0, |content|)
    ensures Scan(parser, content, markers, first)
         == Scan(parser, content, markers[..j], first) + Scan(parser, content, markers[j..], first && j == 0)
    decreases j
  {
    hide Orderly, BlockOf, Scan;
    OrderlySlice(markers, 0, |content|, j);
    if j == 0 {
      assert markers[0..] == markers;
      ScanShort(parser, content, markers[..0], first);
    } else {
      assert markers[0..] == markers && markers[..j][0..] == markers[..j];
      ScanStep(parser, content, markers, 0, first);
      ScanStep(parser, content, markers[..j], 0, first);
      ScanSplit(parser, content, markers[2..], false, j - 2);
      assert markers[2..][..j - 2] == markers[..j][2..];
      assert markers[2..][j - 2..] == markers[j..];
      var block := BlockOf(parser, content, markers[0], markers[1], first);
      Associate(if block.Some? then [block.value] else [],
                Scan(parser, content, markers[..j][2..], false), Scan(parser, content, markers[j..], false));
    }
  }

  lemma ScanLong(parser: Parser, content: string, markers: seq<Span>, first: bool)
    requires Orderly(markers, 0, |content|) && Scan(parser, content, markers, first) != []
    ensures |markers| >= 2
  {}

  // The pair of markers behind the t-th block.
  lemma {:induction false} PairOf(parser: Parser, content: string, markers: seq<Span>, first: bool, t: nat)
    returns (j: nat)
    requires Orderly(markers, 0, |content|) && t < |Scan(parser, content, markers, first)|
    ensures j % 2 == 0 && j + 1 < |markers| && Orderly(markers[..j], 0, |content|)
    ensures |Scan(parser, content, markers[..j], first)| == t
    ensures markers[j].start < markers[j].end < markers[j + 1].start < markers[j + 1].end <= |content|
    ensures BlockOf(parser, content, markers[j], markers[j + 1], first && j == 0)
         == Some(Scan(parser, content, markers, first)[t])
    ensures first ==> (j == 0 <==> t == 0)
    decreases |markers|
  {
    hide Orderly, BlockOf, Scan;
    ScanLong(parser, content, markers, first);
    ScanStep(parser, content, markers, 0, first);
    assert markers[0..] == markers;
    var block := BlockOf(parser, content, markers[0], markers[1], first);
    FirstBlock(parser, content, markers[0], markers[1]);
    if block.Some? && t == 0 {
      j := 0;
      OrderlySlice(markers, 0, |content|, 0);
      ScanShort(parser, content, markers[..0], first);
    } else {
      var rest := markers[2..];
      var i := PairOf(parser, content, rest, false, if block.Some? then t - 1 else t);
      j := i + 2;
      OrderlySlice(markers, 0, |content|, j);
      ScanStep(parser, content, markers[..j], 0, first);
      assert markers[..j][0..] == markers[..j] && markers[..j][2..] == rest[..i];
    }
  }

  // The fields of a block, by its pair of markers: every second marker opens one.
  lemma BlockFields(space: char -> bool, parser: Parser, content: string, t: nat) returns (j: nat)
    requires t < |Blocks(space, parser, content)|
    ensures var ms, block := Markers(space, content), Blocks(space, parser, content)[t];
      && j % 2 == 0 && j + 1 < |ms| && (j == 0 <==> t == 0)
      && ms[j].end < ms[j + 1].start
      && block.span == Span(ms[j].start, ms[j + 1].end)
      && block.body.start == ms[j].end + 1
      && block.body.end == (if ms[j + 1].start == ms[j].end + 1 then ms[j].end + 1 else ms[j + 1].start - 1)
      && block.body.end <= |content|
      && var text := content[block.body.start..block.body.end];
         && (parser.mapping(text).Some? ==> block.keys == parser.mapping(text).value)
         && (parser.mapping(text).None? ==> t == 0 && block.keys == parser.permissive(text))
         && (block.isCanonical <==> "id" in block.keys)
  {
    hide Orderly, Scan, Markers, BlockOf;
    j := BlockPair(space, parser, content, t);
    var ms := Markers(space, content);
    BlockMeans(parser, content, ms[j], ms[j + 1], j == 0);
    var start := ms[j].end + 1;
    KeysMean(parser, content[start..if ms[j + 1].start - 1 < start then start else ms[j + 1].start - 1]);
  }

  lemma KeysMean(parser: Parser, text: string)
    ensures ParseBlockData(parser, text)
         == if parser.mapping(text).Some? then parser.mapping(text).value else parser.permissive(text)
  {}

  lemma FirstBlock(parser: Parser, content: string, open: Span, close: Span)
    requires open.end < close.start && close.end <= |content| && close.start <= close.end
    ensures BlockOf(parser, content, open, close, true).Some?
  {}

  // The text of a pair that is a block.
  function PairText(parser: Parser, content: string, open: Span, close: Span, first: bool): seq<string>
    requires open.end < close.start && close.end <= |content| && close.start <= close.end
  {
    var body := BodySpan(open, close);
    var text := content[body.start..body.end];
    if !first && parser.mapping(text).None? then [] else [text]
  }

  lemma TextsStep(parser: Parser, content: string, markers: seq<Span>, first: bool)
    requires Orderly(markers, 0, |content|) && |markers| >= 2
    ensures Orderly(markers[2..], 0, |content|)
    ensures markers[0].start < markers[0].end < markers[1].start < markers[1].end <= |content|
    ensures InText(content, Scan(parser, content, markers, first))
        && InText(content, Scan(parser, content, markers[2..], false))
    ensures Texts(content, Scan(parser, content, markers, first))
         == PairText(parser, content, markers[0], markers[1], first)
          + Texts(content, Scan(parser, content, markers[2..], false))
  {
    hide Orderly, Scan, Apart;
    assert markers[0..] == markers;
    ScanStep(parser, content, markers, 0, first);
    ScanInText(parser, content, markers, first);
    ScanInText(parser, content, markers[2..], false);
    var block := BlockOf(parser, content, markers[0], markers[1], first);
    var rest := Scan(parser, content, markers[2..], false);
    if block.Some? {
      assert ([block.value] + rest)[1..] == rest;
    } else {
      assert [] + rest == rest;
    }
  }

  // Scanning sees only the text up to the last marker.
  lemma {:induction false} ScanAgree(parser: Parser, x: string, y: string, markers: seq<Span>, first: bool, n: nat)
    requires n <= |x| && n <= |y| && x[..n] == y[..n] && Orderly(markers, 0, n)
    ensures Orderly(markers, 0, |x|) && Orderly(markers, 0, |y|)
    ensures InText(x, Scan(parser, x, markers, first)) && InText(y, Scan(parser, y, markers, first))
    ensures Texts(x, Scan(parser, x, markers, first)) == Texts(y, Scan(parser, y, markers, first))
    decreases |markers|
  {
    hide Orderly, Apart, Scan, InText, Texts;
    OrderlyWiden(markers, 0, n, |x|);
    OrderlyWiden(markers, 0, n, |y|);
    ScanInText(parser, x, markers, first);
    ScanInText(parser, y, markers, first);
    if |markers| >= 2 {
      OrderlyDrop(markers, 0, n, 0);
      OrderlyDrop(markers, 0, n, 2);
      ScanAgree(parser, x, y, markers[2..], false, n);
      TextsStep(parser, x, markers, first);
      TextsStep(parser, y, markers, first);
      BodyAgrees(x, y, n, BodySpan(markers[0], markers[1]));
    } else {
      NoTexts(parser, x, markers, first);
      NoTexts(parser, y, markers, first);
    }
  }

  lemma NoTexts(parser: Parser, content: string, markers: seq<Span>, first: bool)
    requires Orderly(markers, 0, |content|) && |markers| < 2
    ensures InText(content, Scan(parser, content, markers, first))
    ensures Texts(content, Scan(parser, content, markers, first)) == []
  {}

  lemma BodyAgrees(x: string, y: string, n: nat, body: Span)
    requires n <= |x| && n <= |y| && x[..n] == y[..n] && body.start <= body.end <= n
    ensures x[body.start..body.end] == y[body.start..body.end]
  {
    assert x[body.start..body.end] == x[..n][body.start..body.end];
    assert y[body.start..body.end] == y[..n][body.start..body.end];
  }

  lemma MovedOrderly(spans: seq<Span>, from: nat, to: nat, x: nat, y: nat)
    requires Orderly(spans, from, x) && x >= from && y >= to && x - from == y - to
    ensures From(spans, from) && Orderly(Moved(spans, from, to), to, y)
    ensures |Moved(spans, from, to)| == |spans|
    ensures forall i | 0 <= i < |spans| ::
      Moved(spans, from, to)[i] == Span(spans[i].start - from + to, spans[i].end - from + to)
  {
    MovedAt(spans, from, to);
  }

  lemma {:induction false} MovedAt(spans: seq<Span>, from: nat, to: nat)
    requires From(spans, from)
    ensures |Moved(spans, from, to)| == |spans|
    ensures forall i | 0 <= i < |spans| ::
      Moved(spans, from, to)[i] == Span(spans[i].start - from + to, spans[i].end - from + to)
  {
    if spans != [] {
      MovedAt(spans[1..], from, to);
    }
  }

  // Scanning a text that has only moved gives the same texts.
  lemma {:induction false} ScanMoved(parser: Parser, x: string, y: string, markers: seq<Span>, from: nat, to: nat)
    requires from <= |x| && to <= |y| && x[from..] == y[to..] && Orderly(markers, from, |x|)
    ensures From(markers, from) && Orderly(markers, 0, |x|) && Orderly(Moved(markers, from, to), 0, |y|)
    ensures InText(x, Scan(parser, x, markers, false)) && InText(y, Scan(parser, y, Moved(markers, from, to), false))
    ensures Texts(y, Scan(parser, y, Moved(markers, from, to), false)) == Texts(x, Scan(parser, x, markers, false))
    decreases |markers|
  {
    hide Orderly, Apart, Scan, InText, Texts;
    var moved := Moves(markers, from, to, |x|, |y|);
    ScanInText(parser, x, markers, false);
    ScanInText(parser, y, moved, false);
    if |markers| >= 2 {
      OrderlyDrop(markers, from, |x|, 0);
      OrderlyDrop(markers, from, |x|, 2);
      ScanMoved(parser, x, y, markers[2..], from, to);
      MovedDrop(markers, from, to);
      TextsStep(parser, x, markers, false);
      TextsStep(parser, y, moved, false);
      BodyMoved(x, y, from, to, markers[0], markers[1], moved[0], moved[1]);
    } else {
      NoTexts(parser, x, markers, false);
      NoTexts(parser, y, moved, false);
    }
  }

  lemma Moves(markers: seq<Span>, from: nat, to: nat, x: nat, y: nat) returns (moved: seq<Span>)
    requires Orderly(markers, from, x) && x >= from && y >= to && x - from == y - to
    ensures From(markers, from) && moved == Moved(markers, from, to) && |moved| == |markers|
    ensures Orderly(markers, 0, x) && Orderly(moved, 0, y)
    ensures |markers| >= 2 ==> from <= markers[0].start && From(markers[2..], from)
  {
    MovedOrderly(markers, from, to, x, y);
    moved := Moved(markers, from, to);
  }

  lemma MovedDrop(markers: seq<Span>, from: nat, to: nat)
    requires From(markers, from) && |markers| >= 2 && From(markers[2..], from)
    ensures |Moved(markers, from, to)| == |markers| && Moved(markers, from, to)[2..] == Moved(markers[2..], from, to)
    ensures Moved(markers, from, to)[0] == Span(markers[0].start - from + to, markers[0].end - from + to)
    ensures Moved(markers, from, to)[1] == Span(markers[1].start - from + to, markers[1].end - from + to)
  {
    MovedAt(markers, from, to);
    MovedAt(markers[2..], from, to);
  }

  lemma BodyMoved(x: string, y: string, from: nat, to: nat, o: Span, c: Span, p: Span, q: Span)
    requires from <= |x| && to <= |y| && x[from..] == y[to..]
    requires from <= o.start <= o.end < c.start <= c.end <= |x|
    requires p == Span(o.start - from + to, o.end - from + to) && q == Span(c.start - from + to, c.end - from + to)
    ensures var b, d := BodySpan(o, c), BodySpan(p, q);
      && b.start <= b.end <= |x| && d.start <= d.end <= |y|
      && x[b.start..b.end] == y[d.start..d.end]
  {
    var b, d := BodySpan(o, c), BodySpan(p, q);
    SliceFrom(x, from, b.start, b.end);
    SliceFrom(y, to, d.start, d.end);
  }

  lemma SliceFrom(x: string, from: nat, i: nat, j: nat)
    requires from <= i <= j <= |x|
    ensures x[i..j] == x[from..][i - from..j - from]
  {}

  // ------------------------------------------------------------ reading back

  // The texts of a scan, cut at an even marker.
  lemma TextsSplit(parser: Parser, content: string, markers: seq<Span>, j: nat)
    requires Orderly(markers, 0, |content|) && j + 1 < |markers| && j % 2 == 0
    ensures Orderly(markers[..j], 0, |content|) && Orderly(markers[j + 2..], 0, |content|)
    ensures markers[j].start < markers[j].end < markers[j + 1].start < markers[j + 1].end <= |content|
    ensures var p, r := Scan(parser, content, markers[..j], true), Scan(parser, content, markers[j + 2..], false);
      && InText(content, p) && InText(content, r) && InText(content, Scan(parser, content, markers, true))
      && Texts(content, Scan(parser, content, markers, true))
      == Texts(content, p) + PairText(parser, content, markers[j], markers[j + 1], j == 0) + Texts(content, r)
  {
    hide Orderly, Scan, InText, Texts, PairText;
    OrderlyDrop(markers, 0, |content|, j);
    OrderlyDrop(markers, 0, |content|, j + 2);
    ScanSplit(parser, content, markers, true, j);
    ScanInText(parser, content, markers[..j], true);
    ScanInText(parser, content, markers[j..], j == 0);
    ScanInText(parser, content, markers, true);
    TextsAppend(content, Scan(parser, content, markers[..j], true), Scan(parser, content, markers[j..], j == 0));
    TextsStep(parser, content, markers[j..], j == 0);
    assert markers[j..][2..] == markers[j + 2..];
    Associate(Texts(content, Scan(parser, content, markers[..j], true)),
           PairText(parser, content, markers[j], markers[j + 1], j == 0),
           Texts(content, Scan(parser, content, markers[j + 2..], false)));
  }

  // The marker list `ns` is `ms` with everything after marker j moved.
  ghost predicate Edited(ms: seq<Span>, ns: seq<Span>, j: nat, from: nat, to: nat) {
    && j + 1 < |ms| && From(ms[j + 1..], from)
    && ns == ms[..j + 1] + Moved(ms[j + 1..], from, to)
  }

  lemma EditedParts(ms: seq<Span>, ns: seq<Span>, j: nat, from: nat, to: nat, x: nat)
    requires Edited(ms, ns, j, from, to) && Orderly(ms, 0, x) && from == ms[j + 1].start
    ensures j + 1 < |ms| && |ns| == |ms| && ns[..j] == ms[..j] && ns[j] == ms[j]
    ensures ns[j + 1].start == to
    ensures Orderly(ms[j + 2..], from, x) && From(ms[j + 2..], from) && ns[j + 2..] == Moved(ms[j + 2..], from, to)
    ensures Orderly(ms[..j], 0, ms[j].end)
  {
    MovedAt(ms[j + 1..], from, to);
    assert ms[j + 1..][1..] == ms[j + 2..];
    assert Moved(ms[j + 1..], from, to)[1..] == Moved(ms[j + 2..], from, to);
  }

  lemma EditScan(parser: Parser, x: string, y: string, ms: seq<Span>, ns: seq<Span>, j: nat, from: nat, to: nat,
                 text: string)
    requires Orderly(ms, 0, |x|) && Orderly(ns, 0, |y|) && j % 2 == 0 && Edited(ms, ns, j, from, to)
    requires from == ms[j + 1].start && to == ms[j].end + |text| + 2
    requires ms[j].end <= |x| && to <= |y| && from <= |x|
    requires x[..ms[j].end] == y[..ms[j].end] && x[from..] == y[to..] && y[ms[j].end + 1..to - 1] == text
    requires j == 0 || parser.mapping(text).Some?
    requires ms[j].end < ms[j + 1].start <= ms[j + 1].end <= |x| && PairText(parser, x, ms[j], ms[j + 1], j == 0) != []
    ensures Orderly(ms[..j], 0, |x|)
    ensures InText(x, Scan(parser, x, ms, true)) && InText(y, Scan(parser, y, ns, true))
    ensures var t, old' := |Scan(parser, x, ms[..j], true)|, Texts(x, Scan(parser, x, ms, true));
      t < |old'| && Texts(y, Scan(parser, y, ns, true)) == old'[t := text]
    ensures |Scan(parser, x, ms[..j], true)| < |Scan(parser, y, ns, true)|
    ensures Scan(parser, y, ns, true)[|Scan(parser, x, ms[..j], true)|].body == Span(ms[j].end + 1, to - 1)
  {
    hide Orderly, Scan, InText, Texts, Edited, From, Moved;
    EditedParts(ms, ns, j, from, to, |x|);
    TextsSplit(parser, x, ms, j);
    TextsSplit(parser, y, ns, j);
    ScanAgree(parser, x, y, ms[..j], true, ms[j].end);
    ScanMoved(parser, x, y, ms[j + 2..], from, to);
    assert PairText(parser, y, ns[j], ns[j + 1], j == 0) == [text];
    assert |PairText(parser, x, ms[j], ms[j + 1], j == 0)| == 1;
    Replace(Texts(x, Scan(parser, x, ms[..j], true)), PairText(parser, x, ms[j], ms[j + 1], j == 0)[0], text,
            Texts(x, Scan(parser, x, ms[j + 2..], false)));
    BlockPlace(parser, y, ns, j);
  }

  // Where the pair at an even marker puts its block.
  lemma BlockPlace(parser: Parser, content: string, markers: seq<Span>, j: nat)
    requires Orderly(markers, 0, |content|) && j + 1 < |markers| && j % 2 == 0
    ensures Orderly(markers[..j], 0, |content|)
    ensures markers[j].end < markers[j + 1].start <= markers[j + 1].end <= |content|
    ensures var t, blocks := |Scan(parser, content, markers[..j], true)|, Scan(parser, content, markers, true);
      PairText(parser, content, markers[j], markers[j + 1], j == 0) != [] ==>
        t < |blocks| && blocks[t].body == BodySpan(markers[j], markers[j + 1])
  {
    hide Orderly, Scan;
    ScanSplit(parser, content, markers, true, j);
    ScanStep(parser, content, markers, j, j == 0);
  }

  lemma Replace(x: seq<string>, y: string, y': string, z: seq<string>)
    ensures (x + [y] + z)[|x| := y'] == x + [y'] + z
  {}

  // There was at least one line between the markers, so the body ends before a newline.
  predicate HasLine(content: string, block: Block) {
    block.body.end < |content| && content[block.body.end] == NL
  }

  ghost predicate Pair(space: char -> bool, parser: Parser, content: string, t: nat, j: nat, block: Block) {
    var ms := Markers(space, content);
    && j % 2 == 0 && j + 1 < |ms| && (j == 0 <==> t == 0)
    && Orderly(ms, 0, |content|) && Orderly(ms[..j], 0, |content|)
    && |Scan(parser, content, ms[..j], true)| == t
    && ms[j].start < ms[j].end < ms[j + 1].start < ms[j + 1].end <= |content|
    && "---" <= content
    && BlockOf(parser, content, ms[j], ms[j + 1], j == 0) == Some(block)
  }

  lemma BlockPair(space: char -> bool, parser: Parser, content: string, t: nat) returns (j: nat)
    requires t < |Blocks(space, parser, content)|
    ensures Pair(space, parser, content, t, j, Blocks(space, parser, content)[t])
  {
    hide Orderly, Scan, BlockOf, Markers;
    MarkersOrderly(space, content);
    j := PairOf(parser, content, Markers(space, content), true, t);
  }

  // The body of a cut pair, and when it had a line.
  lemma CutBody(space: char -> bool, parser: Parser, content: string, t: nat, j: nat, block: Block,
                a: seq<string>, b: seq<string>, c: seq<string>)
    requires Pair(space, parser, content, t, j, block) && Cut(space, content, j, a, b, c)
    ensures block.body.start == Len(a) <= block.body.end <= |content|
    ensures HasLine(content, block) <==> b != []
    ensures b != [] ==> Len(b) >= 1 && block.body.end == Len(a) + Len(b) - 1
    ensures b == [] ==> Len(b) == 0 && block.body.end == Len(a)
  {
    hide Orderly, Scan, Markers, After, Spans, Mask, NoHeading, Len, Join, Split;
    Pieces(content, a, b, c);
    if b == [] {
      LenNone();
      JoinStarts(c);
      assert content[Len(a) + Len(b)..][0] == content[Len(a)];
    } else {
      assert content[Len(a) + Len(b) - 1..][0] == content[Len(a) + Len(b) - 1];
    }
  }

  lemma JoinStarts(lines: seq<string>)
    requires lines != [] && "---" <= lines[0]
    ensures "---" <= Join(lines, NL)
  {}

  lemma BlocksInText(space: char -> bool, parser: Parser, content: string)
    ensures InText(content, Blocks(space, parser, content))
  {
    hide Markers, Orderly;
    MarkersOrderly(space, content);
    ScanInText(parser, content, Markers(space, content), true);
  }

  // The texts a scan finds, and the content with the text of block t replaced.
  function BlockTexts(space: char -> bool, parser: Parser, content: string): (texts: seq<string>)
    ensures |texts| == |Blocks(space, parser, content)|
  {
    BlocksInText(space, parser, content);
    Texts(content, Blocks(space, parser, content))
  }

  function Updated(space: char -> bool, parser: Parser, content: string, t: nat, text: string): string
    requires t < |Blocks(space, parser, content)|
  {
    BlocksInText(space, parser, content);
    Spliced(content, Blocks(space, parser, content)[t], text)
  }

  // A later scan finds block t exactly where the text was put.
  predicate InPlace(space: char -> bool, parser: Parser, content: string, t: nat, text: string)
    requires t < |Blocks(space, parser, content)|
  {
    var start := Blocks(space, parser, content)[t].body.start;
    var found := Blocks(space, parser, Updated(space, parser, content, t, text));
    t < |found| && found[t].body == Span(start, start + |text|)
  }

  lemma ReadsBack(space: char -> bool, parser: Parser, content: string, t: nat, text: string)
    requires t < |Blocks(space, parser, content)| && HasLine(content, Blocks(space, parser, content)[t])
    requires Contained(space, text) && (t > 0 ==> parser.mapping(text).Some?)
    ensures BlockTexts(space, parser, Updated(space, parser, content, t, text))
        == BlockTexts(space, parser, content)[t := text]
    ensures InPlace(space, parser, content, t, text)
  {
    hide Orderly, Scan, Markers, Cut, Contained, Apart, HasLine, BlockOf, Len;
    var block := Blocks(space, parser, content)[t];
    BlocksApart(space, parser, content);
    BlocksInText(space, parser, content);
    var j := BlockPair(space, parser, content, t);
    var a, b, c := CutAt(space, content, j);
    CutBody(space, parser, content, t, j, block, a, b, c);
    CutMarkers(space, content, j, a, b, c);
    var updated := Updated(space, parser, content, t, text);
    UpdatedMarkers(space, content, text, updated, j, a, b, c);
    MarkersOrderly(space, updated);
    SplicedParts(content, text, updated, Len(a), Len(b));
    var ms, ns := Markers(space, content), Markers(space, updated);
    PairHasText(parser, content, ms[j], ms[j + 1], j == 0);
    EditScan(parser, content, updated, ms, ns, j, Len(a) + Len(b), Len(a) + |text| + 1, text);
    BlocksInText(space, parser, updated);
  }

  lemma PairHasText(parser: Parser, content: string, open: Span, close: Span, first: bool)
    requires open.end < close.start && close.end <= |content| && close.start <= close.end
    requires BlockOf(parser, content, open, close, first).Some?
    ensures PairText(parser, content, open, close, first) != []
  {}

  lemma CutMarkers(space: char -> bool, content: string, j: nat, a: seq<string>, b: seq<string>, c: seq<string>)
    requires Cut(space, content, j, a, b, c)
    ensures var ms := Markers(space, content);
      j + 1 < |ms| && ms[j].end + 1 == Len(a) && ms[j + 1].start == Len(a) + Len(b)
  {}

  lemma SplicedParts(content: string, text: string, updated: string, a: nat, b: nat)
    requires 4 <= a && 1 <= b && a + b <= |content|
    requires updated == content[..a] + text + content[a + b - 1..] && "---" <= content
    ensures "---" <= updated && a + |text| + 1 <= |updated|
    ensures content[..a - 1] == updated[..a - 1]
    ensures content[a + b..] == updated[a + |text| + 1..]
    ensures updated[a..a + |text|] == text
  {
    var tail := content[a + b - 1..];
    assert tail[1..] == content[a + b..];
    assert updated[a + |text|..] == tail;
    assert updated[..a] == content[..a];
    assert updated[..a - 1] == updated[..a][..a - 1] && content[..a - 1] == content[..a][..a - 1];
    assert updated[..3] == updated[..a][..3] && content[..3] == content[..a][..3];
  }

  // ------------------------------------------------------------ when it is not read back

  // Two cuts of the same lines at the same length are one cut.
  lemma LenGrows(a: seq<string>, b: seq<string>)
    requires a < b
    ensures Len(a) < Len(b)
  {
    LenAppend(a, b[|a|..]);
    assert b == a + b[|a|..];
  }

  lemma SamePrefix(a: seq<string>, r: seq<string>, x: seq<string>, s: seq<string>)
    requires a + r == x + s && Len(a) == Len(x)
    ensures a == x && r == s
  {
    hide Len;
    var lines := a + r;
    assert a == lines[..|a|] && x == lines[..|x|];
    if |a| < |x| {
      LenGrows(a, x);
    } else if |x| < |a| {
      LenGrows(x, a);
    }
    assert r == lines[|a|..] && s == lines[|x|..];
  }

  lemma SamePieces(a: seq<string>, f: seq<string>, c: seq<string>, x: seq<string>, y: seq<string>, z: seq<string>)
    requires a + f + c == x + y + z && Len(a) == Len(x) && Len(f) == Len(y)
    ensures a == x && f == y && c == z
  {
    hide Len;
    Associate(a, f, c);
    Associate(x, y, z);
    SamePrefix(a, f + c, x, y + z);
    SamePrefix(f, c, y, z);
  }

  // The pair that holds a text found in place.
  lemma PlacePair(space: char -> bool, parser: Parser, content: string, t: nat, text: string)
      returns (j: nat, a: seq<string>, b: seq<string>, c: seq<string>)
    requires t < |Blocks(space, parser, content)| && text != "" && InPlace(space, parser, content, t, text)
    ensures var updated := Updated(space, parser, content, t, text);
      var start := Blocks(space, parser, content)[t].body.start;
      && t < |Blocks(space, parser, updated)| && Pair(space, parser, updated, t, j, Blocks(space, parser, updated)[t])
      && Cut(space, updated, j, a, b, c)
      && Len(a) == start && Len(b) == |text| + 1
  {
    hide Orderly, Scan, Markers, Cut, Apart, HasLine, Len;
    var updated := Updated(space, parser, content, t, text);
    j := BlockPair(space, parser, updated, t);
    a, b, c := CutAt(space, updated, j);
    CutBody(space, parser, updated, t, j, Blocks(space, parser, updated)[t], a, b, c);
  }

  lemma PlaceHasLine(space: char -> bool, parser: Parser, content: string, t: nat, text: string)
    requires t < |Blocks(space, parser, content)| && text != "" && InPlace(space, parser, content, t, text)
    ensures HasLine(content, Blocks(space, parser, content)[t])
    ensures t > 0 ==> parser.mapping(text).Some?
  {
    hide Orderly, Scan, Markers, Cut, Len, Split, Join, Ended;
    var block, updated := Blocks(space, parser, content)[t], Updated(space, parser, content, t, text);
    BlocksApart(space, parser, content);
    var j, a, b, c := PlacePair(space, parser, content, t, text);
    var found := Blocks(space, parser, updated)[t];
    CutBody(space, parser, updated, t, j, found, a, b, c);
    SplicedAt(content, block.body.start, block.body.end, text);
    FoundText(parser, updated, Markers(space, updated)[j], Markers(space, updated)[j + 1], j == 0, found);
  }

  lemma SplicedAt(content: string, start: nat, end: nat, text: string)
    requires start <= end < |content|
    ensures var updated := content[..start] + text + content[end..];
      start + |text| < |updated| && updated[start + |text|] == content[end] && updated[start..start + |text|] == text
  {}

  lemma FoundText(parser: Parser, content: string, open: Span, close: Span, first: bool, found: Block)
    requires open.end < close.start && close.end <= |content| && close.start <= close.end
    requires BlockOf(parser, content, open, close, first) == Some(found)
    ensures found.body.start <= found.body.end <= |content|
    ensures !first ==> parser.mapping(content[found.body.start..found.body.end]).Some?
  {}

  lemma PlaceContained(space: char -> bool, parser: Parser, content: string, t: nat, text: string)
    requires t < |Blocks(space, parser, content)| && text != "" && InPlace(space, parser, content, t, text)
    ensures Contained(space, text)
  {
    hide Orderly, Scan, Markers, Cut, Apart, HasLine, BlockOf, Len, Split, Join, Ended;
    var block, updated := Blocks(space, parser, content)[t], Updated(space, parser, content, t, text);
    var j', x, y, z := PlacePair(space, parser, content, t, text);
    PlaceHasLine(space, parser, content, t, text);
    var j := BlockPair(space, parser, content, t);
    var a, b, c := CutAt(space, content, j);
    CutBody(space, parser, content, t, j, block, a, b, c);
    CutIsLines(space, content, j, a, b, c);
    CutIsLines(space, updated, j', x, y, z);
    UpdatedLines(content, text, a, b, c);
    SplitLength(text);
    SamePieces(a, Split(text, NL), c, x, y, z);
    CutContained(space, updated, j', a, text, c);
  }

  lemma SplitLength(text: string)
    ensures Len(Split(text, NL)) == |text| + 1
  {
    JoinSplit(text, NL);
    LenJoin(Split(text, NL));
  }

  lemma CutIsLines(space: char -> bool, content: string, j: nat, a: seq<string>, b: seq<string>, c: seq<string>)
    requires Cut(space, content, j, a, b, c)
    ensures a != [] && c != [] && Split(content, NL) == a + b + c && Len(a) + Len(b) <= |content|
  {
    hide Len, Split, Join;
    Pieces(content, a, b, c);
  }

  // Between the markers of a pair no fence stays open, no heading and no marker shows.
  lemma CutContained(space: char -> bool, content: string, j: nat, a: seq<string>, text: string, c: seq<string>)
    requires Cut(space, content, j, a, Split(text, NL), c)
    ensures Contained(space, text)
  {
    hide Markers, Spans, Mask, HeaderLines, After, Len, Split, NoHeading;
    var f, ms := Split(text, NL), Markers(space, content);
    MaskAppend(space, a, f, None);
    MarkersOfPieces(space, content, a, f, c);
    var x, y, z := Spans(Mask(space, a, None), 0), Spans(Mask(space, f, None), Len(a)), ms[j + 1..];
    assert |x + y + z| == |ms| && |x| + |z| == |ms|;
    SpansMoved(Mask(space, f, None), Len(a), 0);
    MovedNone(Len(a), 0);
  }

  // The first block keeps its opening marker, so it is read back only in place.
  lemma FirstInPlace(space: char -> bool, parser: Parser, content: string, text: string)
    requires Blocks(space, parser, content) != []
    requires BlockTexts(space, parser, Updated(space, parser, content, 0, text))
        == BlockTexts(space, parser, content)[0 := text]
    ensures InPlace(space, parser, content, 0, text)
  {
    hide Orderly, Scan, Markers, Cut, Apart, HasLine, Len, Split, Blocks, BlockTexts;
    var block, updated := Blocks(space, parser, content)[0], Updated(space, parser, content, 0, text);
    var j := BlockPair(space, parser, content, 0);
    var a, b, c := CutAt(space, content, j);
    CutBody(space, parser, content, 0, j, block, a, b, c);
    var tail := text + content[block.body.end..];
    BlocksApart(space, parser, content);
    CutStart(space, content, a, b, c);
    assert updated == content[..Len(a)] + tail;
    StartKept(space, content, updated, tail, a, b, c);
    FirstBlockAt(space, parser, updated);
  }

  // The first block starts behind the first marker.
  lemma FirstBlockAt(space: char -> bool, parser: Parser, content: string)
    requires Blocks(space, parser, content) != []
    ensures var found := Blocks(space, parser, content)[0];
      && Markers(space, content) != [] && found.body.start == Markers(space, content)[0].end + 1
      && |BlockTexts(space, parser, content)[0]| == found.body.end - found.body.start
  {
    hide Orderly, Scan, Markers;
    var j := BlockPair(space, parser, content, 0);
    BlocksInText(space, parser, content);
    var found := Blocks(space, parser, content)[0];
    assert BlockTexts(space, parser, content)[0] == BodyText(content, found);
  }

  lemma CutStart(space: char -> bool, content: string, a: seq<string>, b: seq<string>, c: seq<string>)
    requires Cut(space, content, 0, a, b, c)
    ensures a != [] && c != [] && Split(content, NL) == a + b + c && Len(a) <= |content|
    ensures NoHeading(a) && After(space, a, None) == None
    ensures Markers(space, content) != [] && Markers(space, content)[0].end + 1 == Len(a)
    ensures Spans(Mask(space, a, None), 0) == [Markers(space, content)[0]]
  {
    hide Len, Split, Join, Markers, Spans, Mask, HeaderLines, After, NoHeading;
    Pieces(content, a, b, c);
  }

  lemma StartKept(space: char -> bool, content: string, updated: string, tail: string, a: seq<string>,
                  b: seq<string>, c: seq<string>)
    requires a != [] && c != [] && Split(content, NL) == a + b + c && Len(a) <= |content|
    requires NoHeading(a) && After(space, a, None) == None
    requires Markers(space, content) != [] && Spans(Mask(space, a, None), 0) == [Markers(space, content)[0]]
    requires updated == content[..Len(a)] + tail
    ensures Markers(space, updated) != [] && Markers(space, updated)[0] == Markers(space, content)[0]
  {
    hide Len, Split, Join, Markers, Spans, Mask, HeaderLines, After, Ended, IsHeading;
    Pieces(content, a, b, c);
    EndedLength(a);
    var rest := Split(tail, NL);
    JoinSplit(tail, NL);
    JoinAppend(a, rest, NL);
    SplitParts(content, NL);
    SplitParts(tail, NL);
    PlainPieces(a, b, c, rest);
    SplitJoin(a + rest, NL);
    assert a + [] + rest == a + rest;
    MarkersOfPieces(space, updated, a, [], rest);
  }

  // What a later scan reads back after one block's text is replaced is the new text in that
  // place and every other text unchanged, exactly when the block had a line to replace, the
  // new text closes its fences and shows neither a heading nor a marker, and, for a later
  // block, loads as a mapping.
  lemma ReadBackIff(space: char -> bool, parser: Parser, content: string, t: nat, text: string)
    requires t < |Blocks(space, parser, content)| && text != ""
    ensures
      var updated := Updated(space, parser, content, t, text);
      var keeps := BlockTexts(space, parser, updated) == BlockTexts(space, parser, content)[t := text];
      var fits := HasLine(content, Blocks(space, parser, content)[t]) && Contained(space, text);
      && (keeps && InPlace(space, parser, content, t, text) <==> fits && (t > 0 ==> parser.mapping(text).Some?))
      && (t == 0 ==> (keeps <==> fits))
  {
    hide *;
    var updated := Updated(space, parser, content, t, text);
    var keeps := BlockTexts(space, parser, updated) == BlockTexts(space, parser, content)[t := text];
    var fits := HasLine(content, Blocks(space, parser, content)[t]) && Contained(space, text);
    if fits && (t > 0 ==> parser.mapping(text).Some?) {
      ReadsBack(space, parser, content, t, text);
    }
    if keeps && t == 0 {
      FirstInPlace(space, parser, content, text);
    }
    if InPlace(space, parser, content, t, text) {
      PlaceHasLine(space, parser, content, t, text);
      PlaceContained(space, parser, content, t, text);
    }
  }

  // ------------------------------------------------------------ two texts that are not read back

  predicate IsBlank(c: char) {
    c == ' '
  }

  // Two markers on successive lines: a block without a line, so an update of it is lost.
  lemma EmptyBlockExample(parser: Parser)
    ensures var content := Join(["---", "---", ""], NL);
      var blocks := Blocks(IsBlank, parser, content);
      |blocks| == 1 && blocks[0].span == Span(0, 7) && blocks[0].body == Span(4, 4) && !HasLine(content, blocks[0])
  {
    hide Blocks, Join, Split, Markers, Spans, MarkerLines;
    var lines := ["---", "---", ""];
    var content := Join(lines, NL);
    SplitJoin(lines, NL);
    MarkersByLine(IsBlank, content);
    MarkersTwo();
    BeginsWithMarker(lines);
    OneBlock(IsBlank, parser, content, Span(0, 3), Span(4, 7));
    NoLineThere(lines);
  }

  lemma BeginsWithMarker(lines: seq<string>)
    requires lines != [] && lines[0] == "---"
    ensures "---" <= Join(lines, NL)
  {}

  lemma NoLineThere(lines: seq<string>)
    requires lines == ["---", "---", ""]
    ensures |Join(lines, NL)| == 8 && Join(lines, NL)[4] == '-'
  {
    assert lines[1..] == ["---", ""] && lines[1..][1..] == [""];
    assert Join(lines[1..], NL) == "---" + [NL] + "";
  }

  lemma MarkersTwo()
    ensures Spans(MarkerLines(IsBlank, ["---", "---", ""]), 0) == [Span(0, 3), Span(4, 7)]
  {
    hide FenceOf, Mask;
    var lines := ["---", "---", ""];
    NoHeaderCut(lines);
    Unfenced("---");
    Unfenced("");
    Unfences(lines, {"---", ""});
    assert lines[1..] == ["---", ""] && ["---", ""][1..] == [""] && [""][1..] == [];
    assert Spans([""], 8) == [];
  }

  lemma {:induction false} NoHeaderCut(lines: seq<string>)
    requires forall l | l in lines :: l == "" || l[0] != '#'
    ensures HeaderLines(lines) == lines
  {
    if lines != [] {
      assert lines[0] in lines;
      NoHeaderCut(lines[1..]);
    }
  }

  lemma Unfenced(line: string)
    requires line == "" || (line[0] != ' ' && line[0] != '`' && line[0] != '~' && line[|line| - 1] != ' ')
    ensures FenceOf(IsBlank, line).None?
  {
    assert TrimLeft(IsBlank, line) == line && TrimRight(IsBlank, line) == line;
  }

  lemma Unfences(lines: seq<string>, known: set<string>)
    requires (forall l | l in known :: FenceOf(IsBlank, l).None?) && forall l | l in lines :: l in known
    ensures Mask(IsBlank, lines, None) == lines && After(IsBlank, lines, None) == None
  {
    hide FenceOf;
    assert forall i | 0 <= i < |lines| :: lines[i] in lines;
    NoFenceUnmasked(IsBlank, lines);
  }

  lemma OneBlock(space: char -> bool, parser: Parser, content: string, open: Span, close: Span)
    requires "---" <= content && Markers(space, content) == [open, close]
    ensures open.end < close.start <= close.end <= |content|
    ensures var blocks := Blocks(space, parser, content);
      |blocks| == 1 && blocks[0].span == Span(open.start, close.end) && blocks[0].body == BodySpan(open, close)
  {
    hide Markers;
    MarkersOrderly(space, content);
    var ms := Markers(space, content);
    ScanStep(parser, content, ms, 0, true);
    assert ms[0..] == ms && ms[2..] == [];
    ScanShort(parser, content, [], false);
  }

  // A block with a line, updated with a quoted value whose continuation is a code fence: the
  // fence opens in the value, covers the closing marker, and no block is left.
  lemma OpenFenceExample(parser: Parser)
    ensures var content := Join(["---", "a: b", "---", ""], NL);
      var blocks := Blocks(IsBlank, parser, content);
      && |blocks| == 1 && HasLine(content, blocks[0])
      && var text := Join(["note: 'x", "", "  ```", "", "  y'"], NL);
         Blocks(IsBlank, parser, Updated(IsBlank, parser, content, 0, text)) == []
  {
    hide Blocks, Join, Split, Markers, Spans, MarkerLines;
    var a, b, c := ["---"], ["a: b"], ["---", ""];
    var content := Join(["---", "a: b", "---", ""], NL);
    var f := ["note: 'x", "", "  ```", "", "  y'"];
    assert a + b + c == ["---", "a: b", "---", ""];
    SplitJoin(a + b + c, NL);
    MarkersByLine(IsBlank, content);
    MarkersOne();
    BeginsWithMarker(a + b + c);
    OneBlock(IsBlank, parser, content, Span(0, 3), Span(9, 12));
    OneLine();
    LineThere(content, a, b, c);
    UpdatedLines(content, Join(f, NL), a, b, c);
    SplitJoin(f, NL);
    var updated := Updated(IsBlank, parser, content, 0, Join(f, NL));
    assert a + f + c == ["---", "note: 'x", "", "  ```"] + ["", "  y'", "---", ""];
    MarkersByLine(IsBlank, updated);
    MarkersFenced();
    NoBlock(IsBlank, parser, updated);
  }

  lemma OneLine()
    ensures Len(["---"]) == 4 && Len(["a: b"]) == 5
  {
    assert ["---"][1..] == [] && ["a: b"][1..] == [];
  }

  lemma LineThere(content: string, a: seq<string>, b: seq<string>, c: seq<string>)
    requires a != [] && b != [] && c != [] && Split(content, NL) == a + b + c
    ensures Len(b) >= 1 && Len(a) + Len(b) - 1 < |content| && content[Len(a) + Len(b) - 1] == NL
  {
    hide Len, Split, Join;
    Pieces(content, a, b, c);
    assert content[Len(a) + Len(b) - 1..][0] == content[Len(a) + Len(b) - 1];
  }

  lemma NoBlock(space: char -> bool, parser: Parser, content: string)
    requires |Markers(space, content)| < 2
    ensures Blocks(space, parser, content) == []
  {
    MarkersOrderly(space, content);
    ScanShort(parser, content, Markers(space, content), true);
  }

  lemma MarkersOne()
    ensures Spans(MarkerLines(IsBlank, ["---", "a: b", "---", ""]), 0) == [Span(0, 3), Span(9, 12)]
  {
    hide FenceOf, Mask;
    var lines := ["---", "a: b", "---", ""];
    NoHeaderCut(lines);
    Unfenced("---");
    Unfenced("a: b");
    Unfenced("");
    Unfences(lines, {"---", "a: b", ""});
    assert lines[1..] == ["a: b", "---", ""] && ["a: b", "---", ""][1..] == ["---", ""];
    assert ["---", ""][1..] == [""] && [""][1..] == [];
    assert Spans([""], 13) == [];
  }

  lemma MarkersFenced()
    ensures |Spans(MarkerLines(IsBlank, ["---", "note: 'x", "", "  ```"] + ["", "  y'", "---", ""]), 0)| == 1
  {
    hide FenceOf, Strip, Mask, After, Spans, IsMarker, IsHeading;
    var head, fence, tail := ["---", "note: 'x", ""], ["  ```"], ["", "  y'", "---", ""];
    assert ["---", "note: 'x", "", "  ```"] + tail == head + (fence + tail);
    NoHeaderCut(head + (fence + tail));
    HeadUnfenced();
    MaskAppend(IsBlank, head, fence + tail, None);
    MaskAppend(IsBlank, fence, tail, None);
    FenceMasked();
    StaysFenced(tail);
    SpansAppend(head, Mask(IsBlank, fence + tail, None), 0);
    NoSpans(Mask(IsBlank, fence + tail, None), Len(head));
  }

  lemma HeadUnfenced()
    ensures var head := ["---", "note: 'x", ""];
      Mask(IsBlank, head, None) == head && After(IsBlank, head, None) == None && |Spans(head, 0)| == 1
  {
    hide FenceOf, Mask, After;
    var head := ["---", "note: 'x", ""];
    Unfenced("---");
    Unfenced("note: 'x");
    Unfenced("");
    Unfences(head, {"---", "note: 'x", ""});
    assert head[1..] == ["note: 'x", ""] && ["note: 'x", ""][1..] == [""] && [""][1..] == [];
    assert Spans([""], 13) == [];
  }

  lemma FenceMasked()
    ensures After(IsBlank, ["  ```"], None) == Some("```")
    ensures |Mask(IsBlank, ["  ```"], None)| == 1 && !IsMarker(Mask(IsBlank, ["  ```"], None)[0])
  {
    hide FenceOf, IsMarker;
    FenceLine();
    assert ["  ```"][1..] == [];
  }

  lemma FenceLine()
    ensures FenceOf(IsBlank, "  ```") == Some("```") && !IsMarker(MaskLine(IsBlank, "  ```", None))
  {
    assert "  ```"[1..] == " ```" && " ```"[1..] == "```";
    assert TrimLeft(IsBlank, "```") == "```" && TrimLeft(IsBlank, " ```") == "```";
    assert TrimLeft(IsBlank, "  ```") == "```";
    BlankNoMarker(5);
  }

  // Inside the open fence everything is masked, the closing marker included.
  lemma StaysFenced(tail: seq<string>)
    requires tail == ["", "  y'", "---", ""]
    ensures var masked := Mask(IsBlank, tail, Some("```"));
      forall i | 0 <= i < |masked| :: !IsMarker(masked[i])
  {
    NotClosed("");
    NotClosed("  y'");
    NotClosed("---");
    AllMasked(tail);
    assert forall i | 0 <= i < |Mask(IsBlank, tail, Some("```"))| ::
      Mask(IsBlank, tail, Some("```"))[i] in Mask(IsBlank, tail, Some("```"));
  }

  lemma NotClosed(line: string)
    requires line == "" || line == "  y'" || line == "---"
    ensures !("```" <= Strip(IsBlank, line))
  {
    if line == "  y'" {
      assert line[1..] == " y'" && " y'"[1..] == "y'";
      assert TrimLeft(IsBlank, "y'") == "y'" && TrimLeft(IsBlank, " y'") == "y'" && TrimLeft(IsBlank, line) == "y'";
      assert TrimRight(IsBlank, "y'") == "y'";
    } else {
      assert TrimLeft(IsBlank, line) == line && TrimRight(IsBlank, line) == line;
    }
  }

  lemma {:induction false} AllMasked(lines: seq<string>)
    requires forall l | l in lines :: !("```" <= Strip(IsBlank, l))
    ensures forall l | l in Mask(IsBlank, lines, Some("```")) :: !IsMarker(l)
  {
    hide Strip, IsMarker;
    if lines != [] {
      assert lines[0] in lines;
      AllMasked(lines[1..]);
      BlankNoMarker(|lines[0]|);
      assert Mask(IsBlank, lines, Some("```")) == [Blank(|lines[0]|)] + Mask(IsBlank, lines[1..], Some("```"));
    }
  }
}
