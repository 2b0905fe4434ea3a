/** `filter_output` on text: what the joined lines still tell about the lines that were kept,
    when filtering again changes nothing, and when a trailing newline appears. */
module OutputText {
  import opened Basics
  import opened Text
  import opened OutputCleaner

  function Render(t: Token): string {
    match t
    case Line(text) => text
    case Repeat(indent, count) => indent + "\U{2026} (repeated " + Decimal(count) + "\U{D7})"
  }

  function RenderAll(tokens: seq<Token>): seq<string> {
    seq(|tokens|, i requires 0 <= i < |tokens| => Render(tokens[i]))
  }

  predicate EndsWithNewline(s: string) {
    s != "" && s[|s| - 1] == '\n'
  }

  // `filter_output`
  function FilterText(rules: Rules, raw: string, fold: Fold): string {
    if raw == "" then ""
    else
      var text := Join(RenderAll(Filtered(rules, Split(raw, '\n'), fold)), '\n');
      if EndsWithNewline(raw) && !EndsWithNewline(text) then text + "\n" else text
  }

  // ------------------------------------------------------------ the trailing newline

  lemma {:induction false} JoinEnds(parts: seq<string>)
    requires parts != []
    ensures EndsWithNewline(Join(parts, '\n')) <==>
      EndsWithNewline(parts[|parts| - 1]) || (parts[|parts| - 1] == "" && |parts| > 1)
  {
    if |parts| > 1 {
      JoinEnds(parts[1..]);
      var rest := Join(parts[1..], '\n');
      var all := parts[0] + ['\n'] + rest;
      if rest == "" { assert all[|all| - 1] == '\n'; } else { assert all[|all| - 1] == rest[|rest| - 1]; }
      if |parts| > 2 { JoinEmpty(parts[1..]); }
    }
  }

  lemma JoinEmpty(parts: seq<string>)
    requires |parts| > 1
    ensures Join(parts, '\n') != ""
  {}

  ghost predicate NewlineFree(lines: seq<string>) {
    forall i | 0 <= i < |lines| :: '\n' !in lines[i]
  }

  lemma {:induction false} KeptNewlineFree(rules: Rules, before: string, lines: seq<string>)
    requires NewlineFree(lines)
    ensures (forall s: string | '\n' !in s :: '\n' !in rules.clean(s)) ==> NewlineFree(Cleaned(rules, lines))
    ensures NewlineFree(Normal(before, lines))
    decreases |lines|
  {
    if lines != [] {
      KeptNewlineFree(rules, lines[0], lines[1..]);
    }
  }

  lemma {:induction false} NormalStarts(lines: seq<string>)
    ensures Normal("", lines) != [] ==> Normal("", lines)[0] != ""
    decreases |lines|
  {
    if lines != [] && lines[0] == "" {
      NormalStarts(lines[1..]);
      assert [] + Normal("", lines[1..]) == Normal("", lines[1..]);
    }
  }

  // No blank line at the start, after another blank, or after `before` when that is blank.
  predicate IsNormal(before: string, lines: seq<string>)
    decreases |lines|
  {
    lines == [] || ((lines[0] == "" ==> before != "") && IsNormal(lines[0], lines[1..]))
  }

  lemma {:induction false} NormalIsNormal(before: string, lines: seq<string>)
    ensures IsNormal(before, Normal(before, lines))
    decreases |lines|
  {
    if lines != [] {
      NormalIsNormal(lines[0], lines[1..]);
      var rest := Normal(lines[0], lines[1..]);
      if lines[0] == "" && before == "" {
        assert [] + rest == rest;
      } else {
        assert ([lines[0]] + rest)[1..] == rest;
      }
    }
  }

  // The code of a list ends like the list: with its last line, or with a marker for it.
  lemma {:induction false} EncodeEnds(lines: seq<string>, fold: Fold)
    requires lines != []
    ensures var code, last := Encode(lines, fold), lines[|lines| - 1];
      code != [] && (code[|code| - 1] == Line(last) || (last != "" && code[|code| - 1].Repeat?))
    decreases |lines|
  {
    hide Encode, Tail, Copies, Render, Join;
    NothingEncoded(fold);
    if lines[0] == "" {
      BlankCode(lines, fold);
      if |lines| > 1 {
        EncodeEnds(lines[1..], fold);
        LastOf([Line("")], Encode(lines[1..], fold));
        assert lines[|lines| - 1] == lines[1..][|lines[1..]| - 1];
      } else {
        assert lines[1..] == [] && [Line("")] + [] == [Line("")];
      }
    } else {
      var n := FirstRun(lines, fold);
      var head, rest := [Line(lines[0])] + Tail(lines[0], n + 1, fold), lines[n + 1..];
      TailEnds(lines[0], n + 1, fold);
      RunEnds(lines, n);
      if rest != [] {
        EncodeEnds(rest, fold);
        LastOf(head, Encode(rest, fold));
        assert lines[|lines| - 1] == rest[|rest| - 1];
      } else {
        assert head + [] == head;
      }
    }
  }

  lemma LastOf(a: seq<Token>, b: seq<Token>)
    requires b != []
    ensures a + b != [] && (a + b)[|a + b| - 1] == b[|b| - 1]
  {}

  lemma BlankCode(lines: seq<string>, fold: Fold)
    requires lines != [] && lines[0] == ""
    ensures Encode(lines, fold) == [Line("")] + Encode(lines[1..], fold)
  {}

  lemma TailEnds(line: string, run: nat, fold: Fold)
    requires line != ""
    ensures var head := [Line(line)] + Tail(line, run, fold);
      head[|head| - 1] == Line(line) || head[|head| - 1].Repeat?
  {}

  // A first line that is not blank and a last one that is make at least two tokens.
  lemma EncodeLong(lines: seq<string>, fold: Fold)
    requires lines != []
    ensures |lines| > 1 && lines[0] != "" && lines[|lines| - 1] == "" ==> |Encode(lines, fold)| > 1
  {
    hide Encode, Tail;
    if |lines| > 1 && lines[0] != "" && lines[|lines| - 1] == "" {
      var n := FirstRun(lines, fold);
      RunEnds(lines, n);
      EncodeEnds(lines[n + 1..], fold);
    }
  }

  lemma RunEnds(lines: seq<string>, n: nat)
    requires lines != [] && n + 1 <= |lines| && lines == Copies(lines[0], n + 1) + lines[n + 1..]
    ensures lines[|lines| - 1] != lines[0] ==> n + 1 < |lines|
  {}

  lemma {:induction false} ExpandsPlain(t: Token)
    requires t.Line? ==> '\n' !in t.text
    ensures !EndsWithNewline(Render(t)) && (Render(t) == "" <==> t == Line(""))
  {
    if t.Repeat? {
      var s := Render(t);
      assert s[|s| - 1] == '\U{D7}' || s[|s| - 1] == ')';
    }
  }

  // Cleaning keeps a line a line.
  ghost predicate KeepsLines(rules: Rules) {
    forall s: string | '\n' !in s :: '\n' !in rules.clean(s)
  }

  function Kept(rules: Rules, raw: string): seq<string> {
    Normal("", Cleaned(rules, Split(raw, '\n')))
  }

  lemma KeptLines(rules: Rules, raw: string)
    requires KeepsLines(rules)
    ensures NewlineFree(Kept(rules, raw)) && IsNormal("", Kept(rules, raw))
    ensures Kept(rules, raw) != [] ==> Kept(rules, raw)[0] != ""
  {
    hide Normal, Cleaned, Split, IsNormal;
    var lines := Split(raw, '\n');
    SplitParts(raw, '\n');
    KeptNewlineFree(rules, "", lines);
    KeptNewlineFree(rules, "", Cleaned(rules, lines));
    NormalStarts(Cleaned(rules, lines));
    NormalIsNormal("", Cleaned(rules, lines));
  }

  // The joined code of a list that does not start blank ends in a newline when the list ends blank.
  lemma TextEnds(lines: seq<string>, fold: Fold)
    requires lines != [] && lines[0] != "" && NewlineFree(lines)
    ensures EndsWithNewline(Join(RenderAll(Encode(lines, fold)), '\n')) <==> lines[|lines| - 1] == ""
  {
    hide Encode, Join, Render;
    var tokens := Encode(lines, fold);
    EncodeEnds(lines, fold);
    EncodeLong(lines, fold);
    ExpandsPlain(tokens[|tokens| - 1]);
    JoinEnds(RenderAll(tokens));
  }

  // The docstring promises that the presence of a trailing newline is preserved.  The
  // result has one exactly when the input has one or the last kept line is blank.
  lemma TrailingNewlineIff(rules: Rules, raw: string, fold: Fold)
    requires KeepsLines(rules) && raw != ""
    ensures var kept := Kept(rules, raw);
      EndsWithNewline(FilterText(rules, raw, fold)) <==>
        EndsWithNewline(raw) || (kept != [] && kept[|kept| - 1] == "")
  {
    hide Encode, Normal, Cleaned, Split, Join, Render;
    var kept := Kept(rules, raw);
    var text := Join(RenderAll(Encode(kept, fold)), '\n');
    assert (text + "\n")[|text|] == '\n';
    if kept == [] {
      NothingEncoded(fold);
    } else {
      KeptLines(rules, raw);
      TextEnds(kept, fold);
    }
  }

  // Cleaning that only drops blanks at the end of a line.
  function DropBlanks(s: string): string {
    if s != "" && s[|s| - 1] == ' ' then DropBlanks(s[..|s| - 1]) else s
  }

  // A last line of blanks: the input has no trailing newline, the result has one.
  lemma TrailingNewlineGained(space: char -> bool)
    ensures !EndsWithNewline("a\n ") && FilterText(Rules(DropBlanks, _ => false), "a\n ", Fold(1, space)) == "a\n"
  {
    var rules, fold := Rules(DropBlanks, _ => false), Fold(1, space);
    SplitPrefix("a", " ", '\n');
    SplitPlain(" ", '\n');
    assert "a\n " == "a" + ['\n'] + " ";
    assert DropBlanks(" ") == "" && DropBlanks("a") == "a" by {
      assert " "[..0] == "" && DropBlanks("") == "";
    }
    assert ["a", " "][1..] == [" "] && [" "][1..] == [];
    assert Cleaned(rules, [" "]) == [""] && Cleaned(rules, ["a", " "]) == ["a", ""];
    assert ["a", ""][1..] == [""] && [""][1..] == [];
    assert Normal("a", [""]) == [""] && Normal("", ["a", ""]) == ["a", ""];
    GainedCode(fold);
  }

  lemma GainedCode(fold: Fold)
    requires fold.threshold == 1
    ensures Join(RenderAll(Encode(["a", ""], fold)), '\n') == "a\n"
  {
    assert ["a", ""][1..] == [""] && [""][1..] == [] && [""][0..] == [""];
    assert RunLength("a", [""]) == 0;
    assert Encode([""], fold) == [Line("")] + Encode([], fold);
    var code := Encode(["a", ""], fold);
    assert code == [Line("a")] + Tail("a", 1, fold) + [Line("")] == [Line("a"), Line("")];
    assert RenderAll(code) == ["a", ""];
    assert Join([""], '\n') == "" && "a" + ['\n'] + "" == "a\n";
  }

  lemma NothingEncoded(fold: Fold)
    ensures Encode([], fold) == []
    ensures Join(RenderAll([]), '\n') == ""
  {}

  // ------------------------------------------------------------ reading the text back

  predicate AllSpace(space: char -> bool, s: string) {
    forall i | 0 <= i < |s| :: space(s[i])
  }

  // How many whitespace characters are at the front.
  function Lead(space: char -> bool, s: string): (n: nat)
    ensures n <= |s| && AllSpace(space, s[..n]) && (n < |s| ==> !space(s[n]))
  {
    if s == "" || !space(s[0]) then 0
    else
      var n := Lead(space, s[1..]) + 1;
      assert s[1..][..n - 1] == s[1..n];
      assert forall i | 0 < i < n :: s[i] == s[1..n][i - 1];
      n
  }

  // A marker, read character by character: whitespace, an ellipsis, and the count as a numeral.
  function ReadMarker(space: char -> bool, line: string): Option<Token> {
    var n := Lead(space, line);
    var rest := line[n..];
    var head, tail := "\U{2026} (repeated ", "\U{D7})";
    if head <= rest && |head| + |tail| <= |rest| && rest[|rest| - |tail|..] == tail then
      var digits := rest[|head|..|rest| - |tail|];
      if Numeral(digits) then Some(Repeat(line[..n], Count(digits))) else None
    else None
  }

  predicate MarkerShaped(space: char -> bool, line: string) {
    ReadMarker(space, line).Some?
  }

  function Read(space: char -> bool, line: string): Token {
    if MarkerShaped(space, line) then ReadMarker(space, line).value else Line(line)
  }

  function ReadAll(space: char -> bool, lines: seq<string>): seq<Token> {
    if lines == [] then [] else [Read(space, lines[0])] + ReadAll(space, lines[1..])
  }

  lemma {:induction false} LeadOf(space: char -> bool, indent: string, rest: string)
    requires AllSpace(space, indent) && rest != "" && !space(rest[0])
    ensures Lead(space, indent + rest) == |indent|
  {
    if indent == "" {
      assert indent + rest == rest;
    } else {
      assert (indent + rest)[1..] == indent[1..] + rest;
      LeadOf(space, indent[1..], rest);
    }
  }

  // A printed marker is read back with its indent and its count.
  lemma ReadsMarker(space: char -> bool, indent: string, count: nat)
    requires AllSpace(space, indent) && !space('\U{2026}')
    ensures ReadMarker(space, Render(Repeat(indent, count))) == Some(Repeat(indent, count))
  {
    hide Decimal, Count, AllSpace;
    var head, tail := "\U{2026} (repeated ", "\U{D7})";
    var rest := head + Decimal(count) + tail;
    var line := Render(Repeat(indent, count));
    assert line == indent + rest;
    assert rest[0] == head[0] == '\U{2026}';
    LeadOf(space, indent, rest);
    assert line[|indent|..] == rest && line[..|indent|] == indent;
    DecimalReads(count);
    assert rest[|rest| - |tail|..] == tail && rest[|head|..|rest| - |tail|] == Decimal(count);
  }

  // What a token of the code may be: a line of the list, or a marker indented like one.
  ghost predicate FromLines(space: char -> bool, lines: seq<string>, t: Token) {
    match t
    case Line(text) => text in lines
    case Repeat(indent, _) => AllSpace(space, indent) && exists l :: l in lines && indent <= l
  }

  lemma {:induction false} IndentSpace(space: char -> bool, line: string)
    ensures AllSpace(space, Indent(space, line)) && Indent(space, line) <= line
  {
    if line != "" && space(line[0]) {
      IndentSpace(space, line[1..]);
    }
  }

  lemma {:induction false} EncodeFromLines(lines: seq<string>, fold: Fold)
    ensures forall t | t in Encode(lines, fold) :: FromLines(fold.space, lines, t)
    decreases |lines|
  {
    hide AllSpace, Copies;
    if lines != [] {
      if lines[0] == "" {
        EncodeFromLines(lines[1..], fold);
        FromMore(fold.space, lines[1..], lines, Encode(lines[1..], fold));
      } else {
        var n := FirstRun(lines, fold);
        EncodeFromLines(lines[n + 1..], fold);
        FromMore(fold.space, lines[n + 1..], lines, Encode(lines[n + 1..], fold));
        TailFromLines(lines, n + 1, fold);
      }
    }
  }

  lemma FromMore(space: char -> bool, some: seq<string>, all: seq<string>, tokens: seq<Token>)
    requires forall l | l in some :: l in all
    requires forall t | t in tokens :: FromLines(space, some, t)
    ensures forall t | t in tokens :: FromLines(space, all, t)
  {
    forall t | t in tokens ensures FromLines(space, all, t) {
      assert FromLines(space, some, t);
    }
  }

  lemma TailFromLines(lines: seq<string>, run: nat, fold: Fold)
    requires lines != []
    ensures forall t | t in [Line(lines[0])] + Tail(lines[0], run, fold) :: FromLines(fold.space, lines, t)
  {
    IndentSpace(fold.space, lines[0]);
    assert lines[0] in lines;
  }

  ghost predicate Unmarked(space: char -> bool, lines: seq<string>) {
    forall l | l in lines :: !MarkerShaped(space, l)
  }

  lemma {:induction false} ReadBack(space: char -> bool, lines: seq<string>, tokens: seq<Token>)
    requires !space('\U{2026}') && Unmarked(space, lines)
    requires forall t | t in tokens :: FromLines(space, lines, t)
    ensures ReadAll(space, RenderAll(tokens)) == tokens
  {
    hide MarkerShaped, Render;
    if tokens != [] {
      assert tokens[0] in tokens;
      ReadOne(space, lines, tokens[0]);
      assert RenderAll(tokens)[1..] == RenderAll(tokens[1..]);
      ReadBack(space, lines, tokens[1..]);
    }
  }

  lemma ReadOne(space: char -> bool, lines: seq<string>, t: Token)
    requires !space('\U{2026}') && Unmarked(space, lines) && FromLines(space, lines, t)
    ensures Read(space, Render(t)) == t
  {
    hide Render, AllSpace;
    if t.Repeat? {
      ReadsMarker(space, t.indent, t.count);
    } else {
      assert Render(t) == t.text by { RenderLine(t.text); }
    }
  }

  lemma RenderLine(text: string)
    ensures Render(Line(text)) == text
  {}

  lemma RenderedPlain(space: char -> bool, lines: seq<string>, tokens: seq<Token>)
    requires NewlineFree(lines) && forall t | t in tokens :: FromLines(space, lines, t)
    ensures NewlineFree(RenderAll(tokens))
  {
    hide AllSpace;
    forall i | 0 <= i < |tokens| ensures '\n' !in Render(tokens[i]) {
      var t := tokens[i];
      assert FromLines(space, lines, t);
      if t.Repeat? {
        DecimalPlain(t.count);
      }
    }
  }

  lemma {:induction false} DecimalPlain(n: nat)
    ensures '\n' !in Decimal(n)
  {
    if n >= 10 {
      DecimalPlain(n / 10);
    }
  }

  // The blank that the newline repair adds behind the kept lines.
  function Repaired(raw: string, kept: seq<string>): seq<string> {
    if kept != [] && kept[|kept| - 1] != "" && EndsWithNewline(raw) then [""] else []
  }

  // The lines of the result are the rendered tokens and the repaired blank.
  lemma ResultLines(rules: Rules, raw: string, fold: Fold)
    requires KeepsLines(rules) && raw != "" && Kept(rules, raw) != []
    ensures NewlineFree(RenderAll(Encode(Kept(rules, raw), fold)) + Repaired(raw, Kept(rules, raw)))
    ensures Split(FilterText(rules, raw, fold), '\n')
         == RenderAll(Encode(Kept(rules, raw), fold)) + Repaired(raw, Kept(rules, raw))
  {
    hide Encode, Normal, Cleaned, Split, Join, Render;
    var kept := Kept(rules, raw);
    var lines := RenderAll(Encode(kept, fold));
    KeptLines(rules, raw);
    TextEnds(kept, fold);
    EncodeEnds(kept, fold);
    EncodeFromLines(kept, fold);
    RenderedPlain(fold.space, kept, Encode(kept, fold));
    SplitJoin(lines, '\n');
    SplitJoin(lines + [""], '\n');
    JoinBlank(lines);
    assert lines + [] == lines;
  }

  lemma JoinBlank(lines: seq<string>)
    requires lines != []
    ensures Join(lines + [""], '\n') == Join(lines, '\n') + "\n"
  {
    JoinAppend(lines, [""], '\n');
    assert Join(lines, '\n') + ['\n'] + "" == Join(lines, '\n') + "\n";
  }

  // The text alone gives back every kept line, when none of them reads as a marker.
  ghost predicate Lossless(rules: Rules, raw: string, fold: Fold, result: string) {
    var kept := Kept(rules, raw);
    if kept == [] then result == "" || result == "\n"
    else Expand(ReadAll(fold.space, Split(result, '\n'))) == kept + Repaired(raw, kept)
  }

  lemma TextLossless(rules: Rules, raw: string, fold: Fold)
    requires KeepsLines(rules) && !fold.space('\U{2026}') && Unmarked(fold.space, Kept(rules, raw)) && raw != ""
    ensures Lossless(rules, raw, fold, FilterText(rules, raw, fold))
  {
    hide Encode, Normal, Cleaned, Split, Join, Render, MarkerShaped, Expand;
    var kept := Kept(rules, raw);
    var tokens := Encode(kept, fold);
    if kept == [] {
      NothingEncoded(fold);
    } else {
      ResultLines(rules, raw, fold);
      EncodeFromLines(kept, fold);
      ReadBack(fold.space, kept, tokens);
      BlankReads(fold.space);
      ReadAppend(fold.space, RenderAll(tokens), Repaired(raw, kept));
      FilteredLossless(rules, Split(raw, '\n'), fold);
      ExpandLine(tokens, "");
      assert tokens + [] == tokens && kept + [] == kept;
    }
  }

  lemma MarkersLong(t: Token)
    ensures t.Repeat? ==> Render(t) != ""
  {}

  lemma BlankReads(space: char -> bool)
    ensures ReadAll(space, [""]) == [Line("")] && ReadAll(space, []) == []
  {
    assert [""][1..] == [];
  }

  lemma {:induction false} ReadAppend(space: char -> bool, a: seq<string>, b: seq<string>)
    ensures ReadAll(space, a + b) == ReadAll(space, a) + ReadAll(space, b)
  {
    hide Read;
    if a == [] {
      assert a + b == b;
    } else {
      assert (a + b)[1..] == a[1..] + b;
      ReadAppend(space, a[1..], b);
    }
  }

  // ------------------------------------------------------------ filtering twice

  // Every run of equal lines that are not blank is no longer than the threshold, unless it
  // is two copies of the marker for two.
  predicate Folded(lines: seq<string>, fold: Fold)
    decreases |lines|
  {
    if lines == [] then true
    else if lines[0] == "" then Folded(lines[1..], fold)
    else
      var n := RunLength(lines[0], lines[1..]) + 1;
      RunLengthBound(lines[0], lines[1..]);
      && (n <= fold.threshold || (n == 2 && Render(Repeat(Indent(fold.space, lines[0]), 2)) == lines[0]))
      && Folded(lines[n..], fold)
  }

  lemma RenderAppend(a: seq<Token>, b: seq<Token>)
    ensures RenderAll(a + b) == RenderAll(a) + RenderAll(b)
  {}

  // The rendered code starts with the first line of the list.
  lemma StartsLike(lines: seq<string>, fold: Fold, more: seq<string>)
    ensures var rendered := RenderAll(Encode(lines, fold)) + more;
      if lines == [] then rendered == more else rendered != [] && rendered[0] == lines[0]
  {
    hide Render;
    if lines == [] {
      NothingEncoded(fold);
    } else {
      RenderLine(lines[0]);
    }
  }

  lemma MarkerIndent(space: char -> bool, indent: string, count: nat)
    requires AllSpace(space, indent) && !space('\U{2026}')
    ensures Indent(space, Render(Repeat(indent, count))) == indent
  {
    hide Decimal;
    var tail := "\U{2026} (repeated " + Decimal(count) + "\U{D7})";
    assert Render(Repeat(indent, count)) == indent + tail;
    IndentOf(space, indent, tail);
  }

  lemma {:induction false} IndentOf(space: char -> bool, indent: string, tail: string)
    requires AllSpace(space, indent) && tail != "" && !space(tail[0])
    ensures Indent(space, indent + tail) == indent
  {
    if indent == "" {
      assert indent + tail == tail;
    } else {
      assert (indent + tail)[1..] == indent[1..] + tail;
      IndentOf(space, indent[1..], tail);
    }
  }

  function MarkerFor(space: char -> bool, line: string, count: nat): string {
    Render(Repeat(Indent(space, line), count))
  }

  // Markers of one indent tell their counts apart and keep their indent.
  lemma MarkersOf(space: char -> bool, line: string, m: nat, n: nat)
    requires !space('\U{2026}')
    ensures MarkerFor(space, line, m) != ""
    ensures MarkerFor(space, MarkerFor(space, line, m), n) == MarkerFor(space, line, n)
    ensures MarkerFor(space, line, m) == MarkerFor(space, line, n) ==> m == n
  {
    hide Render;
    IndentSpace(space, line);
    MarkersLong(Repeat(Indent(space, line), m));
    MarkerIndent(space, Indent(space, line), m);
    ReadsMarker(space, Indent(space, line), m);
    ReadsMarker(space, Indent(space, line), n);
  }

  // One run split off: the code of the list is the code of its first run and of the rest.
  lemma FirstCode(lines: seq<string>, fold: Fold) returns (n: nat, rest: seq<string>, code: seq<string>)
    requires lines != [] && lines[0] != ""
    ensures n == RunLength(lines[0], lines[1..]) + 1 && n <= |lines| && rest == lines[n..]
    ensures code == RenderAll(Encode(rest, fold)) && lines == Copies(lines[0], n) + rest
    ensures rest != [] ==> rest[0] != lines[0] && code != [] && code[0] == rest[0]
    ensures rest == [] ==> code == []
    ensures RenderAll(Encode(lines, fold))
         == if n <= fold.threshold then Copies(lines[0], n) + code
             else [lines[0], MarkerFor(fold.space, lines[0], n)] + code
  {
    hide Render, Indent, Tail, MarkerFor;
    var x := lines[0];
    n := RunLength(x, lines[1..]) + 1;
    RunLengthBound(x, lines[1..]);
    rest := lines[n..];
    assert lines[1..][n - 1..] == rest;
    code := RenderAll(Encode(rest, fold));
    StartsLike(rest, fold, []);
    assert code + [] == code;
    RenderAppend([Line(x)] + Tail(x, n, fold), Encode(rest, fold));
    RunRenders(x, n, fold);
    assert lines == [x] + lines[1..][..n - 1] + rest;
    assert [x] + Copies(x, n - 1) == Copies(x, n);
  }

  lemma RunRenders(x: string, n: nat, fold: Fold)
    requires n >= 1
    ensures RenderAll([Line(x)] + Tail(x, n, fold))
         == if n <= fold.threshold then Copies(x, n) else [x, MarkerFor(fold.space, x, n)]
  {
    hide Render, Indent;
    RenderLine(x);
  }

  lemma {:induction false} IndentIsLead(space: char -> bool, line: string)
    ensures Indent(space, line) == line[..Lead(space, line)]
  {
    if line != "" && space(line[0]) {
      IndentIsLead(space, line[1..]);
      assert line[..Lead(space, line)] == [line[0]] + line[1..][..Lead(space, line[1..])];
    }
  }

  // What is printed for the first run of a list: past the threshold the line and a marker with
  // its indent and the length of the run, otherwise the run itself.
  lemma RunText(x: string, n: nat, rest: seq<string>, fold: Fold)
    requires x != "" && n >= 1 && (rest == [] || rest[0] != x)
    ensures var marker := x[..Lead(fold.space, x)] + "\U{2026} (repeated " + Decimal(n) + "\U{D7})";
      RenderAll(Encode(seq(n, _ => x) + rest, fold))
      == (if n > fold.threshold then [x, marker] else seq(n, _ => x)) + RenderAll(Encode(rest, fold))
  {
    hide Encode, Decimal, RenderAll, Render, RunLength;
    var lines := Copies(x, n) + rest;
    assert lines[0] == x && lines[1..] == Copies(x, n - 1) + rest;
    RunOfCopies(x, n - 1, rest);
    var m, more, code := FirstCode(lines, fold);
    assert m == n && more == rest;
    IndentIsLead(fold.space, x);
    MarkerText(fold.space, x, n);
  }

  lemma MarkerText(space: char -> bool, x: string, n: nat)
    ensures MarkerFor(space, x, n) == Indent(space, x) + "\U{2026} (repeated " + Decimal(n) + "\U{D7})"
  {}

  lemma BlankText(rest: seq<string>, fold: Fold)
    ensures RenderAll(Encode([""] + rest, fold)) == [""] + RenderAll(Encode(rest, fold))
  {
    hide Encode, Render;
    assert ([""] + rest)[1..] == rest;
    BlankCode([""] + rest, fold);
    RenderAppend([Line("")], Encode(rest, fold));
    RenderLine("");
  }

  // The code runs one line ahead of the list.
  lemma Lag(lines: seq<string>, fold: Fold) returns (n: nat)
    requires fold.threshold <= 0 && lines != [] && lines[0] != ""
    requires lines == [lines[0]] + RenderAll(Encode(lines, fold))
    ensures n >= 2 && (n >= 3 ==> MarkerFor(fold.space, lines[0], n) == lines[0])
    ensures n == 2 ==> MarkerFor(fold.space, lines[0], 2) != lines[0]
    ensures n == 2 ==> |lines| > 2 && lines[2..][0] == MarkerFor(fold.space, lines[0], 2)
    ensures n == 2 ==> lines[2..] == [lines[2..][0]] + RenderAll(Encode(lines[2..], fold))
  {
    hide Render, RenderAll, MarkerFor, Encode, RunLength;
    var x := lines[0];
    var rest, code;
    n, rest, code := FirstCode(lines, fold);
    var m := MarkerFor(fold.space, x, n);
    assert [x] + ([x, m] + code) == [x, x, m] + code;
    LagShape(lines, n, x, m, code, rest);
  }

  lemma LagShape(lines: seq<string>, n: nat, x: string, m: string, code: seq<string>, rest: seq<string>)
    requires lines == [x, x, m] + code && lines == Copies(x, n) + rest && n >= 1
    requires rest != [] ==> rest[0] != x
    ensures n >= 2 && (n >= 3 ==> m == x)
    ensures n == 2 ==> m != x && |lines| > 2 && lines[2..] == [m] + code == rest
  {
    assert lines[1] == x && lines[2] == m;
    assert rest == lines[n..] && forall i | 0 <= i < n :: lines[i] == Copies(x, n)[i];
    assert lines[2..] == [m] + code;
  }

  // At a threshold below 1 a single line that is not blank never renders to itself.
  lemma NoSingle(lines: seq<string>, fold: Fold)
    requires fold.threshold <= 0 && !fold.space('\U{2026}')
    requires lines != [] && lines[0] != "" && RunLength(lines[0], lines[1..]) == 0
    ensures RenderAll(Encode(lines, fold)) != lines
  {
    hide Render, RenderAll, MarkerFor, Encode;
    var x := lines[0];
    var n, rest, code := FirstCode(lines, fold);
    if RenderAll(Encode(lines, fold)) == lines {
      var y := MarkerFor(fold.space, x, 1);
      assert lines == [x, y] + code && lines == [x] + rest;
      assert rest == lines[1..] == [y] + code;
      NoLag(x, rest, fold);
    }
  }

  lemma NoLag(x: string, rest: seq<string>, fold: Fold)
    requires fold.threshold <= 0 && !fold.space('\U{2026}')
    requires rest != [] && rest[0] == MarkerFor(fold.space, x, 1)
    ensures rest != [rest[0]] + RenderAll(Encode(rest, fold))
  {
    hide Render, RenderAll, MarkerFor, Encode;
    if rest == [rest[0]] + RenderAll(Encode(rest, fold)) {
      MarkersOf(fold.space, x, 1, 1);
      var k := Lag(rest, fold);
      MarkersOf(fold.space, x, 1, k);
      MarkersOf(fold.space, x, 2, 2);
      var l := Lag(rest[2..], fold);
      MarkersOf(fold.space, x, 2, l);
    }
  }

  // The code of a list renders to the list itself exactly when the list is folded.
  lemma {:induction false} FixedIff(lines: seq<string>, fold: Fold)
    requires !fold.space('\U{2026}')
    ensures RenderAll(Encode(lines, fold)) == lines <==> Folded(lines, fold)
    decreases |lines|
  {
    hide Render, Indent;
    if lines == [] {
    } else if lines[0] == "" {
      FixedIff(lines[1..], fold);
      RenderAppend([Line("")], Encode(lines[1..], fold));
      RenderLine("");
      HeadSame("", RenderAll(Encode(lines[1..], fold)), lines);
    } else {
      var n, rest, code := FirstCode(lines, fold);
      FixedIff(rest, fold);
      RunFixed(lines, n, rest, code, fold);
    }
  }

  lemma HeadSame(x: string, rest: seq<string>, lines: seq<string>)
    requires lines != [] && lines[0] == x
    ensures [x] + rest == lines <==> rest == lines[1..]
  {
    assert lines == [lines[0]] + lines[1..];
    assert ([x] + rest)[1..] == rest;
  }

  // The first run and the rest of a list against their code.
  lemma RunFixed(lines: seq<string>, n: nat, rest: seq<string>, code: seq<string>, fold: Fold)
    requires !fold.space('\U{2026}') && lines != [] && lines[0] != "" && n == RunLength(lines[0], lines[1..]) + 1
    requires lines == Copies(lines[0], n) + rest
    requires rest != [] ==> rest[0] != lines[0] && code != [] && code[0] == rest[0]
    requires rest == [] ==> code == []
    requires RenderAll(Encode(lines, fold))
          == if n <= fold.threshold then Copies(lines[0], n) + code
              else [lines[0], MarkerFor(fold.space, lines[0], n)] + code
    ensures RenderAll(Encode(lines, fold)) == lines <==>
      && (n <= fold.threshold || (n == 2 && MarkerFor(fold.space, lines[0], 2) == lines[0]))
      && code == rest
  {
    hide Encode, MarkerFor;
    var x := lines[0];
    if n <= fold.threshold {
      PrefixSame(Copies(x, n), code, rest);
    } else if n == 1 {
      NoSingle(lines, fold);
    } else if n == 2 {
      assert Copies(x, 2) == [x, x];
      PairSame(x, MarkerFor(fold.space, x, 2), code, rest);
    } else {
      Longer(x, MarkerFor(fold.space, x, n), n, code, rest);
    }
  }

  lemma Longer(x: string, m: string, n: nat, code: seq<string>, rest: seq<string>)
    requires n >= 3 && (rest != [] ==> rest[0] != x && code != [] && code[0] == rest[0]) && (rest == [] ==> code == [])
    ensures [x, m] + code != Copies(x, n) + rest
  {
    if rest != [] {
      assert ([x, m] + code)[2] != (Copies(x, n) + rest)[2];
    }
  }

  lemma PrefixSame(a: seq<string>, b: seq<string>, c: seq<string>)
    ensures a + b == a + c <==> b == c
  {
    assert (a + b)[|a|..] == b && (a + c)[|a|..] == c;
  }

  lemma PairSame(x: string, m: string, b: seq<string>, c: seq<string>)
    ensures [x, m] + b == [x, x] + c <==> m == x && b == c
  {
    assert ([x, m] + b)[1] == m && ([x, x] + c)[1] == x;
    assert ([x, m] + b)[2..] == b && ([x, x] + c)[2..] == c;
  }

  // Cleaning keeps the lines and drops none of them.
  ghost predicate Settled(rules: Rules, lines: seq<string>) {
    forall l | l in lines :: rules.clean(l) == l && !rules.antiEvent(l)
  }

  lemma {:induction false} SettledCleaned(rules: Rules, lines: seq<string>)
    requires Settled(rules, lines)
    ensures Cleaned(rules, lines) == lines
  {
    if lines != [] {
      assert lines[0] in lines;
      SettledCleaned(rules, lines[1..]);
    }
  }

  lemma {:induction false} NormalFixed(before: string, lines: seq<string>)
    requires IsNormal(before, lines)
    ensures Normal(before, lines) == lines
    decreases |lines|
  {
    if lines != [] {
      NormalFixed(lines[0], lines[1..]);
    }
  }

  lemma NormalAfter(a: string, b: string, lines: seq<string>)
    requires a != "" && b != ""
    ensures IsNormal(a, lines) <==> IsNormal(b, lines)
  {}

  lemma {:induction false} NormalBehind(before: string, a: seq<string>, b: seq<string>)
    requires a != [] && forall l | l in a :: l != ""
    ensures IsNormal(before, a + b) <==> IsNormal(a[|a| - 1], b)
    decreases |a|
  {
    assert (a + b)[1..] == a[1..] + b;
    assert a[0] in a;
    if |a| > 1 {
      assert forall l | l in a[1..] :: l in a;
      NormalBehind(a[0], a[1..], b);
    } else {
      assert a[1..] + b == b;
    }
  }

  lemma RenderedSolid(line: string, run: nat, fold: Fold)
    requires line != ""
    ensures forall l | l in RenderAll([Line(line)] + Tail(line, run, fold)) :: l != ""
  {
    hide Render;
    var head := [Line(line)] + Tail(line, run, fold);
    forall i | 0 <= i < |head| ensures Render(head[i]) != "" {
      MarkersLong(head[i]);
      if head[i].Line? { RenderLine(head[i].text); }
    }
  }

  // The rendered code of a normal list is normal, and ends blank only when the list does.
  lemma {:induction false} RenderedNormal(before: string, lines: seq<string>, fold: Fold, more: seq<string>)
    requires IsNormal(before, lines + more) && (more == [] || more == [""])
    ensures IsNormal(before, RenderAll(Encode(lines, fold)) + more)
    decreases |lines|
  {
    hide Render;
    if lines == [] {
      assert [] + more == more && lines + more == more;
      NothingEncoded(fold);
    } else if lines[0] == "" {
      BlankNormal(before, lines, more);
      RenderedNormal("", lines[1..], fold, more);
      BlankRendered(before, lines, fold, more);
    } else {
      hide Tail, IsNormal, Encode;
      var n := FirstRun(lines, fold);
      RunNormal(before, lines, n, fold, more);
      RenderedNormal(lines[0], lines[n + 1..], fold, more);
      RunRendered(before, lines[0], n + 1, fold, Encode(lines[n + 1..], fold), more);
    }
  }

  lemma BlankNormal(before: string, lines: seq<string>, more: seq<string>)
    requires lines != [] && lines[0] == "" && IsNormal(before, lines + more)
    ensures before != "" && IsNormal("", lines[1..] + more)
  {
    assert (lines + more)[1..] == lines[1..] + more;
  }

  lemma BlankRendered(before: string, lines: seq<string>, fold: Fold, more: seq<string>)
    requires lines != [] && lines[0] == "" && before != "" && IsNormal("", RenderAll(Encode(lines[1..], fold)) + more)
    ensures IsNormal(before, RenderAll(Encode(lines, fold)) + more)
  {
    hide Encode, Render;
    BlankCode(lines, fold);
    RenderAppend([Line("")], Encode(lines[1..], fold));
    RenderLine("");
    var rest := RenderAll(Encode(lines[1..], fold)) + more;
    assert RenderAll(Encode(lines, fold)) + more == [""] + rest;
    assert ([""] + rest)[1..] == rest;
  }

  lemma RunRendered(before: string, line: string, run: nat, fold: Fold, code: seq<Token>, more: seq<string>)
    requires line != "" && IsNormal(line, RenderAll(code) + more)
    ensures IsNormal(before, RenderAll([Line(line)] + Tail(line, run, fold) + code) + more)
  {
    hide Render, Tail, IsNormal;
    var head := [Line(line)] + Tail(line, run, fold);
    RenderAppend(head, code);
    RenderedSolid(line, run, fold);
    var solid, rest := RenderAll(head), RenderAll(code) + more;
    assert solid[|solid| - 1] in solid;
    NormalBehind(before, solid, rest);
    NormalAfter(line, solid[|solid| - 1], rest);
    assert solid + RenderAll(code) + more == solid + rest;
  }

  lemma RunNormal(before: string, lines: seq<string>, n: nat, fold: Fold, more: seq<string>)
    requires lines != [] && lines[0] != "" && n + 1 <= |lines| && lines == Copies(lines[0], n + 1) + lines[n + 1..]
    requires IsNormal(before, lines + more)
    ensures IsNormal(lines[0], lines[n + 1..] + more)
  {
    var run, rest := Copies(lines[0], n + 1), lines[n + 1..] + more;
    assert lines + more == run + rest;
    NormalBehind(before, run, rest);
  }

  // What the second pass keeps is every line of the first result, unless that has none.
  lemma SecondPass(rules: Rules, raw: string, fold: Fold)
    requires KeepsLines(rules) && raw != "" && Kept(rules, raw) != []
    requires Settled(rules, Split(FilterText(rules, raw, fold), '\n'))
    ensures var lines := Split(FilterText(rules, raw, fold), '\n');
      Kept(rules, FilterText(rules, raw, fold)) == lines && lines != [] && lines[0] != "" && NewlineFree(lines)
  {
    hide Encode, Cleaned, Split, Render, Normal, KeepsLines, Settled;
    var kept, result := Kept(rules, raw), FilterText(rules, raw, fold);
    KeptLines(rules, raw);
    ResultLines(rules, raw, fold);
    SettledCleaned(rules, Split(result, '\n'));
    NormalMore(kept, Repaired(raw, kept));
    RenderedNormal("", kept, fold, Repaired(raw, kept));
    NormalFixed("", Split(result, '\n'));
    EncodeEnds(kept, fold);
  }

  lemma {:induction false} NormalMoreAfter(before: string, lines: seq<string>, more: seq<string>)
    requires IsNormal(before, lines) && lines != []
    requires more == [] || (more == [""] && lines[|lines| - 1] != "")
    ensures IsNormal(before, lines + more)
    decreases |lines|
  {
    assert (lines + more)[1..] == lines[1..] + more;
    if |lines| > 1 {
      NormalMoreAfter(lines[0], lines[1..], more);
    } else {
      assert lines[1..] + more == more;
    }
  }

  lemma NormalMore(lines: seq<string>, more: seq<string>)
    requires IsNormal("", lines) && lines != []
    requires more == [] || (more == [""] && lines[|lines| - 1] != "")
    ensures IsNormal("", lines + more)
  {
    NormalMoreAfter("", lines, more);
  }

  // Filtering the result again gives the result exactly when its lines are folded, once
  // cleaning has nothing left to do.
  lemma FilterTwiceIff(rules: Rules, raw: string, fold: Fold)
    requires KeepsLines(rules) && !fold.space('\U{2026}')
    requires Settled(rules, Split(FilterText(rules, raw, fold), '\n'))
    ensures var result := FilterText(rules, raw, fold);
      FilterText(rules, result, fold) == result <==> Folded(Split(result, '\n'), fold)
  {
    hide Encode, Cleaned, Split, Render, Normal, KeepsLines, Settled, Folded, Join;
    var result := FilterText(rules, raw, fold);
    if raw == "" || Kept(rules, raw) == [] {
      NothingEncoded(fold);
      NothingLeft(rules, result, fold);
    } else {
      SecondPass(rules, raw, fold);
      JoinSplit(result, '\n');
      FixedIff(Split(result, '\n'), fold);
      SameText(rules, result, fold);
    }
  }

  lemma NothingLeft(rules: Rules, result: string, fold: Fold)
    requires result == "" || result == "\n"
    requires Settled(rules, Split(result, '\n'))
    ensures FilterText(rules, result, fold) == result && Folded(Split(result, '\n'), fold)
  {
    if result == "\n" {
      assert result[1..] == "" && Split("", '\n') == [""] && Split(result, '\n') == ["", ""];
      assert ["", ""][1..] == [""] && [""][1..] == [];
      SettledCleaned(rules, ["", ""]);
      assert Normal("", [""]) == [] && Normal("", ["", ""]) == [];
      NothingEncoded(fold);
    } else {
      assert Split("", '\n') == [""] && [""][1..] == [];
    }
  }

  lemma SplitNothing()
    ensures Split("", '\n') == [""]
  {}

  // A text that keeps all its lines is its own filtered text exactly when they render to themselves.
  lemma SameText(rules: Rules, result: string, fold: Fold)
    requires Kept(rules, result) == Split(result, '\n')
    requires NewlineFree(Split(result, '\n')) && Split(result, '\n')[0] != ""
    ensures FilterText(rules, result, fold) == result <==>
      RenderAll(Encode(Split(result, '\n'), fold)) == Split(result, '\n')
  {
    hide Encode, Cleaned, Split, Render, Normal, Join;
    var lines := Split(result, '\n');
    var again := RenderAll(Encode(lines, fold));
    SplitNothing();
    JoinSplit(result, '\n');
    EncodeEnds(lines, fold);
    EncodeFromLines(lines, fold);
    RenderedPlain(fold.space, lines, Encode(lines, fold));
    SplitJoin(again, '\n');
    TextEnds(lines, fold);
    NewlineLast(result);
  }

  lemma NewlineLast(s: string)
    ensures EndsWithNewline(s) ==> Split(s, '\n')[|Split(s, '\n')| - 1] == ""
  {
    var lines := Split(s, '\n');
    SplitParts(s, '\n');
    JoinSplit(s, '\n');
    JoinEnds(lines);
  }

  lemma {:induction false} RunOfCopies(x: string, k: nat, rest: seq<string>)
    requires rest == [] || rest[0] != x
    ensures RunLength(x, Copies(x, k) + rest) == k
  {
    var all := Copies(x, k) + rest;
    if k > 0 {
      assert all[1..] == Copies(x, k - 1) + rest;
      RunOfCopies(x, k - 1, rest);
    } else {
      assert all == rest;
    }
  }

  lemma FoldedRun(x: string, k: nat, rest: seq<string>, fold: Fold)
    requires x != "" && 1 <= k <= fold.threshold && (rest == [] || rest[0] != x) && Folded(rest, fold)
    ensures Folded(Copies(x, k) + rest, fold)
  {
    var all := Copies(x, k) + rest;
    assert all[1..] == Copies(x, k - 1) + rest && all[k..] == rest;
    RunOfCopies(x, k - 1, rest);
  }

  // Without a marker among the kept lines, the result is folded.
  lemma {:induction false} UnmarkedFolded(lines: seq<string>, fold: Fold, more: seq<string>)
    requires fold.threshold >= 1 && Unmarked(fold.space, lines) && (more == [] || more == [""])
    requires !fold.space('\U{2026}')
    ensures Folded(RenderAll(Encode(lines, fold)) + more, fold)
    decreases |lines|
  {
    hide Render, MarkerShaped, Folded, Encode, Tail, RunLength;
    if lines == [] {
      NothingEncoded(fold);
      MoreFolded(more, fold);
      assert [] + more == more;
    } else if lines[0] == "" {
      UnmarkedFolded(lines[1..], fold, more);
      BlankCode(lines, fold);
      RenderAppend([Line("")], Encode(lines[1..], fold));
      RenderLine("");
      BlankFolded(RenderAll(Encode(lines[1..], fold)) + more, fold);
      assert RenderAll(Encode(lines, fold)) + more == [""] + (RenderAll(Encode(lines[1..], fold)) + more);
    } else {
      var n, rest := WholeRun(lines, fold);
      UnmarkedFolded(rest, fold, more);
      StartsLike(rest, fold, more);
      RunFolded(lines[0], n, fold, lines, Encode(rest, fold), more);
    }
  }

  // The code of a list is the code of its first run and of the rest, which starts otherwise.
  lemma WholeRun(lines: seq<string>, fold: Fold) returns (n: nat, rest: seq<string>)
    requires lines != [] && lines[0] != ""
    ensures 1 <= n <= |lines| && rest == lines[n..] && (rest == [] || (rest[0] != lines[0] && rest[0] in lines))
    ensures forall l | l in rest :: l in lines
    ensures Encode(lines, fold) == [Line(lines[0])] + Tail(lines[0], n, fold) + Encode(rest, fold)
  {
    n := RunLength(lines[0], lines[1..]) + 1;
    RunLengthBound(lines[0], lines[1..]);
    rest := lines[n..];
    assert lines[1..][n - 1..] == rest;
  }

  lemma MoreFolded(more: seq<string>, fold: Fold)
    requires more == [] || more == [""]
    ensures Folded(more, fold)
  {
    assert [""][1..] == [];
  }

  lemma BlankFolded(rest: seq<string>, fold: Fold)
    requires Folded(rest, fold)
    ensures Folded([""] + rest, fold)
  {
    assert ([""] + rest)[1..] == rest;
  }

  lemma RunFolded(x: string, run: nat, fold: Fold, lines: seq<string>, code: seq<Token>, more: seq<string>)
    requires x != "" && x in lines && run >= 1 && fold.threshold >= 1 && Unmarked(fold.space, lines)
    requires !fold.space('\U{2026}')
    requires var rest := RenderAll(code) + more;
      Folded(rest, fold) && (rest == [] || (rest[0] != x && (rest[0] == "" || rest[0] in lines)))
    ensures Folded(RenderAll([Line(x)] + Tail(x, run, fold) + code) + more, fold)
  {
    hide Render, Folded, MarkerShaped;
    var head, rest := [Line(x)] + Tail(x, run, fold), RenderAll(code) + more;
    RenderAppend(head, code);
    RenderLine(x);
    assert RenderAll(head + code) + more == RenderAll(head) + rest;
    if run <= fold.threshold {
      assert RenderAll(head) == Copies(x, run);
      FoldedRun(x, run, rest, fold);
    } else {
      var t := Repeat(Indent(fold.space, x), run);
      var m := Render(t);
      assert RenderAll(head) == [x, m];
      IndentSpace(fold.space, x);
      MarkersLong(t);
      ShapedBy(fold.space, t);
      FoldedRun(m, 1, rest, fold);
      FoldedRun(x, 1, Copies(m, 1) + rest, fold);
      assert [x, m] + rest == Copies(x, 1) + (Copies(m, 1) + rest);
    }
  }

  lemma ShapedBy(space: char -> bool, t: Token)
    requires t.Repeat? && AllSpace(space, t.indent) && !space('\U{2026}')
    ensures MarkerShaped(space, Render(t))
  {
    ReadsMarker(space, t.indent, t.count);
  }

  // Filtering twice is filtering once when no kept line reads as a marker.
  lemma FilterTwice(rules: Rules, raw: string, fold: Fold)
    requires KeepsLines(rules) && !fold.space('\U{2026}')
    requires fold.threshold >= 1 && Unmarked(fold.space, Kept(rules, raw))
    requires Settled(rules, Split(FilterText(rules, raw, fold), '\n'))
    ensures FilterText(rules, FilterText(rules, raw, fold), fold) == FilterText(rules, raw, fold)
  {
    hide Encode, Cleaned, Split, Render, Normal, KeepsLines, Settled, Folded, Join;
    FilterTwiceIff(rules, raw, fold);
    if raw == "" || Kept(rules, raw) == [] {
      NothingEncoded(fold);
      NothingLeft(rules, FilterText(rules, raw, fold), fold);
    } else {
      ResultLines(rules, raw, fold);
      UnmarkedFolded(Kept(rules, raw), fold, Repaired(raw, Kept(rules, raw)));
    }
  }

  method FilterOutput(rules: Rules, raw: string, fold: Fold) returns (result: string)
    ensures result == FilterText(rules, raw, fold)
    ensures KeepsLines(rules) && !fold.space('\U{2026}') && Unmarked(fold.space, Kept(rules, raw)) && raw != "" ==>
              Lossless(rules, raw, fold, result)
  {
    hide Kept, Lossless, KeepsLines, Unmarked, Render, Join, Split;
    if raw == "" { return raw; }
    var kept := FilterLines(rules, Split(raw, '\n'), fold);
    result := Join(RenderAll(kept), '\n');
    if EndsWithNewline(raw) && !EndsWithNewline(result) {
      result := result + "\n";
    }
    if KeepsLines(rules) && !fold.space('\U{2026}') && Unmarked(fold.space, Kept(rules, raw)) {
      TextLossless(rules, raw, fold);
    }
  }
}
