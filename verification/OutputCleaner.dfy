/** `filter_output`: anti-event lines are dropped, blank runs collapse to one blank, and a
    run of equal lines becomes one line and a marker.  ANSI stripping and the anti-event
    patterns are arbitrary functions. */
module OutputCleaner {
  import opened Basics
  import opened Text

  // A line of the result: a kept line, or the marker closing a run of `count` equal lines.
  datatype Token = Line(text: string) | Repeat(indent: string, count: nat)

  // The repeat threshold, and the whitespace `str.lstrip` removes.
  datatype Fold = Fold(threshold: int, space: char -> bool)

  // The two regular-expression parts: `_ANSI_RE.sub("", line).rstrip()` and `_is_anti_event`.
  datatype Rules = Rules(clean: string -> string, antiEvent: string -> bool)

  // ------------------------------------------------------------ what is kept

  function Cleaned(rules: Rules, lines: seq<string>): seq<string> {
    if lines == [] then []
    else
      var line := rules.clean(lines[0]);
      (if rules.antiEvent(line) then [] else [line]) + Cleaned(rules, lines[1..])
  }

  // Blank runs collapsed to one and leading blanks dropped: a blank stays exactly when
  // the line before it, initially taken to be blank, is not blank.
  function Normal(before: string, lines: seq<string>): seq<string>
    decreases |lines|
  {
    if lines == [] then []
    else (if lines[0] == "" && before == "" then [] else [lines[0]]) + Normal(lines[0], lines[1..])
  }

  // One more line of input: its cleaned form is kept unless it is an anti-event.
  lemma {:induction false} CleanedSnoc(rules: Rules, lines: seq<string>, line: string)
    ensures Cleaned(rules, lines + [line])
         == Cleaned(rules, lines) + (if rules.antiEvent(rules.clean(line)) then [] else [rules.clean(line)])
  {
    if lines == [] {
      assert [] + [line] == [line] && [line][1..] == [];
    } else {
      var first := rules.clean(lines[0]);
      assert (lines + [line])[1..] == lines[1..] + [line];
      CleanedSnoc(rules, lines[1..], line);
      Associate(if rules.antiEvent(first) then [] else [first], Cleaned(rules, lines[1..]),
                if rules.antiEvent(rules.clean(line)) then [] else [rules.clean(line)]);
    }
  }

  // One more cleaned line: it stays unless it is blank and first or behind a blank.
  lemma {:induction false} NormalSnoc(before: string, lines: seq<string>, line: string)
    ensures Normal(before, lines + [line])
         == Normal(before, lines)
          + if line == "" && (if lines == [] then before else lines[|lines| - 1]) == "" then [] else [line]
    decreases |lines|
  {
    if lines == [] {
      assert [] + [line] == [line] && [line][1..] == [];
    } else {
      assert (lines + [line])[1..] == lines[1..] + [line];
      NormalSnoc(lines[0], lines[1..], line);
      Associate(if lines[0] == "" && before == "" then [] else [lines[0]], Normal(lines[0], lines[1..]),
                if line == "" && lines[|lines| - 1] == "" then [] else [line]);
    }
  }

  // ------------------------------------------------------------ the run-length code

  // How many lines at the front equal `line`.
  function RunLength(line: string, lines: seq<string>): nat {
    if lines == [] || lines[0] != line then 0 else 1 + RunLength(line, lines[1..])
  }

  lemma {:induction false} RunLengthBound(line: string, lines: seq<string>)
    ensures RunLength(line, lines) <= |lines|
    ensures lines[..RunLength(line, lines)] == Copies(line, RunLength(line, lines))
    ensures RunLength(line, lines) < |lines| ==> lines[RunLength(line, lines)] != line
  {
    if lines != [] && lines[0] == line {
      RunLengthBound(line, lines[1..]);
      assert lines == [lines[0]] + lines[1..];
    }
  }

  function Copies(line: string, n: nat): seq<string> {
    seq(n, _ => line)
  }

  function Indent(space: char -> bool, line: string): string {
    if line == "" then ""
    else if space(line[0]) then [line[0]] + Indent(space, line[1..])
    else ""
  }

  // What closes a run after its first line: a marker past the threshold, otherwise the
  // remaining literal copies.
  function Tail(line: string, run: nat, fold: Fold): seq<Token> {
    if run > fold.threshold then [Repeat(Indent(fold.space, line), run)]
    else if run > 1 then seq(run - 1, _ => Line(line))
    else []
  }

  function Encode(lines: seq<string>, fold: Fold): seq<Token>
    decreases |lines|
  {
    if lines == [] then []
    else if lines[0] == "" then [Line("")] + Encode(lines[1..], fold)
    else
      var n := RunLength(lines[0], lines[1..]);
      RunLengthBound(lines[0], lines[1..]);
      [Line(lines[0])] + Tail(lines[0], n + 1, fold) + Encode(lines[1..][n..], fold)
  }

  // Replaces every marker by the further copies of the line before it.
  function Expand(tokens: seq<Token>): seq<string> {
    if tokens == [] then []
    else
      var before := Expand(tokens[..|tokens| - 1]);
      match tokens[|tokens| - 1]
      case Line(text) => before + [text]
      case Repeat(_, count) =>
        if before == [] || count == 0 then before else before + Copies(before[|before| - 1], count - 1)
  }

  lemma ExpandLine(a: seq<Token>, line: string)
    ensures Expand(a + [Line(line)]) == Expand(a) + [line]
  {
    assert (a + [Line(line)])[..|a|] == a;
  }

  lemma CopiesSnoc(line: string, n: nat)
    ensures Copies(line, n) + [line] == Copies(line, n + 1) == [line] + Copies(line, n)
  {}

  lemma NoCopies(line: string)
    ensures Copies(line, 0) == []
  {}

  lemma {:induction false} ExpandLiterals(a: seq<Token>, line: string, n: nat)
    ensures Expand(a + seq(n, _ => Line(line))) == Expand(a) + Copies(line, n)
  {
    hide Expand, Copies;
    if n == 0 {
      assert a + [] == a;
      assert seq(0, _ => Line(line)) == [];
      NoCopies(line);
    } else {
      ExpandLiterals(a, line, n - 1);
      ExpandLine(a + seq(n - 1, _ => Line(line)), line);
      assert a + seq(n, _ => Line(line)) == a + seq(n - 1, _ => Line(line)) + [Line(line)];
      CopiesSnoc(line, n - 1);
      assert Expand(a) + (Copies(line, n - 1) + [line]) == Expand(a) + Copies(line, n - 1) + [line];
    }
  }

  // A line and what closes its run stand for `run` copies of the line.
  lemma ExpandRun(a: seq<Token>, line: string, run: nat, fold: Fold)
    requires run >= 1
    ensures Expand(a + [Line(line)] + Tail(line, run, fold)) == Expand(a) + Copies(line, run)
  {
    var b := a + [Line(line)];
    ExpandLine(a, line);
    CopiesSnoc(line, run - 1);
    assert Expand(a) + ([line] + Copies(line, run - 1)) == Expand(b) + Copies(line, run - 1);
    if run > fold.threshold {
      var t := b + [Repeat(Indent(fold.space, line), run)];
      assert t[..|t| - 1] == b;
    } else if run > 1 {
      ExpandLiterals(b, line, run - 1);
    } else {
      assert b + [] == b;
      assert Copies(line, 1) == [line];
    }
  }

  lemma FirstRun(lines: seq<string>, fold: Fold) returns (n: nat)
    requires lines != [] && lines[0] != ""
    ensures n + 1 <= |lines| && lines == Copies(lines[0], n + 1) + lines[n + 1..]
    ensures Encode(lines, fold)
         == [Line(lines[0])] + Tail(lines[0], n + 1, fold) + Encode(lines[n + 1..], fold)
  {
    n := RunLength(lines[0], lines[1..]);
    RunLengthBound(lines[0], lines[1..]);
    assert lines[1..][n..] == lines[n + 1..];
    CopiesSnoc(lines[0], n);
    assert lines == [lines[0]] + lines[1..][..n] + lines[n + 1..];
  }

  // Lossless: expanding the code gives back every line, for every threshold.
  lemma {:induction false} ExpandEncode(a: seq<Token>, lines: seq<string>, fold: Fold)
    ensures Expand(a + Encode(lines, fold)) == Expand(a) + lines
    decreases |lines|
  {
    if lines == [] {
      assert a + [] == a;
    } else if lines[0] == "" {
      ExpandBlank(a, lines, fold);
      ExpandEncode(a + [Line("")], lines[1..], fold);
    } else {
      var n := FirstRun(lines, fold);
      var head := a + [Line(lines[0])] + Tail(lines[0], n + 1, fold);
      ExpandEncode(head, lines[n + 1..], fold);
      ExpandFirst(a, lines, n, fold);
    }
  }

  lemma ExpandBlank(a: seq<Token>, lines: seq<string>, fold: Fold)
    requires lines != [] && lines[0] == ""
    ensures a + Encode(lines, fold) == a + [Line("")] + Encode(lines[1..], fold)
    ensures Expand(a + [Line("")]) + lines[1..] == Expand(a) + lines
  {
    hide Expand;
    ExpandLine(a, "");
    Associate(a, [Line("")], Encode(lines[1..], fold));
    assert lines == [""] + lines[1..];
    Associate(Expand(a), [""], lines[1..]);
  }

  lemma ExpandFirst(a: seq<Token>, lines: seq<string>, n: nat, fold: Fold)
    requires n + 1 <= |lines| && lines == Copies(lines[0], n + 1) + lines[n + 1..]
    requires Encode(lines, fold)
          == [Line(lines[0])] + Tail(lines[0], n + 1, fold) + Encode(lines[n + 1..], fold)
    ensures var head := a + [Line(lines[0])] + Tail(lines[0], n + 1, fold);
      && a + Encode(lines, fold) == head + Encode(lines[n + 1..], fold)
      && Expand(head) + lines[n + 1..] == Expand(a) + lines
  {
    hide *;
    ExpandRun(a, lines[0], n + 1, fold);
    Associate(a, [Line(lines[0])], Tail(lines[0], n + 1, fold));
    Associate(a, [Line(lines[0])] + Tail(lines[0], n + 1, fold), Encode(lines[n + 1..], fold));
    Associate(Expand(a), Copies(lines[0], n + 1), lines[n + 1..]);
  }

  // Never longer than the input once a marker needs at least two equal lines.
  lemma {:induction false} EncodeNoLonger(lines: seq<string>, fold: Fold)
    requires fold.threshold >= 1
    ensures |Encode(lines, fold)| <= |lines|
    decreases |lines|
  {
    if lines != [] {
      if lines[0] == "" {
        EncodeNoLonger(lines[1..], fold);
      } else {
        var n := RunLength(lines[0], lines[1..]);
        RunLengthBound(lines[0], lines[1..]);
        EncodeNoLonger(lines[1..][n..], fold);
      }
    }
  }

  lemma {:induction false} NormalNoLonger(rules: Rules, before: string, lines: seq<string>)
    ensures |Normal(before, lines)| <= |lines|
    ensures |Cleaned(rules, lines)| <= |lines|
    decreases |lines|
  {
    if lines != [] {
      NormalNoLonger(rules, lines[0], lines[1..]);
    }
  }

  function Filtered(rules: Rules, lines: seq<string>, fold: Fold): seq<Token> {
    Encode(Normal("", Cleaned(rules, lines)), fold)
  }

  // The whole filter on lines: lossless on what it keeps and never longer than its input.
  lemma FilteredLossless(rules: Rules, lines: seq<string>, fold: Fold)
    ensures Expand(Filtered(rules, lines, fold)) == Normal("", Cleaned(rules, lines))
    ensures fold.threshold >= 1 ==> |Filtered(rules, lines, fold)| <= |lines|
  {
    var kept := Normal("", Cleaned(rules, lines));
    ExpandEncode([], kept, fold);
    assert [] + Encode(kept, fold) == Encode(kept, fold);
    NormalNoLonger(rules, "", Cleaned(rules, lines));
    NormalNoLonger(rules, "", lines);
    if fold.threshold >= 1 { EncodeNoLonger(kept, fold); }
  }

  // At threshold 0 a single line already earns a marker, so one line becomes two.
  lemma ZeroThresholdGrows(space: char -> bool)
    ensures |Encode(["x"], Fold(0, space))| == 2
  {
    assert RunLength("x", []) == 0;
    assert Encode([], Fold(0, space)) == [];
  }

  // ------------------------------------------------------------ the loop

  // What is still to be emitted when the current run, already `run` long, may go on.
  ghost function Pending(prev: Option<string>, run: nat, rest: seq<string>, fold: Fold): seq<Token> {
    match prev
    case None => Encode(rest, fold)
    case Some(line) =>
      var n := RunLength(line, rest);
      RunLengthBound(line, rest);
      Tail(line, run + n, fold) + Encode(rest[n..], fold)
  }

  lemma PendingSame(line: string, run: nat, rest: seq<string>, fold: Fold)
    requires rest != [] && rest[0] == line
    ensures Pending(Some(line), run, rest, fold) == Pending(Some(line), run + 1, rest[1..], fold)
  {
    var n := RunLength(line, rest[1..]);
    RunLengthBound(line, rest[1..]);
    assert rest[1..][n..] == rest[n + 1..];
  }

  lemma PendingOther(line: string, run: nat, rest: seq<string>, fold: Fold)
    requires rest == [] || rest[0] != line
    ensures Pending(Some(line), run, rest, fold) == Tail(line, run, fold) + Encode(rest, fold)
  {
    assert rest[0..] == rest;
  }

  lemma PendingNew(rest: seq<string>, fold: Fold)
    requires rest != [] && rest[0] != ""
    ensures Encode(rest, fold) == [Line(rest[0])] + Pending(Some(rest[0]), 1, rest[1..], fold)
  {
    var n := RunLength(rest[0], rest[1..]);
    RunLengthBound(rest[0], rest[1..]);
    assert [Line(rest[0])] + Tail(rest[0], n + 1, fold) + Encode(rest[1..][n..], fold)
        == [Line(rest[0])] + (Tail(rest[0], n + 1, fold) + Encode(rest[1..][n..], fold));
  }

  // The closure `_flush`.
  method Flush(kept: seq<Token>, prev: Option<string>, run: nat, fold: Fold) returns (flushed: seq<Token>)
    ensures flushed == Flushed(kept, prev, run, fold)
  {
    flushed := kept;
    if prev.None? { return; }
    if run > fold.threshold {
      flushed := flushed + [Repeat(Indent(fold.space, prev.value), run)];
    } else if run > 1 {
      flushed := flushed + seq(run - 1, _ => Line(prev.value));
    }
  }

  function Flushed(kept: seq<Token>, prev: Option<string>, run: nat, fold: Fold): seq<Token> {
    match prev
    case None => kept
    case Some(line) => kept + Tail(line, run, fold)
  }

  function LastLine(prev: Option<string>): string {
    if prev.Some? then prev.value else ""
  }

  // `kept[-1] == ""`, or nothing kept yet.
  predicate EndsBlank(kept: seq<Token>) {
    kept == [] || kept[|kept| - 1] == Line("")
  }

  // The state of the loop before the lines in `rest` (already cleaned and filtered).
  ghost predicate Scanning(kept: seq<Token>, prev: Option<string>, run: nat, rest: seq<string>,
                           fold: Fold, goal: seq<Token>) {
    && (prev.None? ==> EndsBlank(kept))
    && (prev.Some? ==> run >= 1 && prev.value != "" && kept != [] && kept[|kept| - 1] == Line(prev.value))
    && kept + Pending(prev, run, Normal(LastLine(prev), rest), fold) == goal
  }

  lemma NormalStep(before: string, line: string, rest: seq<string>)
    ensures Normal(before, [line] + rest) ==
      if line == "" && before == "" then Normal("", rest) else [line] + Normal(line, rest)
  {
    assert ([line] + rest)[1..] == rest;
    assert [] + Normal("", rest) == Normal("", rest);
  }

  lemma ScanSame(kept: seq<Token>, line: string, run: nat, rest: seq<string>, fold: Fold, goal: seq<Token>)
    requires Scanning(kept, Some(line), run, [line] + rest, fold, goal)
    ensures Scanning(kept, Some(line), run + 1, rest, fold, goal)
  {
    hide Normal, Pending;
    NormalStep(line, line, rest);
    PendingSame(line, run, [line] + Normal(line, rest), fold);
    assert ([line] + Normal(line, rest))[1..] == Normal(line, rest);
  }

  // Flushing emits what the finished run still owes.
  lemma FlushPays(kept: seq<Token>, prev: Option<string>, run: nat, rest: seq<string>, fold: Fold)
    requires prev.Some? ==> rest == [] || rest[0] != prev.value
    ensures kept + Pending(prev, run, rest, fold) == Flushed(kept, prev, run, fold) + Encode(rest, fold)
  {
    hide Encode, Tail, RunLength;
    if prev.Some? {
      PendingOther(prev.value, run, rest, fold);
      Associate(kept, Tail(prev.value, run, fold), Encode(rest, fold));
    }
  }

  lemma FlushedEnd(kept: seq<Token>, prev: Option<string>, run: nat, fold: Fold)
    requires prev.Some? ==> prev.value != "" && kept != [] && kept[|kept| - 1] == Line(prev.value)
    ensures prev.Some? ==> !EndsBlank(Flushed(kept, prev, run, fold))
  {}

  // After `_flush`, a blank line is appended unless a blank or nothing came before it.
  lemma ScanBlank(kept: seq<Token>, prev: Option<string>, run: nat, rest: seq<string>, fold: Fold, goal: seq<Token>)
    requires Scanning(kept, prev, run, [""] + rest, fold, goal)
    ensures var flushed := Flushed(kept, prev, run, fold);
      Scanning(if EndsBlank(flushed) then flushed else flushed + [Line("")], None, 0, rest, fold, goal)
  {
    hide Normal, Tail, RunLength;
    var flushed, after := Flushed(kept, prev, run, fold), Normal("", rest);
    NormalStep(LastLine(prev), "", rest);
    FlushedEnd(kept, prev, run, fold);
    FlushPays(kept, prev, run, Normal(LastLine(prev), [""] + rest), fold);
    if prev.Some? {
      assert ([""] + after)[1..] == after;
      Associate(flushed, [Line("")], Encode(after, fold));
    }
  }

  lemma ScanNew(kept: seq<Token>, prev: Option<string>, run: nat, line: string, rest: seq<string>, fold: Fold,
                goal: seq<Token>)
    requires Scanning(kept, prev, run, [line] + rest, fold, goal) && line != "" && prev != Some(line)
    ensures Scanning(Flushed(kept, prev, run, fold) + [Line(line)], Some(line), 1, rest, fold, goal)
  {
    hide Normal, Tail, RunLength, Encode, Pending;
    var flushed, after := Flushed(kept, prev, run, fold), Normal(line, rest);
    NormalStep(LastLine(prev), line, rest);
    FlushPays(kept, prev, run, [line] + after, fold);
    PendingNew([line] + after, fold);
    assert ([line] + after)[1..] == after;
    Associate(flushed, [Line(line)], Pending(Some(line), 1, after, fold));
  }

  lemma ScanStart(rules: Rules, lines: seq<string>, fold: Fold)
    ensures Scanning([], None, 0, Cleaned(rules, lines[0..]), fold, Filtered(rules, lines, fold))
  {
    assert lines[0..] == lines;
    var goal := Filtered(rules, lines, fold);
    assert [] + goal == goal;
  }

  lemma ScanEnd(kept: seq<Token>, prev: Option<string>, run: nat, fold: Fold, goal: seq<Token>)
    requires Scanning(kept, prev, run, [], fold, goal)
    ensures Flushed(kept, prev, run, fold) == goal
  {
    hide Tail;
    FlushPays(kept, prev, run, [], fold);
    assert Flushed(kept, prev, run, fold) + [] == Flushed(kept, prev, run, fold);
  }

  lemma CleanedStep(rules: Rules, lines: seq<string>, i: nat)
    requires i < |lines|
    ensures Cleaned(rules, lines[i..]) ==
      var line := rules.clean(lines[i]);
      if rules.antiEvent(line) then Cleaned(rules, lines[i + 1..]) else [line] + Cleaned(rules, lines[i + 1..])
  {
    assert lines[i..][1..] == lines[i + 1..];
    assert [] + Cleaned(rules, lines[i + 1..]) == Cleaned(rules, lines[i + 1..]);
  }

  method FilterLines(rules: Rules, lines: seq<string>, fold: Fold) returns (kept: seq<Token>)
    ensures kept == Filtered(rules, lines, fold)
  {
    hide Filtered, Scanning, Flushed, Cleaned;
    ghost var goal := Filtered(rules, lines, fold);
    kept := [];
    var prev: Option<string> := None;
    var run := 0;
    ScanStart(rules, lines, fold);
    for i := 0 to |lines|
      invariant Scanning(kept, prev, run, Cleaned(rules, lines[i..]), fold, goal)
    {
      CleanedStep(rules, lines, i);
      ghost var rest := Cleaned(rules, lines[i + 1..]);
      var line := rules.clean(lines[i]);
      if rules.antiEvent(line) { continue; }
      if line == "" {
        ScanBlank(kept, prev, run, rest, fold, goal);
        kept := Flush(kept, prev, run, fold);
        prev, run := None, 0;
        if EndsBlank(kept) { continue; }
        kept := kept + [Line("")];
        continue;
      }
      if prev == Some(line) {
        ScanSame(kept, line, run, rest, fold, goal);
        run := run + 1;
        continue;
      }
      ScanNew(kept, prev, run, line, rest, fold, goal);
      kept := Flush(kept, prev, run, fold);
      kept := kept + [Line(line)];
      prev, run := Some(line), 1;
    }
    NothingCleaned(rules, lines);
    ScanEnd(kept, prev, run, fold, goal);
    kept := Flush(kept, prev, run, fold);
  }

  lemma NothingCleaned(rules: Rules, lines: seq<string>)
    ensures Cleaned(rules, lines[|lines|..]) == []
  {}
}
