/** `porcelain_paths`: the parser of `git status --porcelain -z`, with the printer it
    inverts. */
module Porcelain {
  import opened Basics
  import opened Text

  const NUL: char := '\0'

  predicate IsRenameOrCopy(c: char) {
    c == 'R' || c == 'C'
  }

  // One status entry; a rename or copy carries the original path in a field of its own.
  datatype Status = Status(x: char, y: char, path: string, original: Option<string>)

  function Fields(s: Status): seq<string> {
    [[s.x, s.y, ' '] + s.path] + (if s.original.Some? then [s.original.value] else [])
  }

  function AllFields(entries: seq<Status>): seq<string> {
    if entries == [] then [] else Fields(entries[0]) + AllFields(entries[1..])
  }

  // Every field is terminated by NUL.
  function Terminated(fields: seq<string>): string {
    if fields == [] then "" else fields[0] + [NUL] + Terminated(fields[1..])
  }

  function Print(entries: seq<Status>): string {
    Terminated(AllFields(entries))
  }

  predicate Plain(s: Status) {
    && s.x != NUL && s.y != NUL && s.path != "" && NUL !in s.path
    && (s.original.Some? ==> NUL !in s.original.value)
  }

  // The original path is announced by the first status letter, or too short for a record.
  predicate Printable(s: Status) {
    && Plain(s)
    && (IsRenameOrCopy(s.x) ==> s.original.Some?)
    && (s.original.Some? ==> IsRenameOrCopy(s.x) || |s.original.value| < 4)
  }

  function Paths(entries: seq<Status>): seq<string> {
    if entries == [] then [] else [entries[0].path] + Paths(entries[1..])
  }

  // What the loop collects from the fields that are left.
  function Collect(records: seq<string>): seq<string>
    decreases |records|
  {
    if records == [] then []
    else if |records[0]| < 4 then Collect(records[1..])
    else
      var skip := if IsRenameOrCopy(records[0][0]) && |records| > 1 then 2 else 1;
      [records[0][3..]] + Collect(records[skip..])
  }

  function Parse(raw: string): seq<string> {
    Collect(Split(raw, NUL))
  }

  method PorcelainPaths(raw: string) returns (paths: seq<string>)
    ensures paths == Parse(raw)
  {
    if raw == "" {
      assert Collect([""]) == Collect([""][1..]);
      return [];
    }
    var records := Split(raw, NUL);
    paths := [];
    var i := 0;
    var n := |records|;
    while i < n
      invariant 0 <= i
      invariant paths + Collect(if i <= n then records[i..] else []) == Collect(records)
      decreases n - i
    {
      var record := records[i];
      assert records[i..][1..] == records[i + 1..];
      if record == "" {
        i := i + 1;
        continue;
      }
      if |record| < 4 {
        i := i + 1;
        continue;
      }
      if i + 2 <= n { assert records[i..][2..] == records[i + 2..]; }
      var rest := if IsRenameOrCopy(record[0]) && i + 1 < n then records[i + 2..] else records[i + 1..];
      assert paths + ([record[3..]] + Collect(rest)) == paths + [record[3..]] + Collect(rest);
      paths := paths + [record[3..]];
      i := i + 1;
      if IsRenameOrCopy(record[0]) {
        i := i + 1;
      }
    }
    assert paths + [] == paths;
  }

  lemma {:induction false} SplitTerminated(fields: seq<string>)
    requires forall i | 0 <= i < |fields| :: NUL !in fields[i]
    ensures Split(Terminated(fields), NUL) == fields + [""]
  {
    if fields != [] {
      SplitTerminated(fields[1..]);
      SplitPrefix(fields[0], Terminated(fields[1..]), NUL);
      assert fields == [fields[0]] + fields[1..];
    }
  }

  lemma {:induction false} FieldsPlain(entries: seq<Status>)
    requires forall i | 0 <= i < |entries| :: Printable(entries[i])
    ensures forall i | 0 <= i < |AllFields(entries)| :: NUL !in AllFields(entries)[i]
  {
    if entries != [] {
      FieldsPlain(entries[1..]);
      assert Printable(entries[0]);
    }
  }

  lemma {:induction false} CollectFields(entries: seq<Status>)
    requires forall i | 0 <= i < |entries| :: Printable(entries[i])
    ensures Collect(AllFields(entries) + [""]) == Paths(entries)
  {
    if entries == [] {
      assert Collect([""]) == Collect([""][1..]);
    } else {
      hide Fields, Collect;
      assert Printable(entries[0]);
      CollectFields(entries[1..]);
      CollectStep(entries[0], AllFields(entries[1..]) + [""]);
      assert AllFields(entries) + [""] == Fields(entries[0]) + (AllFields(entries[1..]) + [""]);
    }
  }

  // What one record takes from the fields.  An original path that is not announced and has
  // four characters or more passes for a record: it yields a path of its own and, when it
  // starts with R or C, swallows the first field of the next record.
  lemma CollectStep(e: Status, rest: seq<string>)
    requires Plain(e) && (IsRenameOrCopy(e.x) ==> e.original.Some?)
    ensures Collect(Fields(e) + rest) == [e.path] +
      if e.original.None? || IsRenameOrCopy(e.x) || |e.original.value| < 4 then Collect(rest)
      else [e.original.value[3..]]
           + Collect(if IsRenameOrCopy(e.original.value[0]) && rest != [] then rest[1..] else rest)
  {
    var first := [e.x, e.y, ' '] + e.path;
    var all := Fields(e) + rest;
    assert first[3..] == e.path && |first| >= 4;
    assert all[0] == first;
    if e.original.Some? {
      var other := e.original.value;
      assert all == [first, other] + rest;
      assert all[2..] == rest;
      assert all[1..] == [other] + rest;
      assert ([other] + rest)[1..] == rest;
      if rest != [] { assert ([other] + rest)[2..] == rest[1..]; }
    } else {
      assert all == [first] + rest;
      assert all[1..] == rest;
    }
  }

  // Round trip: printing status entries and parsing them returns the current paths, in order.
  lemma ParsePrint(entries: seq<Status>)
    requires forall i | 0 <= i < |entries| :: Printable(entries[i])
    ensures Parse(Print(entries)) == Paths(entries)
  {
    FieldsPlain(entries);
    SplitTerminated(AllFields(entries));
    CollectFields(entries);
  }

  // A modified file and a rename, as git prints them.
  lemma ParseExample()
    ensures Parse(" M a" + ['\0'] + ("R  b" + ['\0'] + ("c" + ['\0'] + ""))) == ["a", "b"]
  {
    SplitPrefix(" M a", "R  b" + ['\0'] + ("c" + ['\0'] + ""), '\0');
    SplitPrefix("R  b", "c" + ['\0'] + "", '\0');
    SplitPrefix("c", "", '\0');
    assert Split("", '\0') == [""];
    var records := [" M a", "R  b", "c", ""];
    assert records[1..] == ["R  b", "c", ""] && ["R  b", "c", ""][2..] == [""] && [""][1..] == [];
    assert [" M a"] + (["R  b"] + (["c"] + [""])) == records;
    assert " M a"[3..] == "a" && "R  b"[3..] == "b";
    assert Collect([""]) == [] && Collect(["R  b", "c", ""]) == ["b"] + Collect([""]);
    assert Collect(records) == ["a"] + Collect(["R  b", "c", ""]);
  }

  // The parser looks only at the first status letter.  A single entry that carries an
  // original path is parsed right exactly when that letter announces it, or when the
  // original path is too short to pass for a record.
  lemma OriginalPathIff(s: Status)
    requires Plain(s) && s.original.Some?
    ensures Parse(Print([s])) == [s.path] <==> s.x == 'R' || s.x == 'C' || |s.original.value| < 4
  {
    assert AllFields([s]) == Fields(s);
    SplitTerminated(Fields(s));
    CollectStep(s, [""]);
    assert Collect([""]) == Collect([""][1..]) == [];
  }
}
