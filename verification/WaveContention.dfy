/** `refine_waves_for_contention`: waves whose issues may touch the same files are split
    into sub-waves by greedy colouring.  What two issues overlap on, and whether an issue
    has any file hint at all, are parameters. */
module WaveContention {
  import opened Basics
  import opened Ordering
  import opened Digraph
  import opened Schedule

  datatype Hints = Hints(overlap: (Id, Id) -> set<string>, hintless: Id -> bool)

  datatype Note = Note(contended: set<string>, subWave: nat, total: nat, parent: nat, unknown: bool)

  // Two issues of a wave clash when the earlier one's hints overlap the later one's, or
  // when neither has hints.
  predicate Clash(h: Hints, wave: seq<Id>, i: nat, j: nat)
    requires i < j < |wave|
  {
    h.overlap(wave[i], wave[j]) != {} || (h.hintless(wave[i]) && h.hintless(wave[j]))
  }

  predicate Conflict(h: Hints, wave: seq<Id>, i: nat, j: nat)
    requires i < |wave| && j < |wave|
  {
    if i < j then Clash(h, wave, i, j) else j < i && Clash(h, wave, j, i)
  }

  ghost predicate AnyClash(h: Hints, wave: seq<Id>) {
    exists i, j :: 0 <= i < j < |wave| && Clash(h, wave, i, j)
  }

  // `color[i]` is the colour given to `wave[i]`.
  ghost predicate Proper(h: Hints, wave: seq<Id>, color: seq<nat>)
    requires |color| <= |wave|
  {
    forall i, j | 0 <= i < j < |color| && Clash(h, wave, i, j) :: color[i] != color[j]
  }

  // Some earlier issue of colour `c` clashes with issue `j`.
  ghost predicate Forced(h: Hints, wave: seq<Id>, color: seq<nat>, j: nat, c: nat)
    requires j < |color| <= |wave|
  {
    exists i :: 0 <= i < j && Clash(h, wave, i, j) && color[i] == c
  }

  // First fit: every colour below an issue's own is forced away from it.
  ghost predicate FirstFit(h: Hints, wave: seq<Id>, color: seq<nat>)
    requires |color| <= |wave|
  {
    forall j, c: nat {:trigger Forced(h, wave, color, j, c)} | 0 <= j < |color| && c < color[j] ::
      Forced(h, wave, color, j, c)
  }

  ghost predicate Greedy(h: Hints, wave: seq<Id>, color: seq<nat>) {
    |color| <= |wave| && Proper(h, wave, color) && FirstFit(h, wave, color)
  }

  // Greedy colouring is a function of the wave and the conflict relation.
  lemma {:induction false} GreedyUnique(h: Hints, wave: seq<Id>, a: seq<nat>, b: seq<nat>, n: nat)
    requires Greedy(h, wave, a) && Greedy(h, wave, b) && n <= |a| == |b|
    ensures a[..n] == b[..n]
  {
    if n > 0 {
      GreedyUnique(h, wave, a, b, n - 1);
      forall i | 0 <= i < n - 1 ensures a[i] == b[i] {
        assert a[..n - 1][i] == b[..n - 1][i];
      }
      GreedyLeast(h, wave, a, b, n - 1);
      GreedyLeast(h, wave, b, a, n - 1);
    }
  }

  lemma GreedyLeast(h: Hints, wave: seq<Id>, a: seq<nat>, b: seq<nat>, j: nat)
    requires Greedy(h, wave, a) && Greedy(h, wave, b) && j < |a| == |b|
    requires forall i | 0 <= i < j :: a[i] == b[i]
    ensures a[j] <= b[j]
  {
    if b[j] < a[j] {
      var i := ForcedBy(h, wave, a, j, b[j]);
    }
  }

  lemma ForcedBy(h: Hints, wave: seq<Id>, color: seq<nat>, j: nat, c: nat) returns (i: nat)
    requires Greedy(h, wave, color) && j < |color| && c < color[j]
    ensures i < j && Clash(h, wave, i, j) && color[i] == c
  {
    assert Forced(h, wave, color, j, c);
    i :| 0 <= i < j && Clash(h, wave, i, j) && color[i] == c;
  }

  // The positions that conflict with position `j`.
  ghost function Neighbours(h: Hints, wave: seq<Id>, j: nat): set<nat>
    requires j < |wave|
  {
    set i: nat | i < |wave| && Conflict(h, wave, i, j)
  }

  lemma {:induction false} RangeCard(s: set<nat>, n: nat)
    requires forall c: nat | c < n :: c in s
    ensures n <= |s|
    decreases n
  {
    if n > 0 {
      RangeCard(s - {n - 1}, n - 1);
    }
  }

  // No issue gets a colour above its number of conflicts.
  lemma ColorAtMostDegree(h: Hints, wave: seq<Id>, color: seq<nat>, j: nat)
    requires Greedy(h, wave, color) && j < |color|
    ensures color[j] <= |Neighbours(h, wave, j)|
  {
    var near := set i: nat | i in Neighbours(h, wave, j) && i < j;
    SubsetCard(near, Neighbours(h, wave, j));
    var used := ColorsOf(near, color);
    forall c: nat | c < color[j] ensures c in used {
      var i := ForcedBy(h, wave, color, j, c);
      assert i in near;
    }
    RangeCard(used, color[j]);
    ColorsOfCard(near, color);
  }

  ghost function ColorsOf(near: set<nat>, color: seq<nat>): set<nat> {
    set i | i in near && i < |color| :: color[i]
  }

  lemma {:induction false} ColorsOfCard(near: set<nat>, color: seq<nat>)
    requires forall i | i in near :: i < |color|
    ensures |ColorsOf(near, color)| <= |near|
    decreases near
  {
    if near != {} {
      var i :| i in near;
      ColorsOfCard(near - {i}, color);
      assert ColorsOf(near, color) == ColorsOf(near - {i}, color) + {color[i]};
    }
  }

  // ------------------------------------------------------------- sub-waves

  // `[issue for issue in wave if color[issue.issue_id] == c]`
  function SubWave(wave: seq<Id>, color: seq<nat>, c: nat): seq<Id>
    requires |color| == |wave|
  {
    if wave == [] then []
    else (if color[0] == c then [wave[0]] else []) + SubWave(wave[1..], color[1..], c)
  }

  // Where position `i` of the wave ends up inside its sub-wave.
  ghost function Place(color: seq<nat>, i: nat): nat
    requires i < |color|
  {
    if i == 0 then 0
    else (if color[0] == color[i] then 1 else 0) + Place(color[1..], i - 1)
  }

  // A sub-wave lists exactly the issues of its colour, in the order of the wave.
  lemma {:induction false} PlaceCorrect(wave: seq<Id>, color: seq<nat>, i: nat)
    requires i < |color| == |wave|
    ensures Place(color, i) < |SubWave(wave, color, color[i])|
    ensures SubWave(wave, color, color[i])[Place(color, i)] == wave[i]
  {
    if i > 0 {
      PlaceCorrect(wave[1..], color[1..], i - 1);
    }
  }

  lemma {:induction false} PlaceMonotone(color: seq<nat>, i: nat, j: nat)
    requires i < j < |color| && color[i] == color[j]
    ensures Place(color, i) < Place(color, j)
  {
    if i > 0 {
      PlaceMonotone(color[1..], i - 1, j - 1);
    }
  }

  lemma {:induction false} PlaceCovers(wave: seq<Id>, color: seq<nat>, c: nat, k: nat) returns (i: nat)
    requires |color| == |wave| && k < |SubWave(wave, color, c)|
    ensures i < |wave| && color[i] == c && Place(color, i) == k && wave[i] == SubWave(wave, color, c)[k]
  {
    if color[0] == c && k == 0 {
      i := 0;
    } else {
      i := PlaceCovers(wave[1..], color[1..], c, if color[0] == c then k - 1 else k);
      i := i + 1;
    }
  }

  function MaxColor(color: seq<nat>): nat
    requires color != []
  {
    if |color| == 1 then color[0]
    else var m := MaxColor(color[1..]); if color[0] > m then color[0] else m
  }

  lemma {:induction false} MaxColorIs(color: seq<nat>)
    requires color != []
    ensures MaxColor(color) in color && forall i | 0 <= i < |color| :: color[i] <= MaxColor(color)
  {
    if |color| > 1 {
      MaxColorIs(color[1..]);
      forall i | 0 <= i < |color| ensures color[i] <= MaxColor(color) {
        if i > 0 { assert color[i] == color[1..][i - 1]; }
      }
    }
  }

  // Colours are contiguous from 0, so no sub-wave is empty.
  lemma ColorsContiguous(h: Hints, wave: seq<Id>, color: seq<nat>, c: nat)
    requires Greedy(h, wave, color) && |color| == |wave| && color != [] && c <= MaxColor(color)
    ensures c in color && SubWave(wave, color, c) != []
  {
    hide Greedy, Clash, MaxColor, SubWave, Place;
    MaxColorIs(color);
    var j :| 0 <= j < |color| && color[j] == MaxColor(color);
    var i := j;
    if c < color[j] {
      i := ForcedBy(h, wave, color, j, c);
    }
    PlaceCorrect(wave, color, i);
  }

  // ------------------------------------------------------- what a split wave becomes

  ghost predicate SplitBy(h: Hints, wave: seq<Id>, color: seq<nat>, subs: seq<seq<Id>>) {
    && Greedy(h, wave, color) && |color| == |wave| && color != []
    && |subs| == MaxColor(color) + 1
    && forall c | 0 <= c < |subs| :: subs[c] == SubWave(wave, color, c)
  }

  // The contended paths are the union of all overlaps inside the wave.
  ghost predicate Contended(h: Hints, wave: seq<Id>, paths: set<string>) {
    forall s :: s in paths <==> exists i, j :: 0 <= i < j < |wave| && s in h.overlap(wave[i], wave[j])
  }

  ghost predicate TwoHintless(h: Hints, wave: seq<Id>) {
    exists i, j :: 0 <= i < j < |wave| && h.hintless(wave[i]) && h.hintless(wave[j])
  }

  ghost predicate NotesFor(h: Hints, wave: seq<Id>, notes: seq<Option<Note>>, parent: nat) {
    forall c | 0 <= c < |notes| ::
      && notes[c].Some? && notes[c].value.subWave == c
      && notes[c].value.total == |notes| && notes[c].value.parent == parent
      && Contended(h, wave, notes[c].value.contended)
      && (notes[c].value.unknown <==> TwoHintless(h, wave))
  }

  ghost predicate WaveRefined(h: Hints, wave: seq<Id>, parent: nat, subs: seq<seq<Id>>, notes: seq<Option<Note>>) {
    && |subs| == |notes|
    && if AnyClash(h, wave) then
         (exists color :: SplitBy(h, wave, color, subs)) && NotesFor(h, wave, notes, parent)
       else subs == [wave] && notes == [None]
  }

  // No two issues of one sub-wave conflict, so two issues without hints never share one.
  lemma SubWavesConflictFree(h: Hints, wave: seq<Id>, color: seq<nat>, subs: seq<seq<Id>>, c: nat, k: nat, l: nat)
      returns (i: nat, j: nat)
    requires SplitBy(h, wave, color, subs) && c < |subs| && k < l < |subs[c]|
    ensures i < j < |wave| && wave[i] == subs[c][k] && wave[j] == subs[c][l]
    ensures h.overlap(wave[i], wave[j]) == {} && !(h.hintless(wave[i]) && h.hintless(wave[j]))
  {
    i := PlaceCovers(wave, color, c, k);
    j := PlaceCovers(wave, color, c, l);
    if j < i { PlaceMonotone(color, j, i); }
  }

  // An issue is in a later sub-wave only because of an issue ahead of it in every earlier one:
  // their hints overlap, or neither has any.
  lemma SubWavesForced(h: Hints, wave: seq<Id>, color: seq<nat>, subs: seq<seq<Id>>, c: nat, x: Id, d: nat)
      returns (i: nat, j: nat)
    requires SplitBy(h, wave, color, subs) && d < c < |subs| && x in subs[c]
    ensures i < j < |wave| && wave[j] == x && wave[i] in subs[d]
    ensures h.overlap(wave[i], x) != {} || (h.hintless(wave[i]) && h.hintless(x))
  {
    hide MaxColor, Greedy, Place, SubWave;
    var k :| 0 <= k < |subs[c]| && subs[c][k] == x;
    j := PlaceCovers(wave, color, c, k);
    i := ForcedBy(h, wave, color, j, d);
    PlaceCorrect(wave, color, i);
  }

  // When a wave is split and what its notes say, on the hints alone.
  lemma WaveRefinedMeans(h: Hints, wave: seq<Id>, parent: nat, subs: seq<seq<Id>>, notes: seq<Option<Note>>)
    requires WaveRefined(h, wave, parent, subs, notes)
    ensures |subs| == |notes|
    ensures
      if exists i, j ::
           0 <= i < j < |wave| && (h.overlap(wave[i], wave[j]) != {} || (h.hintless(wave[i]) && h.hintless(wave[j])))
      then
        forall c | 0 <= c < |notes| ::
          && notes[c].Some? && notes[c].value.subWave == c && notes[c].value.total == |subs|
          && notes[c].value.parent == parent
          && (notes[c].value.unknown <==>
               exists i, j :: 0 <= i < j < |wave| && h.hintless(wave[i]) && h.hintless(wave[j]))
          && forall s :: s in notes[c].value.contended <==>
               exists i, j :: 0 <= i < j < |wave| && s in h.overlap(wave[i], wave[j])
      else
        subs == [wave] && notes == [None]
  {
    hide SplitBy;
    if i, j :|
      0 <= i < j < |wave| && (h.overlap(wave[i], wave[j]) != {} || (h.hintless(wave[i]) && h.hintless(wave[j])))
    {
      assert Clash(h, wave, i, j);
    }
    if AnyClash(h, wave) {
      var i, j :| 0 <= i < j < |wave| && Clash(h, wave, i, j);
      assert h.overlap(wave[i], wave[j]) != {} || (h.hintless(wave[i]) && h.hintless(wave[j]));
    }
  }

  // The sub-waves partition the wave.
  lemma SubWavesPartition(h: Hints, wave: seq<Id>, color: seq<nat>, subs: seq<seq<Id>>, x: Id)
    requires SplitBy(h, wave, color, subs) && Distinct(wave)
    ensures x in wave <==> exists c :: 0 <= c < |subs| && x in subs[c]
    ensures forall c, d | 0 <= c < |subs| && 0 <= d < |subs| && x in subs[c] && x in subs[d] :: c == d
  {
    hide MaxColor, SubWave, Place, Greedy;
    if x in wave {
      var i :| 0 <= i < |wave| && wave[i] == x;
      MaxColorIs(color);
      PlaceCorrect(wave, color, i);
      assert x in subs[color[i]];
    }
    forall c | 0 <= c < |subs| && x in subs[c]
      ensures exists i :: 0 <= i < |wave| && wave[i] == x && color[i] == c
    {
      var k :| 0 <= k < |subs[c]| && subs[c][k] == x;
      var i := PlaceCovers(wave, color, c, k);
    }
  }

  // ------------------------------------------------------------- the conflict graph

  // `conflicts` holds exactly the pairs of positions in `edges`, in both directions.
  ghost predicate Symmetric(wave: seq<Id>, conflicts: Adj, edges: set<(nat, nat)>) {
    && conflicts.Keys == Elems(wave)
    && (forall x | x in conflicts :: conflicts[x] <= Elems(wave))
    && (forall i, j | 0 <= i < |wave| && 0 <= j < |wave| && wave[i] in conflicts ::
         wave[j] in conflicts[wave[i]] <==> (i, j) in edges || (j, i) in edges)
  }

  lemma SymmetricStart(wave: seq<Id>)
    ensures Symmetric(wave, map x | x in wave :: {}, {})
  {}

  lemma SymmetricStep(wave: seq<Id>, conflicts: Adj, edges: set<(nat, nat)>, a: nat, b: nat)
    requires Symmetric(wave, conflicts, edges) && Distinct(wave) && a < |wave| && b < |wave| && a != b
    ensures wave[a] in conflicts && wave[b] in conflicts
    ensures Symmetric(wave, Link(conflicts, wave[a], wave[b]), edges + {(a, b)})
  {
    assert wave[a] in Elems(wave) && wave[b] in Elems(wave);
    var now, more := Link(conflicts, wave[a], wave[b]), edges + {(a, b)};
    forall i, j | 0 <= i < |wave| && 0 <= j < |wave| && wave[i] in now
      ensures wave[j] in now[wave[i]] <==> (i, j) in more || (j, i) in more
    {
      assert wave[j] in conflicts[wave[i]] <==> (i, j) in edges || (j, i) in edges;
    }
  }

  function Link(conflicts: Adj, a: Id, b: Id): Adj
    requires a in conflicts && b in conflicts
  {
    var once := conflicts[a := conflicts[a] + {b}];
    once[b := once[b] + {a}]
  }

  // The pairs the double loops have added when they stand at (i, j).
  ghost predicate OverlapsUpTo(h: Hints, wave: seq<Id>, edges: set<(nat, nat)>, i: nat, j: nat) {
    forall a: nat, b: nat :: (a, b) in edges <==>
      a < b < |wave| && (a < i || (a == i && b < j)) && h.overlap(wave[a], wave[b]) != {}
  }

  ghost predicate ClashesUpTo(h: Hints, wave: seq<Id>, edges: set<(nat, nat)>, i: nat, j: nat) {
    forall a: nat, b: nat :: (a, b) in edges <==>
      a < b < |wave| && (h.overlap(wave[a], wave[b]) != {} ||
        ((a < i || (a == i && b < j)) && h.hintless(wave[a]) && h.hintless(wave[b])))
  }

  lemma OverlapsEnds(h: Hints, wave: seq<Id>, edges: set<(nat, nat)>, i: nat)
    ensures OverlapsUpTo(h, wave, {}, 0, 1)
    ensures OverlapsUpTo(h, wave, edges, i, |wave|) ==> OverlapsUpTo(h, wave, edges, i + 1, i + 2)
  {}

  lemma OverlapsStep(h: Hints, wave: seq<Id>, edges: set<(nat, nat)>, i: nat, j: nat)
    requires i < j < |wave| && OverlapsUpTo(h, wave, edges, i, j)
    ensures OverlapsUpTo(h, wave, if h.overlap(wave[i], wave[j]) != {} then edges + {(i, j)} else edges, i, j + 1)
  {}

  lemma ClashesEnds(h: Hints, wave: seq<Id>, edges: set<(nat, nat)>, i: nat)
    ensures OverlapsUpTo(h, wave, edges, |wave|, |wave| + 1) ==> ClashesUpTo(h, wave, edges, 0, 1)
    ensures ClashesUpTo(h, wave, edges, i, |wave|) ==> ClashesUpTo(h, wave, edges, i + 1, i + 2)
    ensures i < |wave| && !h.hintless(wave[i]) && ClashesUpTo(h, wave, edges, i, i + 1) ==>
              ClashesUpTo(h, wave, edges, i + 1, i + 2)
    ensures ClashesUpTo(h, wave, edges, |wave|, |wave| + 1) ==> ClashesUpTo(h, wave, edges, |wave|, |wave|)
  {}

  lemma ClashesStep(h: Hints, wave: seq<Id>, edges: set<(nat, nat)>, i: nat, j: nat)
    requires i < j < |wave| && h.hintless(wave[i]) && ClashesUpTo(h, wave, edges, i, j)
    ensures ClashesUpTo(h, wave, if h.hintless(wave[j]) then edges + {(i, j)} else edges, i, j + 1)
  {}

  // `conflicts[id]` is the conflict relation of the wave.
  ghost predicate IsConflictMap(h: Hints, wave: seq<Id>, conflicts: Adj) {
    && conflicts.Keys == Elems(wave)
    && (forall x | x in conflicts :: conflicts[x] <= Elems(wave))
    && (forall i, j | 0 <= i < |wave| && 0 <= j < |wave| && wave[i] in conflicts ::
         wave[j] in conflicts[wave[i]] <==> Conflict(h, wave, i, j))
  }

  lemma ConflictMapDone(h: Hints, wave: seq<Id>, conflicts: Adj, edges: set<(nat, nat)>)
    requires Symmetric(wave, conflicts, edges) && ClashesUpTo(h, wave, edges, |wave|, |wave|)
    ensures IsConflictMap(h, wave, conflicts)
  {
    forall i, j | 0 <= i < |wave| && 0 <= j < |wave| && wave[i] in conflicts
      ensures wave[j] in conflicts[wave[i]] <==> Conflict(h, wave, i, j)
    {
      assert wave[j] in conflicts[wave[i]] <==> (i, j) in edges || (j, i) in edges;
    }
  }

  ghost predicate ContendedUpTo(h: Hints, wave: seq<Id>, paths: set<string>, i: nat, j: nat) {
    forall s :: s in paths <==> exists a, b ::
      0 <= a < b < |wave| && (a < i || (a == i && b < j)) && s in h.overlap(wave[a], wave[b])
  }

  lemma ContendedStep(h: Hints, wave: seq<Id>, paths: set<string>, i: nat, j: nat)
    requires i < j < |wave| && ContendedUpTo(h, wave, paths, i, j)
    ensures ContendedUpTo(h, wave, paths + h.overlap(wave[i], wave[j]), i, j + 1)
  {}

  lemma ContendedRow(h: Hints, wave: seq<Id>, paths: set<string>, i: nat)
    ensures ContendedUpTo(h, wave, {}, 0, 0)
    ensures ContendedUpTo(h, wave, paths, i, |wave|) ==> ContendedUpTo(h, wave, paths, i + 1, i + 2)
    ensures ContendedUpTo(h, wave, paths, |wave|, i) ==> Contended(h, wave, paths)
    ensures ContendedUpTo(h, wave, {}, 0, 1)
  {}

  // `[id for issue in wave if no files and no directories]`
  function HintlessIds(h: Hints, wave: seq<Id>): seq<Id> {
    if wave == [] then []
    else (if h.hintless(wave[0]) then [wave[0]] else []) + HintlessIds(h, wave[1..])
  }

  lemma {:induction false} HintlessCount(h: Hints, wave: seq<Id>)
    ensures |HintlessIds(h, wave)| > 0 <==> exists i :: 0 <= i < |wave| && h.hintless(wave[i])
    ensures |HintlessIds(h, wave)| > 1 <==> TwoHintless(h, wave)
  {
    if wave != [] {
      HintlessCount(h, wave[1..]);
      forall i | 0 <= i < |wave| - 1 ensures wave[1..][i] == wave[i + 1] {}
      if i :| 0 <= i < |wave| && h.hintless(wave[i]) && i > 0 {
        assert h.hintless(wave[1..][i - 1]);
      }
      if i, j :| 0 <= i < j < |wave| && h.hintless(wave[i]) && h.hintless(wave[j]) {
        assert h.hintless(wave[1..][j - 1]);
        if i > 0 { assert h.hintless(wave[1..][i - 1]); }
      }
    }
  }

  method BuildConflicts(h: Hints, wave: seq<Id>) returns (conflicts: Adj, contended: set<string>)
    requires Distinct(wave)
    ensures IsConflictMap(h, wave, conflicts) && Contended(h, wave, contended)
  {
    hide Distinct, Symmetric, Contended, ContendedUpTo, OverlapsUpTo, ClashesUpTo, Link;
    conflicts := map x | x in wave :: {};
    contended := {};
    ghost var edges: set<(nat, nat)> := {};
    SymmetricStart(wave);
    ContendedRow(h, wave, {}, 0);
    OverlapsEnds(h, wave, edges, 0);
    for i := 0 to |wave|
      invariant Symmetric(wave, conflicts, edges) && OverlapsUpTo(h, wave, edges, i, i + 1)
      invariant ContendedUpTo(h, wave, contended, i, i + 1)
    {
      for j := i + 1 to |wave|
        invariant Symmetric(wave, conflicts, edges) && OverlapsUpTo(h, wave, edges, i, j)
        invariant ContendedUpTo(h, wave, contended, i, j)
      {
        var paths := h.overlap(wave[i], wave[j]);
        ContendedStep(h, wave, contended, i, j);
        OverlapsStep(h, wave, edges, i, j);
        assert paths == {} ==> contended + paths == contended;
        if paths != {} {
          SymmetricStep(wave, conflicts, edges, i, j);
          conflicts := Link(conflicts, wave[i], wave[j]);
          edges := edges + {(i, j)};
          contended := contended + paths;
        }
      }
      ContendedRow(h, wave, contended, i);
      OverlapsEnds(h, wave, edges, i);
    }
    ContendedRow(h, wave, contended, |wave| + 1);
    ClashesEnds(h, wave, edges, 0);
    for i := 0 to |wave|
      invariant Symmetric(wave, conflicts, edges) && ClashesUpTo(h, wave, edges, i, i + 1)
    {
      ClashesEnds(h, wave, edges, i);
      if !h.hintless(wave[i]) { continue; }
      for j := i + 1 to |wave|
        invariant Symmetric(wave, conflicts, edges) && ClashesUpTo(h, wave, edges, i, j)
      {
        ClashesStep(h, wave, edges, i, j);
        if h.hintless(wave[j]) {
          SymmetricStep(wave, conflicts, edges, i, j);
          conflicts := Link(conflicts, wave[i], wave[j]);
          edges := edges + {(i, j)};
        }
      }
      ClashesEnds(h, wave, edges, i);
    }
    ClashesEnds(h, wave, edges, |wave|);
    ConflictMapDone(h, wave, conflicts, edges);
  }

  lemma AnyClashIff(h: Hints, wave: seq<Id>, conflicts: Adj)
    requires IsConflictMap(h, wave, conflicts)
    ensures AnyClash(h, wave) <==> exists x :: x in conflicts && conflicts[x] != {}
  {
    if AnyClash(h, wave) {
      var i, j :| 0 <= i < j < |wave| && Clash(h, wave, i, j);
      assert wave[i] in Elems(wave);
      assert Conflict(h, wave, i, j);
      assert wave[j] in conflicts[wave[i]];
    }
    if x :| x in conflicts && conflicts[x] != {} {
      var y :| y in conflicts[x];
      var i :| 0 <= i < |wave| && wave[i] == x;
      var j :| 0 <= j < |wave| && wave[j] == y;
      assert Conflict(h, wave, i, j);
    }
  }

  // The colours already given to the neighbours of `wave[j]`.
  function Used(wave: seq<Id>, conflicts: Adj, color: seq<nat>): set<nat>
    requires |color| < |wave|
  {
    set i | 0 <= i < |color| && wave[|color|] in conflicts && wave[i] in conflicts[wave[|color|]] :: color[i]
  }

  lemma GreedyStep(h: Hints, wave: seq<Id>, conflicts: Adj, color: seq<nat>, c: nat)
    requires Greedy(h, wave, color) && |color| < |wave| && IsConflictMap(h, wave, conflicts)
    requires c !in Used(wave, conflicts, color)
    requires forall d: nat | d < c :: d in Used(wave, conflicts, color)
    ensures Greedy(h, wave, color + [c])
  {
    hide Clash;
    var j, more := |color|, color + [c];
    assert wave[j] in Elems(wave);
    forall i | 0 <= i < j ensures wave[i] in conflicts[wave[j]] <==> Clash(h, wave, i, j) {
      assert Conflict(h, wave, j, i) == Clash(h, wave, i, j);
    }
    forall k, d: nat | 0 <= k < |more| && d < more[k] ensures Forced(h, wave, more, k, d) {
      if k < j {
        assert Forced(h, wave, color, k, d);
        var i :| 0 <= i < k && Clash(h, wave, i, k) && color[i] == d;
        assert more[i] == d;
      } else {
        assert d in Used(wave, conflicts, color);
        var i :| 0 <= i < j && wave[j] in conflicts && wave[i] in conflicts[wave[j]] && color[i] == d;
        assert more[i] == d;
      }
    }
  }

  // The colouring loop: the lowest colour not used by a conflicting earlier issue.
  method ColorWave(h: Hints, wave: seq<Id>, conflicts: Adj) returns (color: seq<nat>)
    requires IsConflictMap(h, wave, conflicts)
    ensures Greedy(h, wave, color) && |color| == |wave|
  {
    hide IsConflictMap, Used;
    color := [];
    GreedyStart(h, wave);
    for j := 0 to |wave|
      invariant |color| == j && Greedy(h, wave, color)
    {
      var used := Used(wave, conflicts, color);
      var c := 0;
      while c in used
        invariant forall d: nat | d < c :: d in used
        invariant c <= |used|
        decreases |used| - c
      {
        RangeCard(used, c + 1);
        c := c + 1;
      }
      GreedyStep(h, wave, conflicts, color, c);
      color := color + [c];
    }
  }

  lemma GreedyStart(h: Hints, wave: seq<Id>)
    ensures Greedy(h, wave, [])
  {}

  method RefineWave(h: Hints, wave: seq<Id>, parent: nat) returns (subs: seq<seq<Id>>, notes: seq<Option<Note>>)
    requires Distinct(wave)
    ensures WaveRefined(h, wave, parent, subs, notes)
  {
    hide Distinct, SplitBy, AnyClash, IsConflictMap, Greedy, Contended, TwoHintless, SubWave, MaxColor, HintlessIds;
    if |wave| <= 1 {
      NoClashAlone(h, wave);
      return [wave], [None];
    }
    var conflicts, contended := BuildConflicts(h, wave);
    AnyClashIff(h, wave, conflicts);
    if forall x | x in conflicts :: conflicts[x] == {} {
      return [wave], [None];
    }
    var unknown := |HintlessIds(h, wave)| > 1;
    HintlessCount(h, wave);
    var color := ColorWave(h, wave, conflicts);
    var total := MaxColor(color) + 1;
    subs, notes := [], [];
    for c := 0 to total
      invariant |subs| == |notes| == c
      invariant forall d | 0 <= d < c :: subs[d] == SubWave(wave, color, d)
      invariant forall d | 0 <= d < c :: notes[d] == Some(Note(contended, d, total, parent, unknown))
    {
      ColorsContiguous(h, wave, color, c);
      var sub := SubWave(wave, color, c);
      if sub != [] {
        subs := subs + [sub];
        notes := notes + [Some(Note(contended, c, total, parent, unknown))];
      }
    }
    SplitDone(h, wave, color, subs);
  }

  lemma NoClashAlone(h: Hints, wave: seq<Id>)
    requires |wave| <= 1
    ensures !AnyClash(h, wave)
  {}

  lemma SplitDone(h: Hints, wave: seq<Id>, color: seq<nat>, subs: seq<seq<Id>>)
    requires Greedy(h, wave, color) && |color| == |wave| && color != [] && |subs| == MaxColor(color) + 1
    requires forall d | 0 <= d < |subs| :: subs[d] == SubWave(wave, color, d)
    ensures SplitBy(h, wave, color, subs)
  {}

  // ------------------------------------------------------------- all the waves

  ghost predicate IsRefinement(h: Hints, waves: seq<seq<Id>>, refined: seq<seq<Id>>, notes: seq<Option<Note>>)
    decreases |waves|
  {
    && |refined| == |notes|
    && if waves == [] then refined == []
       else
         var last := |waves| - 1;
         exists n :: 0 <= n <= |refined|
           && IsRefinement(h, waves[..last], refined[..n], notes[..n])
           && WaveRefined(h, waves[last], last, refined[n..], notes[n..])
  }

  // `refine_waves_for_contention`: every wave is replaced, in place, by its sub-waves,
  // and the annotations stay parallel.
  method RefineWaves(h: Hints, waves: seq<seq<Id>>) returns (refined: seq<seq<Id>>, notes: seq<Option<Note>>)
    requires forall k | 0 <= k < |waves| :: Distinct(waves[k])
    ensures IsRefinement(h, waves, refined, notes)
  {
    hide Distinct, WaveRefined;
    refined, notes := [], [];
    for k := 0 to |waves|
      invariant IsRefinement(h, waves[..k], refined, notes)
    {
      var subs, subNotes := RefineWave(h, waves[k], k);
      RefinementSnoc(h, waves[..k], waves[k], refined, notes, subs, subNotes);
      assert waves[..k + 1] == waves[..k] + [waves[k]];
      refined, notes := refined + subs, notes + subNotes;
    }
    assert waves[..|waves|] == waves;
  }

  lemma RefinementSnoc(h: Hints, waves: seq<seq<Id>>, wave: seq<Id>, refined: seq<seq<Id>>,
                       notes: seq<Option<Note>>, subs: seq<seq<Id>>, subNotes: seq<Option<Note>>)
    requires IsRefinement(h, waves, refined, notes)
    requires WaveRefined(h, wave, |waves|, subs, subNotes)
    ensures IsRefinement(h, waves + [wave], refined + subs, notes + subNotes)
  {
    hide AnyClash, SplitBy, NotesFor;
    var all, r, m := waves + [wave], refined + subs, notes + subNotes;
    var n := |refined|;
    assert all[..|all| - 1] == waves && all[|all| - 1] == wave;
    assert r[..n] == refined && r[n..] == subs && m[..n] == notes && m[n..] == subNotes;
  }

  lemma WaveRefinedElems(h: Hints, wave: seq<Id>, parent: nat, subs: seq<seq<Id>>, notes: seq<Option<Note>>, x: Id)
    requires WaveRefined(h, wave, parent, subs, notes) && Distinct(wave)
    ensures x in wave <==> exists c :: In(subs, c, x)
  {
    hide SplitBy, Distinct;
    if AnyClash(h, wave) {
      var color :| SplitBy(h, wave, color, subs);
      SubWavesPartition(h, wave, color, subs, x);
      if c :| 0 <= c < |subs| && x in subs[c] { assert In(subs, c, x); }
    } else {
      InOne(wave, x);
    }
  }

  ghost predicate In(waves: seq<seq<Id>>, k: nat, x: Id) {
    k < |waves| && x in waves[k]
  }

  // Refinement loses and invents nothing.
  lemma {:induction false} RefinementKeepsIssues(h: Hints, waves: seq<seq<Id>>, refined: seq<seq<Id>>,
                                                 notes: seq<Option<Note>>, x: Id)
    requires IsRefinement(h, waves, refined, notes)
    requires forall k | 0 <= k < |waves| :: Distinct(waves[k])
    ensures (exists k :: In(waves, k, x)) <==> (exists k :: In(refined, k, x))
    decreases |waves|
  {
    hide WaveRefined, Distinct;
    if waves != [] {
      var last := |waves| - 1;
      var n :| 0 <= n <= |refined|
        && IsRefinement(h, waves[..last], refined[..n], notes[..n])
        && WaveRefined(h, waves[last], last, refined[n..], notes[n..]);
      RefinementKeepsIssues(h, waves[..last], refined[..n], notes[..n], x);
      WaveRefinedElems(h, waves[last], last, refined[n..], notes[n..], x);
      InSplit(waves, last, x);
      InSplit(refined, n, x);
      InOne(waves[last], x);
      assert waves[last..] == [waves[last]];
    }
  }

  lemma InOne(wave: seq<Id>, x: Id)
    ensures (exists k :: In([wave], k, x)) <==> x in wave
  {
    if x in wave { assert In([wave], 0, x); }
  }

  lemma InSplit(waves: seq<seq<Id>>, n: nat, x: Id)
    requires n <= |waves|
    ensures (exists k :: In(waves, k, x)) <==>
            (exists k :: In(waves[..n], k, x)) || (exists k :: In(waves[n..], k, x))
  {
    if k: nat :| In(waves, k, x) {
      if k < n { assert In(waves[..n], k, x); } else { assert In(waves[n..], k - n, x); }
    }
    if k: nat :| In(waves[..n], k, x) { assert In(waves, k, x); }
    if k: nat :| In(waves[n..], k, x) { assert In(waves, k + n, x); }
  }

  // Issues of an earlier wave stay strictly earlier after the refinement.
  lemma {:induction false} RefinementKeepsOrder(h: Hints, waves: seq<seq<Id>>, refined: seq<seq<Id>>,
      notes: seq<Option<Note>>, a: Id, k: nat, b: Id, m: nat, x: nat, y: nat)
    requires IsRefinement(h, waves, refined, notes)
    requires forall i | 0 <= i < |waves| :: Distinct(waves[i])
    requires forall i, j, v | In(waves, i, v) && In(waves, j, v) :: i == j
    requires In(waves, k, a) && In(waves, m, b) && m < k
    requires In(refined, x, a) && In(refined, y, b)
    ensures y < x
    decreases |waves|
  {
    hide WaveRefined, Distinct;
    var last := |waves| - 1;
    var n :| 0 <= n <= |refined|
      && IsRefinement(h, waves[..last], refined[..n], notes[..n])
      && WaveRefined(h, waves[last], last, refined[n..], notes[n..]);
    var early := waves[..last];
    forall i, v | In(early, i, v) ensures In(waves, i, v) {}
    WhichPart(h, waves, refined, notes, n, a, k, x);
    WhichPart(h, waves, refined, notes, n, b, m, y);
    if k < last {
      assert In(early, k, a) && In(early, m, b) && In(refined[..n], x, a) && In(refined[..n], y, b);
      RefinementKeepsOrder(h, early, refined[..n], notes[..n], a, k, b, m, x, y);
    }
  }

  lemma WhichPart(h: Hints, waves: seq<seq<Id>>, refined: seq<seq<Id>>, notes: seq<Option<Note>>,
                  n: nat, a: Id, k: nat, x: nat)
    requires waves != [] && n <= |refined| == |notes|
    requires forall i | 0 <= i < |waves| :: Distinct(waves[i])
    requires forall i, j, v | In(waves, i, v) && In(waves, j, v) :: i == j
    requires IsRefinement(h, waves[..|waves| - 1], refined[..n], notes[..n])
    requires WaveRefined(h, waves[|waves| - 1], |waves| - 1, refined[n..], notes[n..])
    requires In(waves, k, a) && In(refined, x, a)
    ensures x < n <==> k < |waves| - 1
  {
    hide WaveRefined, IsRefinement, Distinct;
    var last := |waves| - 1;
    if x < n {
      assert In(refined[..n], x, a);
      RefinementKeepsIssues(h, waves[..last], refined[..n], notes[..n], a);
      var i :| In(waves[..last], i, a);
      assert In(waves, i, a);
    } else {
      assert In(refined[n..], x - n, a);
      WaveRefinedElems(h, waves[last], last, refined[n..], notes[n..], a);
      assert In(waves, last, a);
    }
  }

  // The refined schedule of a graph: every prerequisite still runs in a strictly
  // earlier sub-wave than the issue that needs it.
  lemma RefinedScheduleRespectsPrerequisites(g: Graph, c: set<Id>, h: Hints, refined: seq<seq<Id>>,
      notes: seq<Option<Note>>, v: Id, w: Id, x: nat, y: nat)
    requires g.Wf() && IsRefinement(h, g.Waves(c), refined, notes)
    requires v in g.pre && w in g.pre[v]
    requires In(refined, x, v) && In(refined, y, w)
    ensures y < x
  {
    hide *;
    var waves := g.Waves(c);
    WavesDistinct(g, c);
    RefinementKeepsIssues(h, waves, refined, notes, v);
    RefinementKeepsIssues(h, waves, refined, notes, w);
    var k :| In(waves, k, v);
    var m :| In(waves, m, w);
    PrerequisiteWaveEarlier(g, c, v, w, k, m);
    RefinementKeepsOrder(h, waves, refined, notes, v, k, w, m, x, y);
  }

  lemma WavesDistinct(g: Graph, c: set<Id>)
    requires g.Wf()
    ensures forall k | 0 <= k < |g.Waves(c)| :: Distinct(g.Waves(c)[k])
    ensures forall i, j, v | In(g.Waves(c), i, v) && In(g.Waves(c), j, v) :: i == j
  {
    hide Graph.Waves, Graph.Wf, Distinct, Graph.Rank, Sorted, LongestChain;
    forall k | 0 <= k < |g.Waves(c)| ensures Distinct(g.Waves(c)[k]) {
      WaveAt(g, c, k);
    }
    forall i, j, v | In(g.Waves(c), i, v) && In(g.Waves(c), j, v) ensures i == j {
      assert InWave(g.Waves(c), v, i) && InWave(g.Waves(c), v, j);
      InWaveChain(g, c, v, i);
      InWaveChain(g, c, v, j);
      LongestChainUnique(g.pre, g.pre.Keys - c, v, i, j);
    }
  }

  lemma PrerequisiteWaveEarlier(g: Graph, c: set<Id>, v: Id, w: Id, k: nat, m: nat)
    requires g.Wf() && v in g.pre && w in g.pre[v]
    requires In(g.Waves(c), k, v) && In(g.Waves(c), m, w)
    ensures m < k
  {
    hide Graph.Waves, Graph.Wf, Graph.Done;
    assert InWave(g.Waves(c), v, k) && InWave(g.Waves(c), w, m);
    InWaveIsStage(g, c, v, k);
    InWaveIsStage(g, c, w, m);
    if k <= m { DoneMonotone(g, c, k, m); }
  }
}
