/** The worklist of `dim_e1`: whether a commit state can loop back to `propose` without
    passing a diagnose state. */
module RubricCheck {

  // The targets an FSM state names, in the order of EDGE_KEYS and then of its route table.
  datatype State = State(targets: seq<string>)

  type Graph = map<string, State>

  datatype Verdict = Fail | Partial(offCycle: seq<string>) | Pass

  const PROPOSE := "propose"

  // Targets that are not states are dropped.
  function Known(states: Graph, targets: seq<string>): (r: seq<string>)
    ensures forall e :: e in r <==> e in targets && e in states
  {
    if targets == [] then []
    else (if targets[0] in states then [targets[0]] else []) + Known(states, targets[1..])
  }

  function Edges(states: Graph, name: string): seq<string> {
    if name in states then Known(states, states[name].targets) else []
  }

  // A path of at least one step from `a` to `b`.
  ghost predicate IsPath(states: Graph, p: seq<string>, a: string, b: string) {
    && |p| >= 2 && p[0] == a && p[|p| - 1] == b
    && forall i | 0 <= i < |p| - 1 :: p[i + 1] in Edges(states, p[i])
  }

  // Every node after the start, except perhaps the last, is outside `diag`.
  ghost predicate Arrives(states: Graph, diag: set<string>, p: seq<string>, a: string, b: string) {
    IsPath(states, p, a, b) && forall i | 1 <= i < |p| - 1 :: p[i] !in diag
  }

  ghost predicate Reaches(states: Graph, diag: set<string>, a: string, b: string) {
    exists p :: Arrives(states, diag, p, a, b)
  }

  // `propose` is reachable from `cs` along nodes that are all outside `diag`.
  ghost predicate Bypasses(states: Graph, diag: set<string>, cs: string) {
    exists p :: IsPath(states, p, cs, PROPOSE) && forall i | 1 <= i < |p| :: p[i] !in diag
  }

  // A bypass is a list of states from `cs` to `propose`, each a target of the one before, none
  // of them after the start a diagnose state.
  lemma PathBypasses(states: Graph, diag: set<string>, cs: string, p: seq<string>)
    requires |p| >= 2 && p[0] == cs && p[|p| - 1] == "propose"
    requires forall i | 0 <= i < |p| :: p[i] in states
    requires forall i | 0 <= i < |p| - 1 :: p[i + 1] in states[p[i]].targets
    requires forall i | 1 <= i < |p| :: p[i] !in diag
    ensures Bypasses(states, diag, cs)
  {
    assert IsPath(states, p, cs, PROPOSE);
  }

  lemma BypassPath(states: Graph, diag: set<string>, cs: string) returns (p: seq<string>)
    requires Bypasses(states, diag, cs)
    ensures |p| >= 2 && p[0] == cs && p[|p| - 1] == "propose"
    ensures forall i | 0 <= i < |p| :: p[i] in states
    ensures forall i | 0 <= i < |p| - 1 :: p[i + 1] in states[p[i]].targets
    ensures forall i | 1 <= i < |p| :: p[i] !in diag
  {
    p :| IsPath(states, p, cs, PROPOSE) && forall i | 1 <= i < |p| :: p[i] !in diag;
    forall i | 0 <= i < |p| ensures p[i] in states {
      if i > 0 { assert p[i - 1 + 1] in Edges(states, p[i - 1]); } else { assert p[1] in Edges(states, p[0]); }
    }
  }

  lemma FirstStep(states: Graph, diag: set<string>, cs: string)
    ensures forall e | e in Edges(states, cs) :: Reaches(states, diag, cs, e)
  {
    forall e | e in Edges(states, cs) ensures Reaches(states, diag, cs, e) {
      assert Arrives(states, diag, [cs, e], cs, e);
    }
  }

  lemma NextStep(states: Graph, diag: set<string>, cs: string, x: string)
    requires Reaches(states, diag, cs, x) && x !in diag
    ensures forall e | e in Edges(states, x) :: Reaches(states, diag, cs, e)
  {
    var p :| Arrives(states, diag, p, cs, x);
    forall e | e in Edges(states, x) ensures Reaches(states, diag, cs, e) {
      assert Arrives(states, diag, p + [e], cs, e);
    }
  }

  lemma Found(states: Graph, diag: set<string>, cs: string)
    requires Reaches(states, diag, cs, PROPOSE) && PROPOSE !in diag
    ensures Bypasses(states, diag, cs)
  {
    var p :| Arrives(states, diag, p, cs, PROPOSE);
    assert forall i | 1 <= i < |p| :: p[i] !in diag;
  }

  // A set that holds the first steps and is closed outside `diag`, without `propose` outside it.
  ghost predicate Closed(states: Graph, diag: set<string>, cs: string, seen: set<string>) {
    && (forall e | e in Edges(states, cs) :: e in seen)
    && (forall x | x in seen && x !in diag :: x != PROPOSE)
    && (forall x, e | x in seen && x !in diag && e in Edges(states, x) :: e in seen)
  }

  lemma {:induction false} StaysInside(states: Graph, diag: set<string>, cs: string, seen: set<string>,
                                       p: seq<string>, b: string, n: nat)
    requires Closed(states, diag, cs, seen) && IsPath(states, p, cs, b) && 1 <= n < |p|
    requires forall i | 1 <= i < |p| :: p[i] !in diag
    ensures p[n] in seen
  {
    if n > 1 {
      StaysInside(states, diag, cs, seen, p, b, n - 1);
    }
    assert p[n - 1 + 1] in Edges(states, p[n - 1]);
  }

  lemma ClosedMeansNoBypass(states: Graph, diag: set<string>, cs: string, seen: set<string>)
    requires Closed(states, diag, cs, seen)
    ensures !Bypasses(states, diag, cs)
  {
    forall p | IsPath(states, p, cs, PROPOSE) ensures exists i :: 1 <= i < |p| && p[i] in diag {
      if forall i | 1 <= i < |p| :: p[i] !in diag {
        StaysInside(states, diag, cs, seen, p, PROPOSE, |p| - 1);
        assert false;
      }
    }
  }

  // What the worklist knows: everything met is reachable, and everything reachable is met
  // or still waiting.
  ghost predicate Exploring(states: Graph, diag: set<string>, cs: string, seen: set<string>, frontier: seq<string>) {
    && (forall x | x in seen || x in frontier :: x in states && Reaches(states, diag, cs, x))
    && (forall e | e in Edges(states, cs) :: e in seen || e in frontier)
    && (forall x | x in seen && x !in diag :: x != PROPOSE)
    && (forall x, e | x in seen && x !in diag && e in Edges(states, x) :: e in seen || e in frontier)
  }

  lemma ExploringStart(states: Graph, diag: set<string>, cs: string)
    ensures Exploring(states, diag, cs, {}, Edges(states, cs))
  {
    hide Reaches;
    FirstStep(states, diag, cs);
  }

  // The last entry is dropped when it was seen or lies in `diag`, and expanded otherwise.
  lemma ExploringStep(states: Graph, diag: set<string>, cs: string, seen: set<string>, frontier: seq<string>,
                      next: string)
    requires Exploring(states, diag, cs, seen, frontier + [next])
    ensures next in states && Reaches(states, diag, cs, next)
    ensures next in seen ==> Exploring(states, diag, cs, seen, frontier)
    ensures next in diag ==> Exploring(states, diag, cs, seen + {next}, frontier)
    ensures next !in diag && next != PROPOSE
        ==> Exploring(states, diag, cs, seen + {next}, frontier + Edges(states, next))
  {
    hide Reaches, Edges;
    assert next in frontier + [next];
    assert forall x :: x in frontier + [next] <==> x in frontier || x == next;
    EdgesKnown(states, next);
    if next !in diag {
      NextStep(states, diag, cs, next);
      assert forall x :: x in frontier + Edges(states, next) <==> x in frontier || x in Edges(states, next);
    }
  }

  lemma EdgesKnown(states: Graph, name: string)
    ensures forall e | e in Edges(states, name) :: e in states
  {}

  lemma ExploringEnd(states: Graph, diag: set<string>, cs: string, seen: set<string>)
    requires Exploring(states, diag, cs, seen, [])
    ensures !Bypasses(states, diag, cs)
  {
    hide Reaches, Edges;
    ClosedMeansNoBypass(states, diag, cs, seen);
  }

  // One commit state: depth-first, popping from the end, never expanding past `diag`.
  method LoopsBackUndiagnosed(states: Graph, diag: set<string>, cs: string) returns (flag: bool)
    ensures flag <==> Bypasses(states, diag, cs)
  {
    hide Exploring, Edges, Reaches, Bypasses;
    var seen: set<string> := {};
    var frontier := Edges(states, cs);
    ExploringStart(states, diag, cs);
    while frontier != []
      invariant Exploring(states, diag, cs, seen, frontier)
      decreases states.Keys - seen, |frontier|
    {
      var next := frontier[|frontier| - 1];
      ghost var before := frontier;
      frontier := frontier[..|frontier| - 1];
      assert before == frontier + [next];
      ExploringStep(states, diag, cs, seen, frontier, next);
      if next in seen {
        continue;
      }
      seen := seen + {next};
      if next in diag {
        continue;
      }
      if next == PROPOSE {
        Found(states, diag, cs);
        return true;
      }
      frontier := frontier + Edges(states, next);
    }
    ExploringEnd(states, diag, cs, seen);
    return false;
  }

  // The commit states that bypass `diag`, in order.
  ghost function Flagged(states: Graph, diag: set<string>, commits: seq<string>): (r: seq<string>)
    ensures forall cs :: cs in r <==> cs in commits && Bypasses(states, diag, cs)
  {
    if commits == [] then []
    else
      var n := |commits| - 1;
      assert commits == commits[..n] + [commits[n]];
      Flagged(states, diag, commits[..n]) + (if Bypasses(states, diag, commits[n]) then [commits[n]] else [])
  }

  lemma FlaggedSnoc(states: Graph, diag: set<string>, commits: seq<string>, cs: string)
    ensures Flagged(states, diag, []) == []
    ensures Flagged(states, diag, commits + [cs])
         == Flagged(states, diag, commits) + (if Bypasses(states, diag, cs) then [cs] else [])
  {
    assert (commits + [cs])[..|commits|] == commits;
  }

  // `diag` and `commits` are the states whose names or actions match; both come from the graph.
  method DimE1(states: Graph, diag: set<string>, commits: seq<string>) returns (verdict: Verdict)
    ensures verdict.Fail? <==> diag == {}
    ensures verdict.Pass? <==> diag != {} && forall cs | cs in commits :: !Bypasses(states, diag, cs)
    ensures verdict.Partial? ==> verdict.offCycle == Flagged(states, diag, commits)
  {
    if diag == {} {
      return Fail;
    }
    var offCycle: seq<string> := [];
    for i := 0 to |commits|
      invariant offCycle == Flagged(states, diag, commits[..i])
    {
      assert commits[..i + 1][..i] == commits[..i];
      var flag := LoopsBackUndiagnosed(states, diag, commits[i]);
      if flag {
        offCycle := offCycle + [commits[i]];
      }
    }
    assert commits[..|commits|] == commits;
    if offCycle != [] {
      assert offCycle[0] in Flagged(states, diag, commits);
      return Partial(offCycle);
    }
    forall cs | cs in commits ensures !Bypasses(states, diag, cs) {
      assert cs !in Flagged(states, diag, commits);
    }
    return Pass;
  }
}
