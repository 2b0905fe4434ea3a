/** The scheduling decisions of `AutoManager` as a step system: which issue is selected in
    a given state, what an attempt does to the state, and what holds of every run. */
module RunLoop {
  import opened Basics
  import opened Ordering
  import opened Digraph
  import opened Schedule

  // The flags of `IssueProcessingResult` that the run loop reads.
  datatype Outcome = Outcome(success: bool, wasClosed: bool, wasBlocked: bool, planCreated: bool, failureReason: string)

  // How an attempt ends: with a result, killed by its timeout (the issue file then says
  // whether it was already finished), or with an exception that escapes.
  datatype Attempt = Returned(outcome: Outcome) | TimedOut(finished: bool, idle: bool, seconds: string) | Raised

  datatype Verdict = Completed | Skipped | Failed | Unrecorded

  function Settle(a: Attempt): Outcome
    requires !a.Raised?
  {
    match a
    case Returned(o) => o
    case TimedOut(finished, idle, seconds) =>
      if finished then Outcome(true, false, false, false, "")
      else Outcome(false, false, false, false, KillReason(idle, seconds))
  }

  function KillReason(idle: bool, seconds: string): string {
    (if idle then "idle timeout" else "timeout") + " after " + seconds + "s"
  }

  // The `if/elif` chain that maps a result to the state manager.
  function Judge(o: Outcome): Verdict {
    if o.wasClosed then Completed
    else if o.wasBlocked then Skipped
    else if o.success then Completed
    else if o.planCreated then Skipped
    else if o.failureReason != "" then Failed
    else Unrecorded
  }

  // What `process_issue_inplace` guarantees of its flags.
  predicate Coherent(a: Attempt) {
    a.Returned? ==> (a.outcome.wasClosed ==> a.outcome.success) && (a.outcome.wasBlocked ==> !a.outcome.success)
  }

  datatype State = State(completed: seq<Id>, failed: set<Id>, skipped: set<Id>, attempted: set<Id>, processed: int)

  const FRESH := State([], {}, {}, {}, 0)

  // `passes` is the conjunction of the only/type/priority/label filters; `rank` is the
  // position of the first matching pattern when `only_ids` is a list, and constant otherwise.
  datatype Config = Config(maxIssues: int, skipIds: set<Id>, passes: Id -> bool, rank: Id -> nat) {
    function RankLeq(): (Id, Id) -> bool {
      (a, b) => rank(a) <= rank(b)
    }
  }

  predicate Eligible(cfg: Config, s: State, v: Id) {
    v !in s.attempted && v !in cfg.skipIds && cfg.passes(v)
  }

  function Filter(cfg: Config, s: State, ready: seq<Id>): seq<Id> {
    if ready == [] then []
    else (if Eligible(cfg, s, ready[0]) then [ready[0]] else []) + Filter(cfg, s, ready[1..])
  }

  // `_get_next_issue`
  function Next(g: Graph, cfg: Config, s: State): Option<Id> {
    var candidates := Filter(cfg, s, g.Wave(Elems(s.completed)));
    if candidates == [] then None else First(Sort(candidates, cfg.RankLeq()))
  }

  function First(s: seq<Id>): Option<Id> {
    if s == [] then None else Some(s[0])
  }

  predicate LimitReached(cfg: Config, s: State) {
    cfg.maxIssues > 0 && s.processed >= cfg.maxIssues
  }

  datatype Event = Event(id: Id, attempt: Attempt)

  // `_process_issue` followed by the counter update in `run`.
  function Apply(s: State, e: Event): State {
    var s1 := s.(attempted := s.attempted + {e.id});
    if e.attempt.Raised? then s1
    else
      var o := Settle(e.attempt);
      var s2 := match Judge(o)
        case Completed => s1.(completed := s1.completed + [e.id])
        case Skipped => s1.(skipped := s1.skipped + {e.id})
        case Failed => s1.(failed := s1.failed + {e.id})
        case Unrecorded => s1;
      s2.(processed := s2.processed + if o.success then 1 else 0)
  }

  function After(s: State, trace: seq<Event>): State {
    if trace == [] then s
    else Apply(After(s, trace[..|trace| - 1]), trace[|trace| - 1])
  }

  ghost predicate Selected(g: Graph, cfg: Config, s0: State, trace: seq<Event>, i: nat)
    requires i < |trace|
  {
    var s := After(s0, trace[..i]);
    !LimitReached(cfg, s) && Next(g, cfg, s) == Some(trace[i].id)
  }

  // A run: every event is the selection made in the state the earlier events left, and
  // an escaping exception ends it.
  ghost predicate IsRun(g: Graph, cfg: Config, s0: State, trace: seq<Event>) {
    forall i | 0 <= i < |trace| ::
      Selected(g, cfg, s0, trace, i) && (trace[i].attempt.Raised? ==> i == |trace| - 1)
  }

  predicate Finishes(a: Attempt) {
    !a.Raised? && Judge(Settle(a)).Completed?
  }

  predicate Finished(e: Event) {
    Finishes(e.attempt)
  }

  // An attempt completes its issue when the result says closed, or success without blocked, or
  // when the issue was already finished at its timeout.
  lemma FinishesMeans(a: Attempt)
    ensures Finishes(a) <==>
      || (a.TimedOut? && a.finished)
      || (a.Returned? && (a.outcome.wasClosed || (!a.outcome.wasBlocked && a.outcome.success)))
  {}

  // ------------------------------------------------------------------ selection

  lemma {:induction false} FilterElems(cfg: Config, s: State, ready: seq<Id>)
    ensures forall v :: v in Filter(cfg, s, ready) <==> v in ready && Eligible(cfg, s, v)
  {
    if ready != [] {
      FilterElems(cfg, s, ready[1..]);
      assert ready == [ready[0]] + ready[1..];
    }
  }

  lemma FilterEnds(cfg: Config, s: State, ready: seq<Id>)
    ensures Filter(cfg, s, ready[..0]) == [] && ready[..|ready|] == ready
  {}

  lemma FilterSnoc(cfg: Config, s: State, ready: seq<Id>, i: nat)
    requires i < |ready|
    ensures Filter(cfg, s, ready[..i + 1]) ==
      if Eligible(cfg, s, ready[i]) then Filter(cfg, s, ready[..i]) + [ready[i]] else Filter(cfg, s, ready[..i])
  {
    hide Eligible, Filter;
    FilterSingle(cfg, s, ready[i]);
    FilterAppend(cfg, s, ready[..i], [ready[i]]);
    assert ready[..i + 1] == ready[..i] + [ready[i]];
    assert Filter(cfg, s, ready[..i]) + [] == Filter(cfg, s, ready[..i]);
  }

  lemma FilterSingle(cfg: Config, s: State, v: Id)
    ensures Filter(cfg, s, [v]) == if Eligible(cfg, s, v) then [v] else []
  {
    assert [v][1..] == [];
  }

  lemma {:induction false} FilterAppend(cfg: Config, s: State, a: seq<Id>, b: seq<Id>)
    ensures Filter(cfg, s, a + b) == Filter(cfg, s, a) + Filter(cfg, s, b)
  {
    hide Eligible;
    if a == [] {
      assert a + b == b;
    } else {
      assert (a + b)[1..] == a[1..] + b;
      FilterAppend(cfg, s, a[1..], b);
    }
  }

  // A stable sort by rank puts the first of the least-ranked elements in front.
  lemma {:induction false} SortFirst(s: seq<Id>, cfg: Config) returns (i: nat)
    requires s != []
    ensures i < |s| && Sort(s, cfg.RankLeq()) != [] && Sort(s, cfg.RankLeq())[0] == s[i]
    ensures forall j | 0 <= j < |s| :: cfg.rank(s[i]) <= cfg.rank(s[j])
    ensures forall j | 0 <= j < i :: cfg.rank(s[i]) < cfg.rank(s[j])
  {
    i := 0;
    if |s| > 1 {
      var k := SortFirst(s[1..], cfg);
      assert forall j | 1 <= j < |s| :: s[j] == s[1..][j - 1];
      if cfg.rank(s[0]) > cfg.rank(s[1..][k]) {
        i := k + 1;
      }
    }
  }

  lemma {:induction false} FilterSorted(cfg: Config, s: State, ready: seq<Id>, leq: (Id, Id) -> bool)
    requires Sorted(ready, leq)
    ensures Sorted(Filter(cfg, s, ready), leq)
  {
    hide Eligible;
    if ready != [] {
      FilterSorted(cfg, s, ready[1..], leq);
      FilterElems(cfg, s, ready[1..]);
      var rest := Filter(cfg, s, ready[1..]);
      forall x | x in rest ensures leq(ready[0], x) {
        var j :| 0 <= j < |ready[1..]| && ready[1..][j] == x;
        assert ready[j + 1] == x;
      }
    }
  }

  // The position in a requested id list decides, and among equals (priority, id).
  predicate Precedes(g: Graph, cfg: Config, v: Id, w: Id) {
    cfg.rank(v) < cfg.rank(w) || (cfg.rank(v) == cfg.rank(w) && g.Rank()(v, w))
  }

  lemma SelectionSound(g: Graph, cfg: Config, s: State)
    requires g.Wf()
    ensures Next(g, cfg, s).Some? ==>
      var v := Next(g, cfg, s).value; v in g.Ready(Elems(s.completed)) && Eligible(cfg, s, v)
    ensures Next(g, cfg, s).None? ==>
      forall v | v in g.Ready(Elems(s.completed)) :: !Eligible(cfg, s, v)
    ensures Next(g, cfg, s).Some? ==>
      forall w | w in g.Ready(Elems(s.completed)) && Eligible(cfg, s, w) :: Precedes(g, cfg, Next(g, cfg, s).value, w)
  {
    hide Sort, Graph.Ready, Graph.Wf, Graph.Wave, Graph.Rank, Eligible, Filter, Sorted;
    var ready := g.Wave(Elems(s.completed));
    WaveKnown(g, Elems(s.completed));
    ReadySorted(g, Elems(s.completed));
    FilterElems(cfg, s, ready);
    FilterSorted(cfg, s, ready, g.Rank());
    var candidates := Filter(cfg, s, ready);
    assert forall v :: v in ready <==> v in Elems(ready);
    if candidates != [] {
      var i := SortFirst(candidates, cfg);
      FirstPrecedes(g, cfg, candidates, i);
    } else {
      assert forall v :: v !in candidates;
    }
  }

  lemma ReadySorted(g: Graph, done: set<Id>)
    requires g.Wf()
    ensures Sorted(g.Wave(done), g.Rank())
  {
    BatchElems(g, g.Ready(done));
  }

  lemma FirstPrecedes(g: Graph, cfg: Config, s: seq<Id>, i: nat)
    requires i < |s| && Sorted(s, g.Rank())
    requires forall j | 0 <= j < |s| :: cfg.rank(s[i]) <= cfg.rank(s[j])
    requires forall j | 0 <= j < i :: cfg.rank(s[i]) < cfg.rank(s[j])
    ensures forall w | w in s :: Precedes(g, cfg, s[i], w)
  {
    hide Graph.Rank;
    RankTotal(g);
    var rank := g.Rank();
    forall w | w in s ensures Precedes(g, cfg, s[i], w) {
      var j :| 0 <= j < |s| && s[j] == w;
      assert i <= j ==> rank(s[i], s[j]);
    }
  }

  // ------------------------------------------------------------------ states of a run

  lemma Prefixes(s0: State, trace: seq<Event>, i: nat)
    requires i < |trace|
    ensures After(s0, trace[..i + 1]) == Apply(After(s0, trace[..i]), trace[i])
  {
    assert trace[..i + 1][..i] == trace[..i];
  }

  ghost predicate AttemptedBy(s0: State, trace: seq<Event>, n: nat, v: Id)
    requires n <= |trace|
  {
    v in s0.attempted || exists k :: 0 <= k < n && trace[k].id == v
  }

  ghost predicate CompletedBy(s0: State, trace: seq<Event>, n: nat, v: Id)
    requires n <= |trace|
  {
    v in s0.completed || exists k :: 0 <= k < n && trace[k].id == v && Finished(trace[k])
  }

  lemma {:induction false} StateIs(s0: State, trace: seq<Event>, n: nat, v: Id)
    requires n <= |trace|
    ensures v in After(s0, trace[..n]).attempted <==> AttemptedBy(s0, trace, n, v)
    ensures v in After(s0, trace[..n]).completed <==> CompletedBy(s0, trace, n, v)
  {
    hide Apply, Finished;
    if n > 0 {
      StateIs(s0, trace, n - 1, v);
      Prefixes(s0, trace, n - 1);
      ApplyIs(After(s0, trace[..n - 1]), trace[n - 1], v);
    }
  }

  lemma ApplyIs(s: State, e: Event, v: Id)
    ensures v in Apply(s, e).attempted <==> v in s.attempted || v == e.id
    ensures v in Apply(s, e).completed <==> v in s.completed || (v == e.id && Finished(e))
  {
    hide Settle, Judge;
  }

  // A selected issue is new, open, passes the filters and has every prerequisite completed.
  lemma SelectedMeans(g: Graph, cfg: Config, s0: State, trace: seq<Event>, i: nat)
    requires g.Wf() && IsRun(g, cfg, s0, trace) && i < |trace|
    ensures var v := trace[i].id;
      && v in g.pre && !CompletedBy(s0, trace, i, v) && !AttemptedBy(s0, trace, i, v)
      && v !in cfg.skipIds && cfg.passes(v)
      && forall w | w in g.pre[v] :: CompletedBy(s0, trace, i, w)
  {
    hide AttemptedBy, CompletedBy, Next, Graph.Wf;
    var v, s := trace[i].id, After(s0, trace[..i]);
    SelectionSound(g, cfg, s);
    StateIs(s0, trace, i, v);
    forall w | w in g.pre[v] ensures CompletedBy(s0, trace, i, w) {
      StateIs(s0, trace, i, w);
    }
  }

  // No issue is attempted twice, nor again after a resumed run already attempted it.
  lemma NoIssueTwice(g: Graph, cfg: Config, s0: State, trace: seq<Event>)
    requires g.Wf() && IsRun(g, cfg, s0, trace)
    ensures forall i | 0 <= i < |trace| :: trace[i].id in g.pre && trace[i].id !in s0.attempted
    ensures forall i, j | 0 <= i < j < |trace| :: trace[i].id != trace[j].id
  {
    hide IsRun, Graph.Wf;
    forall j | 0 <= j < |trace|
      ensures trace[j].id in g.pre && trace[j].id !in s0.attempted
      ensures forall i | 0 <= i < j :: trace[i].id != trace[j].id
    {
      SelectedMeans(g, cfg, s0, trace, j);
    }
  }

  ghost function Ids(trace: seq<Event>): seq<Id> {
    seq(|trace|, i requires 0 <= i < |trace| => trace[i].id)
  }

  // The loop runs at most once per issue of the graph that was not attempted before.
  lemma RunIsBounded(g: Graph, cfg: Config, s0: State, trace: seq<Event>)
    requires g.Wf() && IsRun(g, cfg, s0, trace)
    ensures |trace| <= |g.pre.Keys - s0.attempted|
  {
    hide IsRun, Graph.Wf;
    NoIssueTwice(g, cfg, s0, trace);
    DistinctCard(Ids(trace));
    SubsetCard(Elems(Ids(trace)), g.pre.Keys - s0.attempted);
  }

  // An attempt that did not finish its issue leaves it open for the rest of the run.
  lemma UnfinishedStaysOpen(g: Graph, cfg: Config, s0: State, trace: seq<Event>, i: nat, n: nat)
    requires g.Wf() && IsRun(g, cfg, s0, trace) && i < n <= |trace| && !Finished(trace[i])
    ensures !CompletedBy(s0, trace, n, trace[i].id)
  {
    hide IsRun, Graph.Wf, Finished;
    NoIssueTwice(g, cfg, s0, trace);
    SelectedMeans(g, cfg, s0, trace, i);
  }

  lemma {:induction false} ChainCompleted(g: Graph, cfg: Config, s0: State, trace: seq<Event>, j: nat, p: seq<Id>)
    requires g.Wf() && IsRun(g, cfg, s0, trace) && j < |trace|
    requires IsWalk(g.pre, p) && p[0] == trace[j].id && |p| > 1
    requires forall m | 0 < m < |p| - 1 :: p[m] !in s0.completed
    ensures CompletedBy(s0, trace, j, p[|p| - 1])
    decreases |p|
  {
    hide IsRun, Graph.Wf, Finished;
    SelectedMeans(g, cfg, s0, trace, j);
    assert p[1] in g.pre[p[0]];
    if |p| > 2 {
      assert p[1] !in s0.completed;
      var k :| 0 <= k < j && trace[k].id == p[1] && Finished(trace[k]);
      SliceWalk(g.pre, p, 1, |p|);
      forall m | 0 < m < |p[1..]| - 1 ensures p[1..][m] !in s0.completed {
        assert p[1..][m] == p[m + 1];
      }
      ChainCompleted(g, cfg, s0, trace, k, p[1..]);
    }
  }

  // Once an attempt ended failed, skipped, plan-pending or unrecorded, nothing that
  // depends on the issue, directly or through a chain of issues that were still open
  // when the run began, is selected later.
  lemma NoDependentOfUnfinished(g: Graph, cfg: Config, s0: State, trace: seq<Event>, i: nat, j: nat, p: seq<Id>)
    requires g.Wf() && IsRun(g, cfg, s0, trace) && i < j < |trace| && !Finished(trace[i])
    requires forall m | 0 < m < |p| - 1 :: p[m] !in s0.completed
    ensures !Walks(g.pre, p, trace[j].id, trace[i].id)
  {
    hide IsRun, Graph.Wf, Finished, CompletedBy, IsWalk;
    NoIssueTwice(g, cfg, s0, trace);
    UnfinishedStaysOpen(g, cfg, s0, trace, i, j);
    if Walks(g.pre, p, trace[j].id, trace[i].id) {
      WalkLength(g.pre, p);
      ChainCompleted(g, cfg, s0, trace, j, p);
    }
  }

  // C depends on B and B on A.  B was completed in an earlier run.
  const RESUMED := Graph(["A", "B", "C"], map["A" := 0, "B" := 1, "C" := 2],
                         map["A" := {}, "B" := {"A"}, "C" := {"B"}])

  const OPEN := Config(0, {}, _ => true, _ => 0)

  // On a resumed run the chain may run through an issue completed before: A fails, and C,
  // which depends on it through B, is selected all the same.
  lemma ResumedChainBroken()
    ensures var s0 := State(["B"], {}, {}, {"B"}, 1);
      var trace := [Event("A", Returned(Outcome(false, false, false, false, "failed"))),
                    Event("C", Returned(Outcome(true, false, false, false, "")))];
      && RESUMED.Wf() && IsRun(RESUMED, OPEN, s0, trace)
      && !Finished(trace[0]) && Walks(RESUMED.pre, ["C", "B", "A"], trace[1].id, trace[0].id)
  {
    hide Next, Graph.Rank;
    var s0 := State(["B"], {}, {}, {"B"}, 1);
    var a, c := Event("A", Returned(Outcome(false, false, false, false, "failed"))),
                Event("C", Returned(Outcome(true, false, false, false, "")));
    var s1 := Apply(s0, a);
    ResumedShape();
    SelectionSound(RESUMED, OPEN, s0);
    SelectionSound(RESUMED, OPEN, s1);
    ResumedReady(s0, s1);
    var trace := [a, c];
    assert trace[..0] == [] && trace[..1] == [a] && [a][..0] == [];
  }

  lemma ResumedShape()
    ensures RESUMED.Wf() && RESUMED.Rank()("A", "C") && !RESUMED.Rank()("C", "A")
  {
    assert "A"[0] != "B"[0] && "A"[0] != "C"[0] && "B"[0] != "C"[0];
    assert RESUMED.Prio("A") == 0 && RESUMED.Prio("C") == 2;
  }

  lemma ResumedReady(s0: State, s1: State)
    requires s0 == State(["B"], {}, {}, {"B"}, 1)
    requires s1.completed == ["B"] && s1.attempted == {"A", "B"}
    ensures RESUMED.Ready(Elems(s0.completed)) == {"A", "C"} && Eligible(OPEN, s0, "A") && Eligible(OPEN, s0, "C")
    ensures RESUMED.Ready(Elems(s1.completed)) == {"A", "C"} && !Eligible(OPEN, s1, "A") && Eligible(OPEN, s1, "C")
  {
    assert "A"[0] != "B"[0] && "A"[0] != "C"[0] && "B"[0] != "C"[0];
    assert Elems(["B"]) == {"B"};
  }

  lemma WalkLength(g: Adj, p: seq<Id>)
    requires IsWalk(g, p)
    ensures |p| >= 1
  {}

  // The counter always equals the number of completed issues.
  lemma {:induction false} CountIsCompleted(s0: State, trace: seq<Event>)
    requires forall i | 0 <= i < |trace| :: Coherent(trace[i].attempt)
    ensures After(s0, trace).processed - |After(s0, trace).completed| == s0.processed - |s0.completed|
  {
    if trace != [] {
      CountIsCompleted(s0, trace[..|trace| - 1]);
    }
  }

  // A positive limit bounds the counter, from wherever a resumed run restarts it.
  lemma {:induction false} LimitRespected(g: Graph, cfg: Config, s0: State, trace: seq<Event>, n: nat)
    requires IsRun(g, cfg, s0, trace) && cfg.maxIssues > 0 && n <= |trace|
    ensures After(s0, trace[..n]).processed
         <= if s0.processed > cfg.maxIssues then s0.processed else cfg.maxIssues
  {
    hide Settle, Judge, Next;
    if n > 0 {
      LimitRespected(g, cfg, s0, trace, n - 1);
      Prefixes(s0, trace, n - 1);
      assert Selected(g, cfg, s0, trace, n - 1);
    }
  }

  // Each id is listed as completed at most once more than at the start.
  lemma CompletedDistinct(g: Graph, cfg: Config, s0: State, trace: seq<Event>, n: nat)
    requires g.Wf() && IsRun(g, cfg, s0, trace) && n <= |trace| && Distinct(s0.completed)
    ensures Distinct(After(s0, trace[..n]).completed)
    decreases n
  {
    hide IsRun, Graph.Wf, Settle, Judge;
    if n > 0 {
      CompletedDistinct(g, cfg, s0, trace, n - 1);
      Prefixes(s0, trace, n - 1);
      SelectedMeans(g, cfg, s0, trace, n - 1);
      StateIs(s0, trace, n - 1, trace[n - 1].id);
    }
  }

  lemma RunStart(g: Graph, cfg: Config, s0: State)
    ensures IsRun(g, cfg, s0, []) && After(s0, []) == s0
  {}

  lemma RunStep(g: Graph, cfg: Config, s0: State, trace: seq<Event>, e: Event)
    requires IsRun(g, cfg, s0, trace) && (trace != [] ==> !trace[|trace| - 1].attempt.Raised?)
    requires !LimitReached(cfg, After(s0, trace)) && Next(g, cfg, After(s0, trace)) == Some(e.id)
    ensures IsRun(g, cfg, s0, trace + [e])
    ensures After(s0, trace + [e]) == Apply(After(s0, trace), e)
  {
    hide Apply, Next, LimitReached;
    var more := trace + [e];
    assert more[..|trace|] == trace;
    forall i | 0 <= i < |more|
      ensures Selected(g, cfg, s0, more, i) && (more[i].attempt.Raised? ==> i == |more| - 1)
    {
      if i < |trace| {
        assert more[..i] == trace[..i];
        assert Selected(g, cfg, s0, trace, i);
      }
    }
  }

  // ------------------------------------------------------------------ when it stops

  ghost function Open(g: Graph, s: State): set<Id> {
    g.pre.Keys - Elems(s.completed)
  }

  ghost predicate OnCycle(g: Graph, s: State, v: Id) {
    exists c :: IsCycle(g.pre, c) && Within(c, Open(g, s)) && c[0] == v
  }

  // A chain of open issues from `v` to one that may not be selected or lies on a cycle.
  ghost predicate Explains(g: Graph, cfg: Config, s: State, v: Id, p: seq<Id>) {
    && IsWalk(g.pre, p) && p[0] == v && Within(p, Open(g, s))
    && (!Eligible(cfg, s, p[|p| - 1]) || OnCycle(g, s, p[|p| - 1]))
  }

  lemma OpenPrerequisite(g: Graph, cfg: Config, s: State, u: Id) returns (w: Id)
    requires g.Wf() && Next(g, cfg, s).None? && u in Open(g, s) && Eligible(cfg, s, u)
    ensures w in g.pre[u] && w in Open(g, s)
  {
    hide Next, Eligible;
    SelectionSound(g, cfg, s);
    assert u !in g.Ready(Elems(s.completed));
    w :| w in g.pre[u] && w !in Elems(s.completed);
  }

  lemma {:induction false} ExtendExplanation(g: Graph, cfg: Config, s: State, p: seq<Id>) returns (q: seq<Id>)
    requires g.Wf() && Next(g, cfg, s).None?
    requires IsWalk(g.pre, p) && Within(p, Open(g, s)) && Distinct(p) && Eligible(cfg, s, p[|p| - 1])
    ensures Explains(g, cfg, s, p[0], q)
    decreases |Open(g, s)| - |p|
  {
    hide Next, Eligible, Graph.Wf;
    DistinctWithin(p, Open(g, s));
    var w := OpenPrerequisite(g, cfg, s, p[|p| - 1]);
    if w in p {
      var i :| 0 <= i < |p| && p[i] == w;
      ClosingEdge(g.pre, p, i);
      var c := p[i..] + [p[i]];
      assert IsCycle(g.pre, c) && Within(c, Open(g, s)) && c[0] == p[i];
      q := p[..i + 1];
      SliceWalk(g.pre, p, 0, i + 1);
      assert q == p[0..i + 1];
    } else {
      SnocWalk(g.pre, p, w);
      q := p + [w];
      if Eligible(cfg, s, w) {
        DistinctWithin(q, Open(g, s));
        q := ExtendExplanation(g, cfg, s, q);
      }
    }
  }

  // When nothing is selectable, every open issue the filters admit is held back by a chain
  // of open prerequisites that ends at an attempted, skipped or filtered-out issue, or
  // runs into a cycle of open issues.
  lemma StuckExplained(g: Graph, cfg: Config, s: State, v: Id) returns (p: seq<Id>)
    requires g.Wf() && Next(g, cfg, s).None? && v in Open(g, s) && Eligible(cfg, s, v)
    ensures Explains(g, cfg, s, v, p)
  {
    hide Next, Eligible, Explains;
    assert IsWalk(g.pre, [v]);
    p := ExtendExplanation(g, cfg, s, [v]);
  }

  // A fresh, unfiltered run over an acyclic graph whose every attempt finishes its issue
  // completes the whole graph by the time nothing is selectable.
  lemma EverythingCompletes(g: Graph, cfg: Config, trace: seq<Event>)
    requires g.Wf() && !Cyclic(g.pre) && IsRun(g, cfg, FRESH, trace)
    requires cfg.skipIds == {} && forall v :: cfg.passes(v)
    requires forall i | 0 <= i < |trace| :: Finished(trace[i])
    requires Next(g, cfg, After(FRESH, trace)).None?
    ensures Elems(After(FRESH, trace).completed) == g.pre.Keys
  {
    hide Next, IsRun, Finished, Graph.Wf;
    var s := After(FRESH, trace);
    assert trace[..|trace|] == trace;
    forall v ensures v in s.completed <==> v in s.attempted {
      StateIs(FRESH, trace, |trace|, v);
    }
    NoIssueTwice(g, cfg, FRESH, trace);
    forall v | v in s.completed ensures v in g.pre {
      StateIs(FRESH, trace, |trace|, v);
    }
    forall v | v in g.pre ensures v in s.completed {
      if v !in s.completed {
        var p := StuckExplained(g, cfg, s, v);
        AcyclicIsEligible(g, cfg, s, v, p);
      }
    }
  }

  lemma AcyclicIsEligible(g: Graph, cfg: Config, s: State, v: Id, p: seq<Id>)
    requires Explains(g, cfg, s, v, p) && !Cyclic(g.pre)
    ensures p != [] && p[|p| - 1] in Open(g, s) && !Eligible(cfg, s, p[|p| - 1])
  {
    hide Eligible, IsWalk;
    WalkLength(g.pre, p);
    if OnCycle(g, s, p[|p| - 1]) {
      CyclicMonotone(g.pre, Open(g, s), g.pre.Keys);
    }
  }
}
