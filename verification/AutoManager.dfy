/** `AutoManager` with the in-memory half of its state manager.  Signals and the outcome of
    processing an issue come from an environment that is arbitrary at every iteration. */
module AutoManagers {
  import opened Basics
  import opened Ordering
  import opened Digraph
  import opened Schedule
  import opened RunLoop
  import DependencyGraphs

  datatype Turn = Turn(shutdown: bool, attempt: Attempt)

  datatype Stop = ShutDown | LimitHit | NothingSelectable | Fatal

  // What `state_manager.load()` returns from the state file.
  datatype Saved = Saved(completed: seq<Id>, failed: map<Id, string>, skipped: map<Id, string>, attempted: set<Id>)

  function StartState(loaded: Option<Saved>): State {
    match loaded
    case None => FRESH
    case Some(s) => State(s.completed, s.failed.Keys, s.skipped.Keys, s.attempted, |s.completed|)
  }

  // Every attempt of the trace is the one the environment made in that iteration, which no
  // signal had stopped.
  ghost predicate Follows(env: nat -> Turn, trace: seq<Event>) {
    forall i | 0 <= i < |trace| :: trace[i].attempt == env(i).attempt && !env(i).shutdown
  }

  // Why the loop stopped after the trace.
  ghost predicate StoppedBy(g: Graph, cfg: Config, env: nat -> Turn, s: State, trace: seq<Event>, stop: Stop) {
    match stop
    case Fatal => trace != [] && trace[|trace| - 1].attempt.Raised?
    case ShutDown => env(|trace|).shutdown
    case LimitHit => !env(|trace|).shutdown && LimitReached(cfg, s)
    case NothingSelectable => !env(|trace|).shutdown && !LimitReached(cfg, s) && Next(g, cfg, s).None?
  }

  // No limit, no filter, no signal, and every attempt finishes its issue.
  ghost predicate Unhindered(cfg: Config, env: nat -> Turn) {
    && cfg.maxIssues <= 0 && cfg.skipIds == {} && (forall v :: cfg.passes(v))
    && forall i: nat :: !env(i).shutdown && Finishes(env(i).attempt)
  }

  lemma UnhinderedCompletes(g: Graph, cfg: Config, env: nat -> Turn, trace: seq<Event>, stop: Stop)
    requires g.Wf() && !Cyclic(g.pre) && Unhindered(cfg, env)
    requires IsRun(g, cfg, FRESH, trace) && Follows(env, trace)
    requires StoppedBy(g, cfg, env, After(FRESH, trace), trace, stop)
    ensures stop.NothingSelectable? && Elems(After(FRESH, trace).completed) == g.pre.Keys
  {
    hide Next, IsRun, After, Graph.Wf, Cyclic, Elems, Finishes;
    forall i | 0 <= i < |trace| ensures Finished(trace[i]) {
      assert trace[i].attempt == env(i).attempt;
    }
    if trace != [] {
      FinishedNotRaised(trace[|trace| - 1]);
    }
    EverythingCompletes(g, cfg, trace);
  }

  // The loop has taken exactly the steps of the trace.
  ghost predicate Taken(g: Graph, cfg: Config, env: nat -> Turn, s0: State, s: State, runAttempted: set<Id>,
                        trace: seq<Event>) {
    IsRun(g, cfg, s0, trace) && s == After(s0, trace) && runAttempted == Elems(Ids(trace)) && Follows(env, trace)
  }

  // What a finished run promises.
  ghost predicate Done(g: Graph, cfg: Config, env: nat -> Turn, loaded: Option<Saved>, s: State, runAttempted: set<Id>,
                       trace: seq<Event>, stop: Stop)
  {
    && Taken(g, cfg, env, StartState(loaded), s, runAttempted, trace)
    && StoppedBy(g, cfg, env, s, trace, stop)
    && (stop.Fatal? <==> trace != [] && trace[|trace| - 1].attempt.Raised?)
    && (loaded.None? && !Cyclic(g.pre) && Unhindered(cfg, env) ==>
         stop.NothingSelectable? && Elems(s.completed) == g.pre.Keys)
  }

  lemma Conclude(g: Graph, cfg: Config, env: nat -> Turn, loaded: Option<Saved>, s: State, runAttempted: set<Id>,
                 trace: seq<Event>, stop: Stop)
    requires g.Wf() && Taken(g, cfg, env, StartState(loaded), s, runAttempted, trace)
    requires StoppedBy(g, cfg, env, s, trace, stop)
    requires stop.Fatal? <==> trace != [] && trace[|trace| - 1].attempt.Raised?
    ensures Done(g, cfg, env, loaded, s, runAttempted, trace, stop)
  {
    hide Follows, Unhindered, IsRun, After, Graph.Wf, Cyclic, Elems, Next, LimitReached;
    if loaded.None? && !Cyclic(g.pre) && Unhindered(cfg, env) {
      UnhinderedCompletes(g, cfg, env, trace, stop);
    }
  }

  lemma DoneMeans(g: Graph, cfg: Config, env: nat -> Turn, loaded: Option<Saved>, s: State, runAttempted: set<Id>,
                  trace: seq<Event>, stop: Stop)
    requires Done(g, cfg, env, loaded, s, runAttempted, trace, stop)
    ensures forall i | 0 <= i < |trace| :: trace[i].attempt == env(i).attempt && !env(i).shutdown
    ensures stop.ShutDown? ==> env(|trace|).shutdown
    ensures stop.LimitHit? ==> cfg.maxIssues > 0 && s.processed >= cfg.maxIssues
    ensures stop.NothingSelectable? ==> cfg.maxIssues <= 0 || s.processed < cfg.maxIssues
    ensures var start := if loaded.Some? then |loaded.value.completed| else 0;
      cfg.maxIssues > 0 ==> s.processed <= if start > cfg.maxIssues then start else cfg.maxIssues
  {
    hide IsRun, After, Next, Ids, Elems, Unhindered, Cyclic;
    if cfg.maxIssues > 0 {
      LimitRespected(g, cfg, StartState(loaded), trace, |trace|);
      assert trace[..|trace|] == trace;
    }
  }

  lemma TakenNone(g: Graph, cfg: Config, env: nat -> Turn, s0: State)
    ensures Taken(g, cfg, env, s0, s0, {}, [])
  {
    hide IsRun, After;
    RunStart(g, cfg, s0);
  }

  // One more iteration.
  lemma TakenStep(g: Graph, cfg: Config, env: nat -> Turn, s0: State, s: State, runAttempted: set<Id>,
                  trace: seq<Event>, e: Event)
    requires g.Wf() && Taken(g, cfg, env, s0, s, runAttempted, trace)
    requires trace != [] ==> !trace[|trace| - 1].attempt.Raised?
    requires !LimitReached(cfg, s) && Next(g, cfg, s) == Some(e.id)
    requires e.attempt == env(|trace|).attempt && !env(|trace|).shutdown
    ensures Taken(g, cfg, env, s0, Apply(s, e), runAttempted + {e.id}, trace + [e])
    ensures e.id in g.pre.Keys - s.attempted && Apply(s, e).attempted == s.attempted + {e.id}
    ensures e.attempt.Raised? ==> Apply(s, e).processed == s.processed
  {
    hide IsRun, After, Next, LimitReached, Apply, Elems, Ids, Graph.Wf;
    RunStep(g, cfg, s0, trace, e);
    IdsSnoc(trace, e);
    SelectionShrinks(g, cfg, s);
    ApplyAttempts(s, e);
  }

  lemma FinishedNotRaised(e: Event)
    requires Finished(e)
    ensures !e.attempt.Raised?
  {}

  lemma NextMeans(g: Graph, cfg: Config, s: State)
    ensures Next(g, cfg, s) == First(Sort(Filter(cfg, s, g.Wave(Elems(s.completed))), cfg.RankLeq()))
    ensures Filter(cfg, s, g.Wave(Elems(s.completed))) == [] ==> Next(g, cfg, s) == None
  {}

  class AutoManager {
    const graph: DependencyGraphs.DependencyGraph
    const cfg: Config
    const onlyRequested: bool
    var completed: seq<Id>
    var failed: map<Id, string>
    var skipped: map<Id, string>
    var attempted: set<Id>
    var runAttempted: set<Id>
    var processedCount: int
    ghost var trace: seq<Event>

    constructor (graph: DependencyGraphs.DependencyGraph, cfg: Config, onlyRequested: bool)
      ensures this.graph == graph && this.cfg == cfg && this.onlyRequested == onlyRequested
      ensures Snapshot() == FRESH && runAttempted == {} && trace == []
    {
      this.graph, this.cfg, this.onlyRequested := graph, cfg, onlyRequested;
      completed, failed, skipped, attempted := [], map[], map[], {};
      runAttempted, processedCount, trace := {}, 0, [];
    }

    function Snapshot(): State
      reads this
    {
      State(completed, failed.Keys, skipped.Keys, attempted, processedCount)
    }

    lemma SnapshotIs()
      ensures Snapshot().completed == completed
    {}

    // `_get_next_issue`
    method GetNextIssue() returns (next: Option<Id>)
      requires graph.Valid()
      ensures next == Next(graph.Value(), cfg, Snapshot())
      ensures next.Some? ==>
        && next.value in graph.issues && next.value !in completed && graph.Waits(next.value) <= Elems(completed)
        && next.value !in attempted && next.value !in cfg.skipIds && cfg.passes(next.value)
      ensures forall v | v in graph.issues && v !in completed && graph.Waits(v) <= Elems(completed)
                         && v !in attempted && v !in cfg.skipIds && cfg.passes(v) ::
        && next.Some? && next.value in graph.issues
        && var w, issues := next.value, graph.issues;
           || cfg.rank(w) < cfg.rank(v)
           || (cfg.rank(w) == cfg.rank(v)
               && (|| issues[w].priority < issues[v].priority
                   || (issues[w].priority == issues[v].priority && LexLeq(w, v))))
    {
      hide Sort, Graph.Wave, Eligible, Filter, AutoManager.Snapshot, DependencyGraphs.DependencyGraph.Value, Next,
        DependencyGraphs.DependencyGraph.Valid, DependencyGraphs.DependencyGraph.Waits, LexLeq;
      SnapshotIs();
      SelectionFields();
      NextMeans(graph.Value(), cfg, Snapshot());
      var ready := graph.GetReadyIssues(Elems(completed));
      var candidates: seq<Id> := [];
      FilterEnds(cfg, Snapshot(), ready);
      for i := 0 to |ready|
        invariant candidates == Filter(cfg, Snapshot(), ready[..i])
      {
        FilterSnoc(cfg, Snapshot(), ready, i);
        if Eligible(cfg, Snapshot(), ready[i]) { candidates := candidates + [ready[i]]; }
      }
      if candidates == [] { return None; }
      candidates := Sort(candidates, cfg.RankLeq());
      next := First(candidates);
    }

    // The selection of the step system, on the fields of the manager and of its graph.
    lemma SelectionFields()
      requires graph.Valid()
      ensures var next := Next(graph.Value(), cfg, Snapshot());
        && (next.Some? ==>
          && next.value in graph.issues && next.value !in completed && graph.Waits(next.value) <= Elems(completed)
          && next.value !in attempted && next.value !in cfg.skipIds && cfg.passes(next.value))
        && forall v | v in graph.issues && v !in completed && graph.Waits(v) <= Elems(completed)
                      && v !in attempted && v !in cfg.skipIds && cfg.passes(v) ::
             && next.Some? && next.value in graph.issues
             && var w, issues := next.value, graph.issues;
                || cfg.rank(w) < cfg.rank(v)
                || (cfg.rank(w) == cfg.rank(v)
                    && (|| issues[w].priority < issues[v].priority
                        || (issues[w].priority == issues[v].priority && LexLeq(w, v))))
    {
      hide Next, Graph.Wf, Graph.Rank, DependencyGraphs.DependencyGraph.Valid, LexLeq;
      graph.ValueWf();
      graph.RankFields();
      var g, s := graph.Value(), Snapshot();
      SelectionSound(g, cfg, s);
      forall v ensures v in g.Ready(Elems(completed)) <==>
        v in graph.issues && v !in completed && graph.Waits(v) <= Elems(completed)
      {
        if v in graph.issues { assert g.pre[v] == graph.Waits(v); }
      }
    }

    // `_process_issue`: marks the issue attempted, then records the verdict.
    method ProcessIssue(id: Id, attempt: Attempt) returns (success: bool, raised: bool)
      modifies this
      ensures raised == attempt.Raised?
      ensures success ==> !raised
      ensures var after := Apply(old(Snapshot()), Event(id, attempt));
        Snapshot() == after.(processed := old(processedCount))
        && (after.processed == old(processedCount) + if success then 1 else 0)
      ensures runAttempted == old(runAttempted) + {id} && attempted == old(attempted) + {id}
      ensures processedCount == old(processedCount) && trace == old(trace)
      ensures match attempt
        case Raised =>
          !success && completed == old(completed) && skipped == old(skipped) && failed == old(failed)
        case TimedOut(finished, idle, seconds) =>
          && success == finished && skipped == old(skipped)
          && completed == (if finished then old(completed) + [id] else old(completed))
          && var reason := (if idle then "idle timeout" else "timeout") + " after " + seconds + "s";
             failed == if finished then old(failed) else old(failed)[id := reason]
        case Returned(result) =>
          && success == result.success
          && if result.wasClosed then
               completed == old(completed) + [id] && skipped == old(skipped) && failed == old(failed)
             else if result.wasBlocked then
               && completed == old(completed) && failed == old(failed)
               && skipped == old(skipped)[id := "skipped \U{2014} blocked by open dependency"]
             else if result.success then
               completed == old(completed) + [id] && skipped == old(skipped) && failed == old(failed)
             else if result.planCreated then
               && completed == old(completed) && failed == old(failed)
               && skipped == old(skipped)[id := "plan created, awaiting approval"]
             else if result.failureReason != "" then
               && completed == old(completed) && skipped == old(skipped)
               && failed == old(failed)[id := result.failureReason]
             else
               completed == old(completed) && skipped == old(skipped) && failed == old(failed)
    {
      attempted := attempted + {id};
      runAttempted := runAttempted + {id};
      if attempt.Raised? { return false, true; }
      var result := Settle(attempt);
      if result.wasClosed {
        completed := completed + [id];
      } else if result.wasBlocked {
        skipped := skipped[id := "skipped \U{2014} blocked by open dependency"];
      } else if result.success {
        completed := completed + [id];
      } else if result.planCreated {
        skipped := skipped[id := "plan created, awaiting approval"];
      } else if result.failureReason != "" {
        failed := failed[id := result.failureReason];
      }
      return result.success, false;
    }

    // One issue of the loop: processed, and counted when it succeeded.
    method TakeStep(id: Id, attempt: Attempt) returns (raised: bool)
      modifies this
      ensures raised == attempt.Raised?
      ensures Snapshot() == Apply(old(Snapshot()), Event(id, attempt))
      ensures runAttempted == old(runAttempted) + {id} && trace == old(trace) + [Event(id, attempt)]
    {
      hide Apply, Settle, Judge;
      var success;
      success, raised := ProcessIssue(id, attempt);
      trace := trace + [Event(id, attempt)];
      if success { processedCount := processedCount + 1; }
    }

    // What a resumed run takes over from the state file; the counter restarts at its length.
    method Restore(loaded: Option<Saved>)
      requires Snapshot() == FRESH
      modifies this
      ensures Snapshot() == StartState(loaded) && runAttempted == old(runAttempted) && trace == old(trace)
      ensures loaded.None? ==> completed == [] && attempted == {} && processedCount == 0
      ensures loaded.Some? ==>
        && completed == loaded.value.completed && attempted == loaded.value.attempted
        && failed == loaded.value.failed && skipped == loaded.value.skipped
        && processedCount == |loaded.value.completed|
    {
      if loaded.Some? {
        completed, failed, skipped := loaded.value.completed, loaded.value.failed, loaded.value.skipped;
        attempted := loaded.value.attempted;
        processedCount := |completed|;
      }
    }

    // `run`: the trace of the loop is a run of the step system from the loaded or fresh
    // state on the environment's answers, and the reason it stopped holds in the state it
    // left.  A fresh unhindered run over an acyclic graph completes every issue.
    method Run(env: nat -> Turn, loaded: Option<Saved>) returns (code: int, stop: Stop)
      requires graph.Valid()
      requires Snapshot() == FRESH && runAttempted == {} && trace == []
      modifies this
      ensures Done(graph.Value(), cfg, env, loaded, Snapshot(), runAttempted, trace, stop)
      ensures forall i | 0 <= i < |trace| :: trace[i].attempt == env(i).attempt && !env(i).shutdown
      ensures stop.ShutDown? ==> env(|trace|).shutdown
      ensures stop.LimitHit? ==> cfg.maxIssues > 0 && processedCount >= cfg.maxIssues
      ensures stop.NothingSelectable? ==> cfg.maxIssues <= 0 || processedCount < cfg.maxIssues
      ensures var start := if loaded.Some? then |loaded.value.completed| else 0;
        cfg.maxIssues > 0 ==> processedCount <= if start > cfg.maxIssues then start else cfg.maxIssues
      ensures code == if stop.Fatal? || (onlyRequested && processedCount == 0) then 1 else 0
    {
      hide Next, LimitReached, Elems, Graph.Wf, Taken, Done, After, StartState, Cyclic, StoppedBy,
        DependencyGraphs.DependencyGraph.Valid, DependencyGraphs.DependencyGraph.Value;
      Restore(loaded);
      graph.ValueWf();
      TakenNone(graph.Value(), cfg, env, StartState(loaded));
      stop := Iterate(env, StartState(loaded));
      Conclude(graph.Value(), cfg, env, loaded, Snapshot(), runAttempted, trace, stop);
      DoneMeans(graph.Value(), cfg, env, loaded, Snapshot(), runAttempted, trace, stop);
      if stop.Fatal? { return 1, Fatal; }
      code := if onlyRequested && processedCount == 0 then 1 else 0;
    }

    // The `while not self._shutdown_requested` loop.
    method Iterate(env: nat -> Turn, ghost s0: State) returns (stop: Stop)
      requires graph.Valid() && trace == []
      requires Taken(graph.Value(), cfg, env, s0, Snapshot(), runAttempted, [])
      modifies this
      ensures Taken(graph.Value(), cfg, env, s0, Snapshot(), runAttempted, trace)
      ensures StoppedBy(graph.Value(), cfg, env, Snapshot(), trace, stop)
      ensures stop.Fatal? <==> trace != [] && trace[|trace| - 1].attempt.Raised?
    {
      hide Next, LimitReached, Apply, Eligible, Elems, Graph.Wf, Taken, After, Settle, Judge, AtLimit,
        DependencyGraphs.DependencyGraph.Waits,
        DependencyGraphs.DependencyGraph.Valid, DependencyGraphs.DependencyGraph.Value, LexLeq;
      graph.ValueWf();
      ghost var g := graph.Value();
      var turn := 0;
      while true
        invariant graph.Value() == g && Taken(g, cfg, env, s0, Snapshot(), runAttempted, trace)
        invariant turn == |trace| && (trace != [] ==> !trace[|trace| - 1].attempt.Raised?)
        decreases g.pre.Keys - attempted
      {
        var now := env(turn);
        turn := turn + 1;
        if now.shutdown { return ShutDown; }
        LimitMeans(cfg, Snapshot());
        if AtLimit(cfg, processedCount) { return LimitHit; }
        var next := GetNextIssue();
        if next.None? { return NothingSelectable; }
        ghost var event := Event(next.value, now.attempt);
        TakenStep(g, cfg, env, s0, Snapshot(), runAttempted, trace, event);
        var raised := TakeStep(next.value, now.attempt);
        if raised { return Fatal; }
      }
    }
  }

  predicate AtLimit(cfg: Config, processed: int) {
    cfg.maxIssues > 0 && processed >= cfg.maxIssues
  }

  lemma LimitMeans(cfg: Config, s: State)
    ensures AtLimit(cfg, s.processed) <==> LimitReached(cfg, s)
  {}

  lemma IdsSnoc(trace: seq<Event>, e: Event)
    ensures Elems(Ids(trace + [e])) == Elems(Ids(trace)) + {e.id}
  {
    assert Ids(trace + [e]) == Ids(trace) + [e.id];
  }

  lemma SelectionShrinks(g: Graph, cfg: Config, s: State)
    requires g.Wf()
    ensures Next(g, cfg, s).Some? ==> Next(g, cfg, s).value in g.pre.Keys - s.attempted
  {
    hide Next, Graph.Wf;
    SelectionSound(g, cfg, s);
  }

  lemma ApplyAttempts(s: State, e: Event)
    ensures Apply(s, e).attempted == s.attempted + {e.id}
    ensures e.attempt.Raised? ==> Apply(s, e).processed == s.processed
  {}
}
