/** What `DependencyGraph` computes, as functions of the graph's value: the ready set,
    the execution waves and the FIFO order of Kahn's algorithm, with the theorems that
    relate the three of them to walks and cycles. */
module Schedule {
  import opened Ordering
  import opened Digraph

  // `pre[v]` is the union of the hard blockers and the soft prerequisites of `v`;
  // `order` is the insertion order of the issue dictionary.
  datatype Graph = Graph(order: seq<Id>, priority: map<Id, int>, pre: Adj) {

    ghost predicate Wf() {
      && Distinct(order)
      && Elems(order) == pre.Keys
      && (forall v | v in pre :: pre[v] <= pre.Keys)
    }

    function Prio(v: Id): int {
      if v in priority then priority[v] else 0
    }

    // The sort key (priority_int, issue_id).
    function Rank(): (Id, Id) -> bool {
      (a, b) => Prio(a) < Prio(b) || (Prio(a) == Prio(b) && LexLeq(a, b))
    }

    function Ready(done: set<Id>): set<Id> {
      set v | v in pre && v !in done && pre[v] <= done
    }

    // The chosen issues in (priority, id) order.
    function Batch(chosen: set<Id>): seq<Id> {
      Sort(Select(order, chosen), Rank())
    }

    function Wave(done: set<Id>): seq<Id> {
      Batch(Ready(done))
    }

    // Everything processed after `k` waves that start from `completed`.
    ghost function Done(completed: set<Id>, k: nat): set<Id> {
      if k == 0 then completed
      else Done(completed, k - 1) + Ready(Done(completed, k - 1))
    }

    function Waves(done: set<Id>): seq<seq<Id>>
      decreases pre.Keys - done
    {
      if Ready(done) == {} then []
      else [Wave(done)] + Waves(done + Ready(done))
    }

  }

  lemma RankTotal(g: Graph)
    ensures TotalOrder(g.Rank())
  {
    var leq := g.Rank();
    forall a, b ensures leq(a, b) || leq(b, a) { LexTotal(a, b); }
    forall a, b | leq(a, b) && leq(b, a) ensures a == b { LexAntisymmetric(a, b); }
    forall a, b, c | leq(a, b) && leq(b, c) ensures leq(a, c) {
      if g.Prio(a) == g.Prio(b) == g.Prio(c) { LexTransitive(a, b, c); }
    }
  }

  // A batch lists the chosen issues once each, in (priority, id) order.
  lemma BatchElems(g: Graph, chosen: set<Id>)
    requires g.Wf()
    ensures Elems(g.Batch(chosen)) == chosen * g.pre.Keys
    ensures Distinct(g.Batch(chosen)) && Sorted(g.Batch(chosen), g.Rank())
  {
    RankTotal(g);
    SelectElems(g.order, chosen);
    SortCorrect(Select(g.order, chosen), g.Rank());
    SortCanonical(Select(g.order, chosen), Select(g.order, chosen), g.Rank());
  }

  // ------------------------------------------------------------------ waves

  lemma {:induction false} DoneMonotone(g: Graph, c: set<Id>, i: nat, j: nat)
    requires i <= j
    ensures g.Done(c, i) <= g.Done(c, j)
    decreases j
  {
    if i < j { DoneMonotone(g, c, i, j - 1); }
  }

  lemma {:induction false} DoneShift(g: Graph, c: set<Id>, k: nat)
    ensures g.Done(c + g.Ready(c), k) == g.Done(c, k + 1)
  {
    if k > 0 { DoneShift(g, c, k - 1); }
  }

  // The number of edges of the longest prerequisite chain from `v` inside `s`.
  ghost predicate LongestChain(g: Adj, s: set<Id>, v: Id, k: nat) {
    && (exists p :: IsWalk(g, p) && Within(p, s) && p[0] == v && |p| == k + 1)
    && (forall p | IsWalk(g, p) && Within(p, s) && p[0] == v :: |p| <= k + 1)
  }

  // Stage `k` holds exactly the issues whose longest open prerequisite chain has `k` edges.
  lemma {:induction false} StageIsLongestChain(g: Graph, c: set<Id>, v: Id, k: nat)
    requires g.Wf() && v in g.Ready(g.Done(c, k))
    ensures LongestChain(g.pre, g.pre.Keys - c, v, k)
    decreases k
  {
    var s := g.pre.Keys - c;
    DoneMonotone(g, c, 0, k);
    StageHasChain(g, c, v, k);
    forall p | IsWalk(g.pre, p) && Within(p, s) && p[0] == v ensures |p| <= k + 1 {
      StageBoundsChain(g, c, p, k);
    }
  }

  lemma {:induction false} StageHasChain(g: Graph, c: set<Id>, v: Id, k: nat)
    requires g.Wf() && v in g.Ready(g.Done(c, k))
    ensures exists p :: IsWalk(g.pre, p) && Within(p, g.pre.Keys - c) && p[0] == v && |p| == k + 1
    decreases k
  {
    hide Graph.Done, Graph.Ready, Graph.Wf;
    var s := g.pre.Keys - c;
    StageOpen(g, c, v, k);
    if k == 0 {
      assert IsWalk(g.pre, [v]) && Within([v], s);
    } else {
      var w := LatePrerequisite(g, c, v, k);
      StageHasChain(g, c, w, k - 1);
      var p :| IsWalk(g.pre, p) && Within(p, s) && p[0] == w && |p| == k;
      ConsWalk(g.pre, v, p);
      assert Within([v] + p, s);
    }
  }

  lemma StageOpen(g: Graph, c: set<Id>, v: Id, k: nat)
    requires v in g.Ready(g.Done(c, k))
    ensures v in g.pre.Keys - c
  {
    DoneMonotone(g, c, 0, k);
  }

  // An issue that waits for stage k has a prerequisite in stage k - 1.
  lemma LatePrerequisite(g: Graph, c: set<Id>, v: Id, k: nat) returns (w: Id)
    requires g.Wf() && k > 0 && v in g.Ready(g.Done(c, k))
    ensures v in g.pre && w in g.pre[v] && w in g.Ready(g.Done(c, k - 1))
  {
    w :| w in g.pre[v] && w !in g.Done(c, k - 1);
  }

  // A chain that starts in `Done(c, k + 1)` and stays open has at most `k` edges.
  lemma {:induction false} StageBoundsChain(g: Graph, c: set<Id>, p: seq<Id>, k: nat)
    requires IsWalk(g.pre, p) && Within(p, g.pre.Keys - c) && p[0] in g.Done(c, k + 1)
    ensures |p| <= k + 1
    decreases k
  {
    if p[0] in g.Done(c, k) {
      assert k > 0;
      StageBoundsChain(g, c, p, k - 1);
    } else if |p| > 1 {
      assert p[1] in g.pre[p[0]] && g.pre[p[0]] <= g.Done(c, k);
      assert k > 0;
      SliceWalk(g.pre, p, 1, |p|);
      StageBoundsChain(g, c, p[1..], k - 1);
    }
  }

  lemma {:induction false} CycleNeverDone(g: Graph, c: set<Id>, p: seq<Id>, k: nat)
    requires IsCycle(g.pre, p) && Within(p, g.pre.Keys - c)
    ensures forall i | 0 <= i < |p| :: p[i] !in g.Done(c, k)
  {
    if k > 0 {
      CycleNeverDone(g, c, p, k - 1);
      forall i | 0 <= i < |p| ensures p[i] !in g.Ready(g.Done(c, k - 1)) {
        var next := if i < |p| - 1 then p[i + 1] else p[1];
        assert next in g.pre[p[i]];
      }
    }
  }

  lemma StuckStep(g: Graph, d: set<Id>, v: Id)
    requires g.Wf() && g.Ready(d) == {} && v in g.pre.Keys - d
    ensures g.pre[v] * (g.pre.Keys - d) != {}
  {
    assert v !in g.Ready(d);
    var w :| w in g.pre[v] && w !in d;
    assert w in g.pre[v] * (g.pre.Keys - d);
  }

  // When nothing is ready, whatever is left over contains a cycle.
  lemma StuckHasCycle(g: Graph, d: set<Id>)
    requires g.Wf() && g.Ready(d) == {} && !(g.pre.Keys <= d)
    ensures CyclicWithin(g.pre, g.pre.Keys - d)
  {
    var stuck := g.pre.Keys - d;
    forall v {:trigger g.pre[v]} | v in stuck ensures g.pre[v] * stuck != {} {
      StuckStep(g, d, v);
    }
    NoSinkMeansCycle(g.pre, stuck);
  }

  // The stages reach every issue exactly when the part that is still open has no cycle.
  lemma StuckMeansCycle(g: Graph, c: set<Id>, n: nat)
    requires g.Wf() && g.Ready(g.Done(c, n)) == {}
    ensures g.pre.Keys <= g.Done(c, n) <==> !CyclicWithin(g.pre, g.pre.Keys - c)
  {
    hide Graph.Ready, Graph.Wf, IsCycle;
    DoneMonotone(g, c, 0, n);
    if g.pre.Keys <= g.Done(c, n) {
      forall p | IsCycle(g.pre, p) && Within(p, g.pre.Keys - c) ensures false {
        CycleNeverDone(g, c, p, n);
        CycleHasNode(g.pre, p);
      }
    } else {
      StuckHasCycle(g, g.Done(c, n));
      CyclicMonotone(g.pre, g.pre.Keys - g.Done(c, n), g.pre.Keys - c);
    }
  }

  lemma CycleHasNode(g: Adj, p: seq<Id>)
    requires IsCycle(g, p)
    ensures |p| > 0 && p[0] in g
  {}

  lemma {:induction false} DoneSplits(g: Graph, c: set<Id>, v: Id, n: nat) returns (k: nat)
    requires v in g.Done(c, n) && v !in c
    ensures k < n && v in g.Ready(g.Done(c, k))
    decreases n
  {
    hide Graph.Ready;
    if v in g.Done(c, n - 1) {
      k := DoneSplits(g, c, v, n - 1);
    } else {
      k := n - 1;
    }
  }

  lemma {:induction false} WaveAt(g: Graph, c: set<Id>, k: nat)
    requires g.Wf() && k < |g.Waves(c)|
    ensures g.Waves(c)[k] != []
    ensures Elems(g.Waves(c)[k]) == g.Ready(g.Done(c, k))
    ensures Distinct(g.Waves(c)[k]) && Sorted(g.Waves(c)[k], g.Rank())
    decreases k
  {
    hide Graph.Rank, Sorted, Distinct, Sort, Select, Graph.Wf;
    if k == 0 {
      BatchElems(g, g.Ready(c));
      ReadyIsKnown(g, c);
      EmptyElems(g.Wave(c));
    } else {
      WaveAt(g, c + g.Ready(c), k - 1);
      DoneShift(g, c, k - 1);
    }
  }

  lemma ReadyIsKnown(g: Graph, d: set<Id>)
    ensures g.Ready(d) * g.pre.Keys == g.Ready(d) && g.Ready(d) * d == {}
  {}

  lemma {:induction false} WavesEnd(g: Graph, c: set<Id>)
    ensures g.Ready(g.Done(c, |g.Waves(c)|)) == {}
    decreases g.pre.Keys - c
  {
    hide Graph.Wave;
    if g.Ready(c) != {} {
      var c' := c + g.Ready(c);
      WavesEnd(g, c');
      DoneShift(g, c, |g.Waves(c')|);
    }
  }

  ghost predicate InWave(ws: seq<seq<Id>>, v: Id, k: nat) {
    k < |ws| && v in ws[k]
  }

  lemma InWaveIsStage(g: Graph, c: set<Id>, v: Id, k: nat)
    requires g.Wf() && k < |g.Waves(c)|
    ensures InWave(g.Waves(c), v, k) <==> v in g.Ready(g.Done(c, k))
  {
    hide Graph.Ready, Graph.Waves, Graph.Done, Graph.Wf, Sorted, Distinct;
    WaveAt(g, c, k);
    assert v in Elems(g.Waves(c)[k]) <==> v in g.Waves(c)[k];
  }

  // Wave `k` holds exactly the issues whose longest open prerequisite chain has `k` edges.
  lemma WaveIndexIsLongestChain(g: Graph, c: set<Id>, v: Id, k: nat)
    requires g.Wf() && !CyclicWithin(g.pre, g.pre.Keys - c) && v in g.pre.Keys - c
    ensures InWave(g.Waves(c), v, k) <==> LongestChain(g.pre, g.pre.Keys - c, v, k)
  {
    hide *;
    var i := WaveOf(g, c, v);
    InWaveChain(g, c, v, i);
    if InWave(g.Waves(c), v, k) {
      InWaveChain(g, c, v, k);
    }
    if LongestChain(g.pre, g.pre.Keys - c, v, k) {
      LongestChainUnique(g.pre, g.pre.Keys - c, v, i, k);
    }
  }

  lemma InWaveChain(g: Graph, c: set<Id>, v: Id, k: nat)
    requires g.Wf() && InWave(g.Waves(c), v, k)
    ensures v in g.pre.Keys - c && LongestChain(g.pre, g.pre.Keys - c, v, k)
  {
    hide Graph.Waves, Graph.Wf, LongestChain;
    InWaveIsStage(g, c, v, k);
    DoneMonotone(g, c, 0, k);
    StageIsLongestChain(g, c, v, k);
  }

  // On an acyclic open part every open issue has a wave.
  lemma WaveOf(g: Graph, c: set<Id>, v: Id) returns (k: nat)
    requires g.Wf() && !CyclicWithin(g.pre, g.pre.Keys - c) && v in g.pre.Keys - c
    ensures InWave(g.Waves(c), v, k)
  {
    hide Graph.Ready, Graph.Waves, Graph.Done, Graph.Wf, CyclicWithin, InWave;
    WavesEnd(g, c);
    StuckMeansCycle(g, c, |g.Waves(c)|);
    k := DoneSplits(g, c, v, |g.Waves(c)|);
    InWaveIsStage(g, c, v, k);
  }

  lemma LongestChainUnique(g: Adj, s: set<Id>, v: Id, j: nat, k: nat)
    requires LongestChain(g, s, v, j) && LongestChain(g, s, v, k)
    ensures j == k
  {
    var p :| IsWalk(g, p) && Within(p, s) && p[0] == v && |p| == j + 1;
    var q :| IsWalk(g, q) && Within(q, s) && q[0] == v && |q| == k + 1;
  }

  // The waves leave an issue out exactly when the open part of the graph has a cycle.
  lemma WavesCoverIffAcyclic(g: Graph, c: set<Id>)
    requires g.Wf()
    ensures g.pre.Keys <= g.Done(c, |g.Waves(c)|) <==> !CyclicWithin(g.pre, g.pre.Keys - c)
  {
    hide *;
    WavesEnd(g, c);
    StuckMeansCycle(g, c, |g.Waves(c)|);
  }

  // The invariant of the wave loop: `waves` is what has been collected so far.
  ghost predicate Collected(g: Graph, c: set<Id>, waves: seq<seq<Id>>, processed: set<Id>) {
    processed == g.Done(c, |waves|) && g.Waves(c) == waves + g.Waves(processed)
  }

  lemma CollectStart(g: Graph, c: set<Id>)
    ensures Collected(g, c, [], c)
  {
    assert [] + g.Waves(c) == g.Waves(c);
  }

  lemma WaveKnown(g: Graph, done: set<Id>)
    requires g.Wf()
    ensures Elems(g.Wave(done)) == g.Ready(done)
    ensures g.Wave(done) == [] <==> g.Ready(done) == {}
  {
    hide Graph.Batch, Sorted, Distinct, Graph.Wf;
    BatchElems(g, g.Ready(done));
    ReadyIsKnown(g, done);
    EmptyElems(g.Wave(done));
  }

  lemma CollectStep(g: Graph, c: set<Id>, waves: seq<seq<Id>>, processed: set<Id>)
    requires g.Wf() && Collected(g, c, waves, processed)
    ensures var wave := g.Wave(processed);
      && (wave == [] ==> g.Waves(c) == waves && processed == g.Done(c, |g.Waves(c)|))
      && (wave != [] ==> Collected(g, c, waves + [wave], processed + Elems(wave)))
      && (wave != [] ==> g.pre.Keys - (processed + Elems(wave)) < g.pre.Keys - processed)
  {
    hide Graph.Wave, Graph.Wf, Elems;
    WaveKnown(g, processed);
    if g.Ready(processed) == {} {
      assert waves + [] == waves;
    } else {
      var rest := g.Waves(processed + g.Ready(processed));
      assert waves + ([g.Wave(processed)] + rest) == waves + [g.Wave(processed)] + rest;
    }
  }

  // Something is left over after the last wave exactly when the open part is cyclic,
  // and then the whole graph is cyclic too.
  lemma LeftoverIffCyclic(g: Graph, c: set<Id>, processed: set<Id>)
    requires g.Wf() && processed == g.Done(c, |g.Waves(c)|)
    ensures g.pre.Keys - processed != {} <==> CyclicWithin(g.pre, g.pre.Keys - c)
    ensures CyclicWithin(g.pre, g.pre.Keys - c) ==> Cyclic(g.pre)
  {
    hide Graph.Wf, Graph.Done, Graph.Waves, CyclicWithin;
    WavesCoverIffAcyclic(g, c);
    if !(g.pre.Keys <= processed) {
      var v :| v in g.pre.Keys && v !in processed;
      assert v in g.pre.Keys - processed;
    }
    if CyclicWithin(g.pre, g.pre.Keys - c) {
      CyclicMonotone(g.pre, g.pre.Keys - c, g.pre.Keys);
    }
  }
}
