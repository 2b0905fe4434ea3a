/** Kahn's algorithm as `topological_sort` runs it: a FIFO queue to which every emitted
    issue appends, in (priority, id) order, the issues it was the last to hold back. */
module Kahn {
  import opened Ordering
  import opened Digraph
  import opened Schedule

  // The issues whose last missing prerequisite is `v` once `out` has been emitted.
  function Released(g: Graph, out: seq<Id>, v: Id): set<Id> {
    set w | w in g.pre && v in g.pre[w] && g.pre[w] <= Elems(out) + {v}
  }

  function NextQueue(g: Graph, out: seq<Id>, queue: seq<Id>): seq<Id>
    requires queue != []
  {
    queue[1..] + g.Batch(Released(g, out, queue[0]))
  }

  // An issue has been emitted or queued exactly when all its prerequisites are emitted.
  ghost predicate Frontier(g: Graph, out: seq<Id>, queue: seq<Id>) {
    forall w | w in g.pre :: w in Elems(out + queue) <==> g.pre[w] <= Elems(out)
  }

  ghost predicate KahnInv(g: Graph, out: seq<Id>, queue: seq<Id>) {
    && Distinct(out + queue)
    && Elems(out + queue) <= g.pre.Keys
    && Frontier(g, out, queue)
    && PrerequisitesFirst(g.pre, out)
  }

  ghost function KahnFrom(g: Graph, out: seq<Id>, queue: seq<Id>): seq<Id>
    requires g.Wf() && KahnInv(g, out, queue)
    decreases |g.pre.Keys| - |out|
  {
    if queue == [] then out
    else
      KahnStep(g, out, queue);
      KahnFrom(g, out + [queue[0]], NextQueue(g, out, queue))
  }

  ghost function KahnOrder(g: Graph): seq<Id>
    requires g.Wf()
  {
    KahnStart(g);
    KahnFrom(g, [], g.Wave({}))
  }

  lemma KahnStart(g: Graph)
    requires g.Wf()
    ensures KahnInv(g, [], g.Wave({}))
  {
    hide Distinct, Sorted, Sort, Select;
    BatchElems(g, g.Ready({}));
    assert [] + g.Wave({}) == g.Wave({});
  }

  lemma ConcatElems<T>(a: seq<T>, b: seq<T>)
    ensures Elems(a + b) == Elems(a) + Elems(b)
  {}

  lemma DistinctConcat<T>(a: seq<T>, b: seq<T>)
    requires Distinct(a) && Distinct(b) && Elems(a) !! Elems(b)
    ensures Distinct(a + b)
  {
    forall i, j | 0 <= i < j < |a + b| ensures (a + b)[i] != (a + b)[j] {
      if i < |a| <= j {
        assert a[i] in Elems(a) && b[j - |a|] in Elems(b);
      }
    }
  }

  lemma HeadNotEmitted(g: Graph, out: seq<Id>, queue: seq<Id>)
    requires KahnInv(g, out, queue) && queue != []
    ensures queue[0] !in out && queue[0] in g.pre && g.pre[queue[0]] <= Elems(out)
    ensures |out| < |g.pre.Keys|
  {
    hide PrerequisitesFirst;
    var all := out + queue;
    assert all[|out|] == queue[0];
    assert queue[0] in Elems(all);
    forall x | x in out ensures x != queue[0] {
      var i :| 0 <= i < |out| && out[i] == x;
      assert all[i] == x;
    }
    DistinctCard(all);
    SubsetCard(Elems(all), g.pre.Keys);
  }

  lemma ReleasedIsNew(g: Graph, out: seq<Id>, queue: seq<Id>)
    requires KahnInv(g, out, queue) && queue != []
    ensures Elems(out + queue) !! Released(g, out, queue[0])
  {
    HeadNotEmitted(g, out, queue);
  }

  lemma FrontierStep(g: Graph, out: seq<Id>, queue: seq<Id>)
    requires g.Wf() && KahnInv(g, out, queue) && queue != []
    ensures Elems(out + queue + g.Batch(Released(g, out, queue[0])))
         == Elems(out + queue) + Released(g, out, queue[0])
    ensures Frontier(g, out + [queue[0]], NextQueue(g, out, queue))
  {
    hide Distinct, Sorted, PrerequisitesFirst, Graph.Batch, Graph.Rank;
    var v, freed := queue[0], Released(g, out, queue[0]);
    BatchElems(g, freed);
    assert freed * g.pre.Keys == freed;
    ConcatElems(out + queue, g.Batch(freed));
    assert out + [v] + NextQueue(g, out, queue) == out + queue + g.Batch(freed);
    ConcatElems(out, [v]);
    HeadNotEmitted(g, out, queue);
  }

  lemma PrerequisitesStep(g: Graph, out: seq<Id>, v: Id)
    requires PrerequisitesFirst(g.pre, out) && (v in g.pre ==> g.pre[v] <= Elems(out))
    ensures PrerequisitesFirst(g.pre, out + [v])
  {
    var out' := out + [v];
    forall i | 0 <= i < |out'| && out'[i] in g.pre
      ensures g.pre[out'[i]] * g.pre.Keys <= Elems(out'[..i])
    {
      assert out'[..i] == out[..i];
      assert out[..|out|] == out;
    }
  }

  // One turn of the loop keeps the invariant.
  lemma KahnStep(g: Graph, out: seq<Id>, queue: seq<Id>)
    requires g.Wf() && KahnInv(g, out, queue) && queue != []
    ensures |out| < |g.pre.Keys|
    ensures KahnInv(g, out + [queue[0]], NextQueue(g, out, queue))
    ensures out + [queue[0]] + NextQueue(g, out, queue)
         == out + queue + g.Batch(Released(g, out, queue[0]))
  {
    hide Distinct, PrerequisitesFirst, Frontier, Released, Graph.Batch, Sorted;
    var freed := Released(g, out, queue[0]);
    HeadNotEmitted(g, out, queue);
    FrontierStep(g, out, queue);
    PrerequisitesStep(g, out, queue[0]);
    ReleasedIsNew(g, out, queue);
    BatchElems(g, freed);
    ReleasedKnown(g, out, queue[0]);
    DistinctConcat(out + queue, g.Batch(freed));
    assert out + [queue[0]] + NextQueue(g, out, queue) == out + queue + g.Batch(freed);
  }

  lemma ReleasedKnown(g: Graph, out: seq<Id>, v: Id)
    ensures Released(g, out, v) <= g.pre.Keys
    ensures Released(g, out, v) * g.pre.Keys == Released(g, out, v)
  {}

  lemma {:induction false} KahnFinal(g: Graph, out: seq<Id>, queue: seq<Id>)
    requires g.Wf() && KahnInv(g, out, queue)
    ensures KahnInv(g, KahnFrom(g, out, queue), [])
    decreases |g.pre.Keys| - |out|
  {
    hide KahnInv, Graph.Wf, NextQueue;
    if queue != [] {
      KahnStep(g, out, queue);
      KahnFinal(g, out + [queue[0]], NextQueue(g, out, queue));
    }
  }

  lemma LeftoverHasCycle(g: Graph, out: seq<Id>)
    requires g.Wf() && Frontier(g, out, []) && !(g.pre.Keys <= Elems(out))
    ensures Cyclic(g.pre)
  {
    assert out + [] == out;
    assert g.Ready(Elems(out)) == {};
    StuckHasCycle(g, Elems(out));
    CyclicMonotone(g.pre, g.pre.Keys - Elems(out), g.pre.Keys);
  }

  // Kahn's algorithm returns a duplicate-free list of issues that puts every hard and
  // soft prerequisite strictly earlier; it is a permutation of the issues exactly when
  // the graph has no cycle.
  lemma TopologicalOrder(g: Graph)
    requires g.Wf()
    ensures Distinct(KahnOrder(g)) && Elems(KahnOrder(g)) <= g.pre.Keys
    ensures PrerequisitesFirst(g.pre, KahnOrder(g))
    ensures |KahnOrder(g)| == |g.pre.Keys| <==> !Cyclic(g.pre)
    ensures multiset(KahnOrder(g)) == multiset(g.pre.Keys) <==> !Cyclic(g.pre)
  {
    hide *;
    var out := KahnOrder(g);
    KahnResult(g);
    DistinctMultiset(out);
    DistinctCard(out);
    if g.pre.Keys <= Elems(out) {
      assert Elems(out) == g.pre.Keys;
      OrderedMeansAcyclic(g.pre, out);
    } else {
      LeftoverHasCycle(g, out);
      SmallerSet(Elems(out), g.pre.Keys);
      assert |multiset(g.pre.Keys)| == |g.pre.Keys| && |multiset(out)| == |out|;
    }
  }

  lemma KahnResult(g: Graph)
    requires g.Wf()
    ensures Distinct(KahnOrder(g)) && Elems(KahnOrder(g)) <= g.pre.Keys
    ensures PrerequisitesFirst(g.pre, KahnOrder(g)) && Frontier(g, KahnOrder(g), [])
  {
    hide Graph.Wf, Distinct, PrerequisitesFirst, Frontier;
    KahnStart(g);
    KahnFinal(g, [], g.Wave({}));
    assert KahnOrder(g) + [] == KahnOrder(g);
  }

  // ------------------------------------------- Kahn visits issues wave by wave

  ghost predicate StagePrefix(g: Graph, all: seq<Id>, j: nat) {
    && |g.Done({}, j)| <= |all|
    && Elems(all[..|g.Done({}, j)|]) == g.Done({}, j)
  }

  // The FIFO queue holds at most two consecutive depths: stages up to `d + 1` are
  // prefixes of what was emitted or queued, and emission has not gone past them.
  ghost predicate StageInv(g: Graph, out: seq<Id>, queue: seq<Id>, d: nat) {
    && (forall j: nat | j <= d + 1 :: StagePrefix(g, out + queue, j))
    && |out| <= |g.Done({}, d + 1)|
  }

  lemma PrefixGrows(g: Graph, all: seq<Id>, more: seq<Id>, j: nat)
    requires StagePrefix(g, all, j)
    ensures StagePrefix(g, all + more, j)
  {
    hide Graph.Done;
    assert (all + more)[..|g.Done({}, j)|] == all[..|g.Done({}, j)|];
  }

  lemma {:induction false} DoneClosed(g: Graph, k: nat, v: Id)
    requires v in g.Done({}, k)
    ensures v in g.pre && g.pre[v] <= g.Done({}, k)
  {
    if v in g.Done({}, k - 1) { DoneClosed(g, k - 1, v); }
  }

  lemma NextStage(g: Graph, out: seq<Id>, queue: seq<Id>, k: nat)
    requires KahnInv(g, out, queue) && Elems(out) == g.Done({}, k)
    ensures Elems(out + queue) == g.Done({}, k + 1)
  {
    hide Distinct, PrerequisitesFirst;
    forall v ensures v in Elems(out + queue) <==> v in g.Done({}, k + 1) {
      if v in g.Done({}, k) { DoneClosed(g, k, v); }
    }
  }

  lemma WholeStage(g: Graph, all: seq<Id>, j: nat)
    requires Distinct(all) && Elems(all) == g.Done({}, j)
    ensures StagePrefix(g, all, j) && |g.Done({}, j)| == |all|
  {
    hide Distinct, Graph.Done;
    DistinctCard(all);
    assert all[..|all|] == all;
  }

  lemma EmittedStage(g: Graph, out: seq<Id>, queue: seq<Id>, j: nat)
    requires StagePrefix(g, out + queue, j) && |out| == |g.Done({}, j)|
    ensures Elems(out) == g.Done({}, j)
  {
    assert (out + queue)[..|out|] == out;
  }

  lemma StageBoundary(g: Graph, out: seq<Id>, queue: seq<Id>, d: nat)
    requires KahnInv(g, out, queue)
    requires StageInv(g, out, queue, d) && |out| == |g.Done({}, d + 1)|
    ensures StageInv(g, out, queue, d + 1) && |g.Done({}, d + 2)| == |out + queue|
  {
    hide Graph.Done, StagePrefix, Distinct, Frontier, PrerequisitesFirst;
    EmittedStage(g, out, queue, d + 1);
    NextStage(g, out, queue, d + 1);
    WholeStage(g, out + queue, d + 2);
  }

  lemma StageStep(g: Graph, out: seq<Id>, queue: seq<Id>, d: nat)
    requires g.Wf() && KahnInv(g, out, queue) && queue != []
    requires StageInv(g, out, queue, d) && |out| < |g.Done({}, d + 1)|
    ensures StageInv(g, out + [queue[0]], NextQueue(g, out, queue), d)
  {
    hide Graph.Done, KahnInv, StagePrefix, NextQueue;
    KahnStep(g, out, queue);
    var all := out + queue;
    forall i: nat | i <= d + 1
      ensures StagePrefix(g, out + [queue[0]] + NextQueue(g, out, queue), i)
    {
      PrefixGrows(g, all, g.Batch(Released(g, out, queue[0])), i);
    }
  }

  lemma {:induction false} KahnStages(g: Graph, out: seq<Id>, queue: seq<Id>, d: nat, j: nat)
    requires g.Wf() && KahnInv(g, out, queue) && StageInv(g, out, queue, d)
    ensures StagePrefix(g, KahnFrom(g, out, queue), j)
    decreases |g.pre.Keys| - |out|, if j > d then j - d else 0
  {
    hide KahnInv, NextQueue, StageInv, StagePrefix, Graph.Done, Graph.Batch, Graph.Wf;
    StageReach(g, out, queue, d);
    if queue == [] {
      assert out + queue == out;
      if j > d + 1 {
        StageBoundary(g, out, queue, d);
        KahnStages(g, out, queue, d + 1, j);
      } else {
        StageWithin(g, out, queue, d, j);
      }
    } else {
      var d' := d;
      if |out| == |g.Done({}, d + 1)| {
        StageBoundary(g, out, queue, d);
        d' := d + 1;
      }
      StageReach(g, out, queue, d');
      KahnStep(g, out, queue);
      StageStep(g, out, queue, d');
      KahnStages(g, out + [queue[0]], NextQueue(g, out, queue), d', j);
    }
  }

  lemma StageReach(g: Graph, out: seq<Id>, queue: seq<Id>, d: nat)
    requires StageInv(g, out, queue, d)
    ensures |out| <= |g.Done({}, d + 1)| <= |out + queue|
  {
    hide Graph.Done;
    assert StagePrefix(g, out + queue, d + 1);
  }

  lemma StageWithin(g: Graph, out: seq<Id>, queue: seq<Id>, d: nat, j: nat)
    requires StageInv(g, out, queue, d) && j <= d + 1
    ensures StagePrefix(g, out + queue, j)
  {}

  // The position at which wave `k` starts when the waves are laid end to end.
  function Offset(ws: seq<seq<Id>>, k: nat): nat
    requires k <= |ws|
  {
    if k == 0 then 0 else Offset(ws, k - 1) + |ws[k - 1]|
  }

  lemma DoneGrows(g: Graph, c: set<Id>, k: nat)
    ensures g.Done(c, k + 1) == g.Done(c, k) + g.Ready(g.Done(c, k))
    ensures |g.Done(c, k + 1)| == |g.Done(c, k)| + |g.Ready(g.Done(c, k))|
  {
    ReadyIsKnown(g, g.Done(c, k));
  }

  lemma {:induction false} OffsetIsDone(g: Graph, k: nat)
    requires g.Wf() && k <= |g.Waves({})|
    ensures Offset(g.Waves({}), k) == |g.Done({}, k)|
  {
    hide Graph.Waves, Graph.Ready, Graph.Wf, Sorted, Distinct;
    if k > 0 {
      OffsetIsDone(g, k - 1);
      WaveAt(g, {}, k - 1);
      DistinctCard(g.Waves({})[k - 1]);
      DoneGrows(g, {}, k - 1);
    }
  }

  lemma StageStart(g: Graph)
    requires g.Wf()
    ensures KahnInv(g, [], g.Wave({})) && StageInv(g, [], g.Wave({}), 0)
  {
    hide Distinct, Frontier, Graph.Done, Graph.Wf, Graph.Wave, StagePrefix;
    var all := [] + g.Wave({});
    KahnStart(g);
    FirstStages(g);
    NextStage(g, [], g.Wave({}), 0);
    WholeStage(g, all, 1);
    EmptyStage(g, all);
  }

  lemma FirstStages(g: Graph)
    ensures g.Done({}, 0) == {} == Elems<Id>([])
  {}

  lemma EmptyStage(g: Graph, all: seq<Id>)
    ensures StagePrefix(g, all, 0)
  {
    assert all[..0] == [];
  }

  lemma SliceElems<T>(s: seq<T>, a: nat, b: nat)
    requires Distinct(s) && a <= b <= |s|
    ensures Distinct(s[a..b]) && Elems(s[a..b]) == Elems(s[..b]) - Elems(s[..a])
  {
    assert s[..b] == s[..a] + s[a..b];
    forall x | x in s[a..b] ensures x !in s[..a] {
      var i :| 0 <= i < |s[a..b]| && s[a..b][i] == x;
      assert s[a + i] == x;
    }
  }

  lemma StageSlice(g: Graph, flat: seq<Id>, k: nat)
    requires g.Wf() && k < |g.Waves({})| && Distinct(flat)
    requires StagePrefix(g, flat, k) && StagePrefix(g, flat, k + 1)
    ensures |g.Done({}, k)| <= |g.Done({}, k + 1)| <= |flat|
    ensures multiset(flat[|g.Done({}, k)|..|g.Done({}, k + 1)|]) == multiset(g.Waves({})[k])
  {
    hide Graph.Done, Graph.Ready, Graph.Waves, Sorted, Distinct, Graph.Wf;
    var a, b := |g.Done({}, k)|, |g.Done({}, k + 1)|;
    DoneGrows(g, {}, k);
    ReadyIsKnown(g, g.Done({}, k));
    SliceElems(flat, a, b);
    WaveAt(g, {}, k);
    DistinctMultiset(flat[a..b]);
    DistinctMultiset(g.Waves({})[k]);
  }

  lemma StageOf(g: Graph, j: nat)
    requires g.Wf()
    ensures StagePrefix(g, KahnOrder(g), j)
  {
    hide Graph.Wf, KahnInv, StageInv, StagePrefix, Graph.Wave, Graph.Done;
    StageStart(g);
    KahnStages(g, [], g.Wave({}), 0, j);
  }

  // The flat order is the concatenation of the execution waves, up to reordering inside
  // each wave; on a cyclic graph this holds of the partial results.
  lemma KahnFollowsWaves(g: Graph, k: nat)
    requires g.Wf() && k < |g.Waves({})|
    ensures var ws, flat := g.Waves({}), KahnOrder(g);
      && Offset(ws, k) <= Offset(ws, k + 1) <= |flat| == Offset(ws, |ws|)
      && multiset(flat[Offset(ws, k)..Offset(ws, k + 1)]) == multiset(ws[k])
  {
    hide *;
    TopologicalOrder(g);
    StageOf(g, k);
    StageOf(g, k + 1);
    OffsetIsDone(g, k);
    OffsetIsDone(g, k + 1);
    StageSlice(g, KahnOrder(g), k);
    KahnLength(g);
  }

  lemma KahnLength(g: Graph)
    requires g.Wf()
    ensures |KahnOrder(g)| == Offset(g.Waves({}), |g.Waves({})|)
  {
    hide *;
    var n := |g.Waves({})|;
    StageOf(g, n);
    OffsetIsDone(g, n);
    WavesEnd(g, {});
    KahnResult(g);
    NothingBeyond(g, KahnOrder(g), n);
  }

  lemma NothingBeyond(g: Graph, flat: seq<Id>, n: nat)
    requires g.Ready(g.Done({}, n)) == {} && StagePrefix(g, flat, n)
    requires Distinct(flat) && PrerequisitesFirst(g.pre, flat) && Elems(flat) <= g.pre.Keys && g.Wf()
    ensures |flat| == |g.Done({}, n)|
  {
    hide Distinct, PrerequisitesFirst, Graph.Wf, Graph.Ready, Graph.Done;
    var d := g.Done({}, n);
    assert flat[..|flat|] == flat;
    if |d| < |flat| {
      FirstBeyond(g, flat, d);
    }
  }

  lemma FirstBeyond(g: Graph, flat: seq<Id>, d: set<Id>)
    requires g.Wf() && Distinct(flat) && PrerequisitesFirst(g.pre, flat) && Elems(flat) <= g.pre.Keys
    requires |d| < |flat| && Elems(flat[..|d|]) == d
    ensures flat[|d|] in g.Ready(d)
  {
    var v := flat[|d|];
    assert v in Elems(flat);
    assert g.pre[v] * g.pre.Keys == g.pre[v];
    assert v !in flat[..|d|];
    assert v !in Elems(flat[..|d|]);
  }

  // -------------------------------------------------------- the in-degree counters

  function Missing(g: Graph, w: Id, emitted: set<Id>): set<Id>
    requires w in g.pre
  {
    g.pre[w] - emitted
  }

  // Every counter holds the number of distinct prerequisites that are not yet emitted,
  // so an edge that is both hard and soft counts once.
  ghost predicate Counts(g: Graph, inDegree: map<Id, int>, out: seq<Id>) {
    && inDegree.Keys == g.pre.Keys
    && forall w | w in g.pre :: inDegree[w] == |Missing(g, w, Elems(out))|
  }

  // In the middle of the decrement loop for `v`: the dependents in `done` are one lower,
  // and `ready` lists those that dropped to zero.
  ghost predicate Counting(g: Graph, inDegree: map<Id, int>, out: seq<Id>, v: Id, done: set<Id>, ready: seq<Id>) {
    && inDegree.Keys == g.pre.Keys
    && (forall w | w in g.pre ::
         inDegree[w] == |Missing(g, w, Elems(out))| - (if w in done then 1 else 0))
    && Distinct(ready) && Elems(ready) == done * Released(g, out, v)
  }

  lemma LastOne<T>(s: set<T>, x: T)
    requires x in s
    ensures |s - {x}| == |s| - 1
    ensures |s| == 1 <==> s == {x}
  {
    if |s| == 1 {
      assert |s - {x}| == 0;
    }
  }

  lemma CountingStart(g: Graph, inDegree: map<Id, int>, out: seq<Id>, v: Id)
    requires Counts(g, inDegree, out)
    ensures Counting(g, inDegree, out, v, {}, [])
  {
    hide Missing, Released;
    assert Elems<Id>([]) == {};
  }

  lemma MissingOnly(g: Graph, out: seq<Id>, v: Id, w: Id)
    requires w in g.pre && v in g.pre[w] && v !in out
    ensures |Missing(g, w, Elems(out))| == 1 <==> w in Released(g, out, v)
    ensures |Missing(g, w, Elems(out + [v]))| == |Missing(g, w, Elems(out))| - 1
  {
    LastOne(Missing(g, w, Elems(out)), v);
    ConcatElems(out, [v]);
    assert Missing(g, w, Elems(out + [v])) == Missing(g, w, Elems(out)) - {v};
  }

  lemma CountingStep(g: Graph, inDegree: map<Id, int>, out: seq<Id>, v: Id, done: set<Id>, ready: seq<Id>, w: Id)
    requires Counting(g, inDegree, out, v, done, ready)
    requires w in g.pre && v in g.pre[w] && v !in out && w !in done
    ensures w in inDegree
    ensures var lower := inDegree[w := inDegree[w] - 1];
      Counting(g, lower, out, v, done + {w}, if lower[w] == 0 then ready + [w] else ready)
  {
    hide Missing, Released, Distinct;
    MissingOnly(g, out, v, w);
    if inDegree[w] - 1 == 0 {
      DistinctConcat(ready, [w]);
      ConcatElems(ready, [w]);
    }
  }

  lemma CountingDone(g: Graph, inDegree: map<Id, int>, out: seq<Id>, v: Id, done: set<Id>, ready: seq<Id>)
    requires g.Wf() && Counting(g, inDegree, out, v, done, ready) && v !in out
    requires forall w :: w in done <==> w in g.pre && v in g.pre[w]
    ensures Counts(g, inDegree, out + [v])
    ensures Sort(ready, g.Rank()) == g.Batch(Released(g, out, v))
  {
    hide Graph.Batch, Graph.Rank, Graph.Wf, Sort, Distinct, Released;
    ConcatElems(out, [v]);
    forall w | w in g.pre ensures inDegree[w] == |Missing(g, w, Elems(out + [v]))| {
      if w in done {
        MissingOnly(g, out, v, w);
      } else {
        assert Missing(g, w, Elems(out + [v])) == Missing(g, w, Elems(out));
      }
    }
    ReleasedWithin(g, out, v, done);
    SortIsBatch(g, ready);
  }

  lemma ReleasedWithin(g: Graph, out: seq<Id>, v: Id, done: set<Id>)
    requires forall w :: w in done <==> w in g.pre && v in g.pre[w]
    ensures done * Released(g, out, v) == Released(g, out, v) <= g.pre.Keys
  {}

  lemma SortIsBatch(g: Graph, ready: seq<Id>)
    requires g.Wf() && Distinct(ready) && Elems(ready) <= g.pre.Keys
    ensures Sort(ready, g.Rank()) == g.Batch(Elems(ready))
  {
    hide Distinct, Sort, TotalOrder, Graph.Rank;
    RankTotal(g);
    SelectElems(g.order, Elems(ready));
    SortCanonical(ready, Select(g.order, Elems(ready)), g.Rank());
  }

  lemma ZeroDegree(g: Graph, inDegree: map<Id, int>, w: Id)
    requires Counts(g, inDegree, []) && w in g.pre
    ensures inDegree[w] == 0 <==> w in g.Ready({})
  {
    assert Missing(g, w, Elems([])) == g.pre[w];
  }

  // `out` and `queue` are a stage of the run that ends in `KahnOrder`.
  ghost predicate Progress(g: Graph, out: seq<Id>, queue: seq<Id>) {
    g.Wf() && KahnInv(g, out, queue) && KahnFrom(g, out, queue) == KahnOrder(g)
  }

  lemma ProgressStart(g: Graph, zero: seq<Id>)
    requires g.Wf() && zero == Select(g.order, g.Ready({}))
    ensures Progress(g, [], Sort(zero, g.Rank()))
  {
    KahnStart(g);
  }

  lemma ProgressStep(g: Graph, out: seq<Id>, queue: seq<Id>)
    requires Progress(g, out, queue) && queue != []
    ensures queue[0] in g.pre && queue[0] !in out && |out| < |g.pre.Keys|
    ensures Progress(g, out + [queue[0]], queue[1..] + g.Batch(Released(g, out, queue[0])))
  {
    hide Graph.Wf, Graph.Batch, Released, Frontier, Distinct, PrerequisitesFirst;
    HeadNotEmitted(g, out, queue);
    KahnStep(g, out, queue);
  }

  lemma ProgressEnd(g: Graph, out: seq<Id>)
    requires Progress(g, out, [])
    ensures out == KahnOrder(g)
    ensures |out| == |g.pre.Keys| <==> !Cyclic(g.pre)
  {
    hide KahnInv, Graph.Wf, Cyclic;
    TopologicalOrder(g);
  }
}
