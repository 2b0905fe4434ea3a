/** The order inside one level of `topological_sort`: each issue is appended with the issue
    that released it, so a level is in (priority, id) order only when the releases are. */
module KahnLevels {
  import opened Ordering
  import opened Digraph
  import opened Schedule
  import opened Kahn

  // `w` becomes ready with the n-th emitted issue.
  ghost predicate ReleasedAt(g: Graph, out: seq<Id>, w: Id, n: nat) {
    && w in g.pre && n <= |out|
    && g.pre[w] <= Elems(out[..n])
    && (n > 0 ==> !(g.pre[w] <= Elems(out[..n - 1])))
  }

  // `all` is ordered by release, and by (priority, id) among issues released together.
  ghost predicate ByRelease(g: Graph, out: seq<Id>, all: seq<Id>) {
    forall i, j, m: nat, n: nat
      | 0 <= i < j < |all| && ReleasedAt(g, out, all[i], m) && ReleasedAt(g, out, all[j], n) ::
      m < n || (m == n && g.Rank()(all[i], all[j]))
  }

  lemma PrefixElems(out: seq<Id>, n: nat)
    requires n <= |out|
    ensures Elems(out[..n]) <= Elems(out)
  {}

  // One more emitted issue leaves the releases of the listed issues alone.
  lemma OldRelease(g: Graph, out: seq<Id>, v: Id, w: Id, n: nat)
    requires w in g.pre && g.pre[w] <= Elems(out)
    ensures ReleasedAt(g, out + [v], w, n) ==> ReleasedAt(g, out, w, n)
  {
    var next := out + [v];
    assert next[..|out|] == out;
    if ReleasedAt(g, next, w, n) {
      if n <= |out| {
        assert next[..n] == out[..n];
        assert n > 0 ==> next[..n - 1] == out[..n - 1];
      }
    }
  }

  lemma NewRelease(g: Graph, out: seq<Id>, v: Id, w: Id, n: nat)
    requires w in g.pre && !(g.pre[w] <= Elems(out))
    ensures ReleasedAt(g, out + [v], w, n) ==> n == |out| + 1
  {
    var next := out + [v];
    forall k: nat | k <= |out| ensures Elems(next[..k]) <= Elems(out) {
      assert next[..k] == out[..k];
      PrefixElems(out, k);
    }
  }

  lemma ReleaseStep(g: Graph, out: seq<Id>, queue: seq<Id>)
    requires g.Wf() && KahnInv(g, out, queue) && queue != [] && ByRelease(g, out, out + queue)
    ensures ByRelease(g, out + [queue[0]], out + queue + g.Batch(Released(g, out, queue[0])))
  {
    hide Distinct, PrerequisitesFirst, Graph.Batch, Graph.Rank, ReleasedAt;
    var v, freed := queue[0], Released(g, out, queue[0]);
    var before, batch := out + queue, g.Batch(freed);
    var next, all := out + [v], out + queue + batch;
    BatchElems(g, freed);
    ReleasedIsNew(g, out, queue);
    ReleasedKnown(g, out, v);
    forall i | 0 <= i < |before| ensures all[i] == before[i] && all[i] in g.pre && g.pre[all[i]] <= Elems(out) {
      assert before[i] in Elems(before);
    }
    forall i | |before| <= i < |all|
      ensures all[i] == batch[i - |before|] && all[i] in g.pre && !(g.pre[all[i]] <= Elems(out))
    {
      assert batch[i - |before|] in Elems(batch);
      assert all[i] !in Elems(before);
    }
    forall i, j, m: nat, n: nat | 0 <= i < j < |all| && ReleasedAt(g, next, all[i], m) && ReleasedAt(g, next, all[j], n)
      ensures m < n || (m == n && g.Rank()(all[i], all[j]))
    {
      ReleasePair(g, out, v, before, batch, i, j, m, n);
    }
  }

  lemma ReleasePair(g: Graph, out: seq<Id>, v: Id, before: seq<Id>, batch: seq<Id>, i: nat, j: nat, m: nat, n: nat)
    requires i < j < |before + batch| && ByRelease(g, out, before) && Sorted(batch, g.Rank())
    requires forall k | 0 <= k < |before| :: before[k] in g.pre && g.pre[before[k]] <= Elems(out)
    requires forall k | 0 <= k < |batch| :: batch[k] in g.pre && !(g.pre[batch[k]] <= Elems(out))
    requires ReleasedAt(g, out + [v], (before + batch)[i], m) && ReleasedAt(g, out + [v], (before + batch)[j], n)
    ensures m < n || (m == n && g.Rank()((before + batch)[i], (before + batch)[j]))
  {
    hide Graph.Rank;
    var x, y := (before + batch)[i], (before + batch)[j];
    if i < |before| {
      OldRelease(g, out, v, x, m);
    } else {
      NewRelease(g, out, v, x, m);
    }
    if j < |before| {
      OldRelease(g, out, v, y, n);
    } else {
      NewRelease(g, out, v, y, n);
      if i >= |before| {
        assert x == batch[i - |before|] && y == batch[j - |before|];
      }
    }
  }

  lemma ReleaseStart(g: Graph)
    requires g.Wf()
    ensures ByRelease(g, [], [] + g.Wave({}))
  {
    hide Graph.Wave, Graph.Rank;
    WaveSorted(g);
    assert [] + g.Wave({}) == g.Wave({});
  }

  lemma WaveSorted(g: Graph)
    requires g.Wf()
    ensures Sorted(g.Wave({}), g.Rank())
  {
    BatchElems(g, g.Ready({}));
  }

  lemma {:induction false} ReleaseFinal(g: Graph, out: seq<Id>, queue: seq<Id>)
    requires g.Wf() && KahnInv(g, out, queue) && ByRelease(g, out, out + queue)
    ensures ByRelease(g, KahnFrom(g, out, queue), KahnFrom(g, out, queue))
    decreases |g.pre.Keys| - |out|
  {
    hide KahnInv, Graph.Wf, NextQueue, ByRelease;
    if queue == [] {
      assert out + queue == out;
    } else {
      KahnStep(g, out, queue);
      ReleaseStep(g, out, queue);
      ReleaseFinal(g, out + [queue[0]], NextQueue(g, out, queue));
    }
  }

  // The flat order is the one order of its issues that goes by release, and by
  // (priority, id) among issues released by the same prerequisite.
  lemma OrderedByRelease(g: Graph)
    requires g.Wf()
    ensures ByRelease(g, KahnOrder(g), KahnOrder(g))
  {
    hide KahnInv, Graph.Wf, ByRelease, Graph.Wave;
    KahnStart(g);
    ReleaseStart(g);
    ReleaseFinal(g, [], g.Wave({}));
  }

  // Every listed issue is released by some earlier one, or was ready from the start.
  lemma ReleaseExists(g: Graph, flat: seq<Id>, i: nat) returns (n: nat)
    requires g.Wf() && PrerequisitesFirst(g.pre, flat) && i < |flat| && flat[i] in g.pre
    ensures n <= i && ReleasedAt(g, flat, flat[i], n)
  {
    assert g.pre[flat[i]] * g.pre.Keys == g.pre[flat[i]];
    n := LeastPrefix(flat, g.pre[flat[i]], i);
  }

  lemma {:induction false} LeastPrefix(flat: seq<Id>, s: set<Id>, i: nat) returns (n: nat)
    requires i <= |flat| && s <= Elems(flat[..i])
    ensures n <= i && s <= Elems(flat[..n]) && (n > 0 ==> !(s <= Elems(flat[..n - 1])))
  {
    if i > 0 && s <= Elems(flat[..i - 1]) {
      n := LeastPrefix(flat, s, i - 1);
    } else {
      n := i;
    }
  }

  // No issue of the wave is released before another that ranks ahead of it.
  ghost predicate ReleasesFollowRank(g: Graph, flat: seq<Id>, wave: seq<Id>) {
    forall x, y, m: nat, n: nat | x in wave && y in wave && g.Rank()(x, y) && x != y
      && ReleasedAt(g, flat, x, m) && ReleasedAt(g, flat, y, n) :: m <= n
  }

  // The waves laid end to end.
  function Concat(ws: seq<seq<Id>>): seq<Id> {
    if ws == [] then [] else Concat(ws[..|ws| - 1]) + ws[|ws| - 1]
  }

  // Every level of the flat order is sorted by (priority, id), which makes it the
  // concatenation of the execution waves, exactly when the releases inside each wave,
  // read off that concatenation, follow the sort order.
  lemma LevelsSortedIff(g: Graph)
    requires g.Wf()
    ensures KahnOrder(g) == Concat(g.Waves({}))
        <==> forall k | 0 <= k < |g.Waves({})| :: ReleasesFollowRank(g, Concat(g.Waves({})), g.Waves({})[k])
  {
    hide *;
    var ws, flat := g.Waves({}), KahnOrder(g);
    var all := Concat(ws);
    ConcatLength(ws);
    KahnLength(g);
    if flat == all {
      forall k | 0 <= k < |ws| ensures ReleasesFollowRank(g, all, ws[k]) {
        ConcatSlice(ws, k);
        LevelSortedIff(g, k);
      }
    }
    if forall k | 0 <= k < |ws| :: ReleasesFollowRank(g, all, ws[k]) {
      LevelsAgree(g, |ws|);
      assert flat[..|flat|] == flat && all[..|all|] == all;
    }
  }

  lemma {:induction false} LevelsAgree(g: Graph, k: nat)
    requires g.Wf() && k <= |g.Waves({})|
    requires forall i | 0 <= i < k :: ReleasesFollowRank(g, Concat(g.Waves({})), g.Waves({})[i])
    ensures Offset(g.Waves({}), k) <= |KahnOrder(g)| && Offset(g.Waves({}), k) <= |Concat(g.Waves({}))|
    ensures KahnOrder(g)[..Offset(g.Waves({}), k)] == Concat(g.Waves({}))[..Offset(g.Waves({}), k)]
  {
    hide Graph.Waves, Concat, KahnOrder, ReleasesFollowRank, Graph.Wf;
    var ws, flat := g.Waves({}), KahnOrder(g);
    var all := Concat(ws);
    if k > 0 {
      LevelsAgree(g, k - 1);
      ConcatSlice(ws, k - 1);
      LevelSortedIff(g, k - 1);
      ReleasesAgree(g, k - 1);
      Joined(flat, all, Offset(ws, k - 1), Offset(ws, k));
    }
  }

  lemma Joined(x: seq<Id>, y: seq<Id>, a: nat, b: nat)
    requires a <= b <= |x| && b <= |y| && x[..a] == y[..a] && x[a..b] == y[a..b]
    ensures x[..b] == y[..b]
  {
    assert x[..b] == x[..a] + x[a..b] && y[..b] == y[..a] + y[a..b];
  }

  // The releases of wave k lie in the earlier waves.
  lemma ReleasesAgree(g: Graph, k: nat)
    requires g.Wf() && k < |g.Waves({})|
    requires Offset(g.Waves({}), k) <= |KahnOrder(g)| && Offset(g.Waves({}), k) <= |Concat(g.Waves({}))|
    requires KahnOrder(g)[..Offset(g.Waves({}), k)] == Concat(g.Waves({}))[..Offset(g.Waves({}), k)]
    requires ReleasesFollowRank(g, Concat(g.Waves({})), g.Waves({})[k])
    ensures ReleasesFollowRank(g, KahnOrder(g), g.Waves({})[k])
  {
    hide Graph.Waves, Concat, KahnOrder, Graph.Wf, ReleasedAt, Graph.Rank;
    var wave, flat, all := g.Waves({})[k], KahnOrder(g), Concat(g.Waves({}));
    forall x, m: nat | x in wave && ReleasedAt(g, flat, x, m) ensures ReleasedAt(g, all, x, m) {
      WaveReleased(g, k, x);
      SameRelease(g, flat, all, Offset(g.Waves({}), k), x, m);
    }
  }

  lemma WaveReleased(g: Graph, k: nat, x: Id)
    requires g.Wf() && k < |g.Waves({})| && x in g.Waves({})[k] && Offset(g.Waves({}), k) <= |KahnOrder(g)|
    ensures x in g.pre && g.pre[x] <= Elems(KahnOrder(g)[..Offset(g.Waves({}), k)])
  {
    hide Graph.Waves, KahnOrder, Graph.Done, Graph.Wf, Sorted, Distinct;
    WaveAt(g, {}, k);
    assert x in Elems(g.Waves({})[k]);
    StageOf(g, k);
    OffsetIsDone(g, k);
  }

  lemma SameRelease(g: Graph, x: seq<Id>, y: seq<Id>, b: nat, w: Id, m: nat)
    requires b <= |x| && b <= |y| && x[..b] == y[..b] && w in g.pre && g.pre[w] <= Elems(x[..b])
    requires ReleasedAt(g, x, w, m)
    ensures ReleasedAt(g, y, w, m)
  {
    ReleaseBound(g, x, b, w, m);
    assert x[..m] == x[..b][..m] && y[..m] == y[..b][..m];
    if m > 0 {
      assert x[..m - 1] == x[..b][..m - 1] && y[..m - 1] == y[..b][..m - 1];
    }
  }

  lemma ReleaseBound(g: Graph, x: seq<Id>, b: nat, w: Id, m: nat)
    requires b <= |x| && w in g.pre && g.pre[w] <= Elems(x[..b]) && ReleasedAt(g, x, w, m)
    ensures m <= b
  {
    forall n: nat | b <= n <= |x| ensures g.pre[w] <= Elems(x[..n]) {
      assert x[..b] == x[..n][..b];
      PrefixElems(x[..n], b);
    }
  }

  lemma {:induction false} ConcatLength(ws: seq<seq<Id>>)
    ensures |Concat(ws)| == Offset(ws, |ws|)
  {
    if ws != [] {
      ConcatLength(ws[..|ws| - 1]);
      OffsetPrefix(ws, |ws| - 1, |ws| - 1);
    }
  }

  lemma {:induction false} OffsetPrefix(ws: seq<seq<Id>>, n: nat, k: nat)
    requires k <= n <= |ws|
    ensures Offset(ws[..n], k) == Offset(ws, k)
  {
    if k > 0 {
      OffsetPrefix(ws, n, k - 1);
    }
  }

  lemma {:induction false} ConcatSlice(ws: seq<seq<Id>>, k: nat)
    requires k < |ws|
    ensures Offset(ws, k) <= Offset(ws, k + 1) <= |Concat(ws)|
    ensures Concat(ws)[Offset(ws, k)..Offset(ws, k + 1)] == ws[k]
  {
    var init := ws[..|ws| - 1];
    ConcatLength(init);
    if k == |ws| - 1 {
      OffsetPrefix(ws, k, k);
    } else {
      ConcatSlice(init, k);
      OffsetPrefix(ws, |ws| - 1, k);
      OffsetPrefix(ws, |ws| - 1, k + 1);
      assert Concat(ws)[..|Concat(init)|] == Concat(init);
    }
  }

  // The same for one level, with the releases read off the flat order itself.
  lemma LevelSortedIff(g: Graph, k: nat)
    requires g.Wf() && k < |g.Waves({})|
    ensures var ws, flat := g.Waves({}), KahnOrder(g);
      && Offset(ws, k) <= Offset(ws, k + 1) <= |flat|
      && (flat[Offset(ws, k)..Offset(ws, k + 1)] == ws[k] <==> ReleasesFollowRank(g, flat, ws[k]))
  {
    hide *;
    var ws, flat := g.Waves({}), KahnOrder(g);
    KahnFollowsWaves(g, k);
    var a, b := Offset(ws, k), Offset(ws, k + 1);
    KahnResult(g);
    OrderedByRelease(g);
    WaveAt(g, {}, k);
    SliceSortedIff(g, flat, ws[k], a, b);
  }

  lemma SliceSortedIff(g: Graph, flat: seq<Id>, wave: seq<Id>, a: nat, b: nat)
    requires g.Wf() && a <= b <= |flat| && Distinct(flat) && Elems(flat) <= g.pre.Keys
    requires PrerequisitesFirst(g.pre, flat) && ByRelease(g, flat, flat)
    requires Distinct(wave) && Sorted(wave, g.Rank()) && multiset(flat[a..b]) == multiset(wave)
    ensures flat[a..b] == wave <==> ReleasesFollowRank(g, flat, wave)
  {
    hide *;
    RankTotal(g);
    SliceElems(flat, a, b);
    SameMultiset(flat[a..b], wave);
    if flat[a..b] == wave {
      SortedFollows(g, flat, wave, a, b);
    }
    if ReleasesFollowRank(g, flat, wave) {
      FollowsSorted(g, flat, wave, a, b);
      SortedUnique(flat[a..b], wave, g.Rank());
    }
  }

  lemma SortedFollows(g: Graph, flat: seq<Id>, wave: seq<Id>, a: nat, b: nat)
    requires a <= b <= |flat| && flat[a..b] == wave && Sorted(wave, g.Rank()) && TotalOrder(g.Rank())
    requires ByRelease(g, flat, flat)
    ensures ReleasesFollowRank(g, flat, wave)
  {
    hide ReleasedAt, Graph.Rank;
    var rank := g.Rank();
    forall x, y, m: nat, n: nat | x in wave && y in wave && rank(x, y) && x != y
      && ReleasedAt(g, flat, x, m) && ReleasedAt(g, flat, y, n)
      ensures m <= n
    {
      var i :| 0 <= i < |wave| && wave[i] == x;
      var j :| 0 <= j < |wave| && wave[j] == y;
      assert flat[a + i] == x && flat[a + j] == y;
      assert j < i ==> rank(y, x);
    }
  }

  lemma FollowsSorted(g: Graph, flat: seq<Id>, wave: seq<Id>, a: nat, b: nat)
    requires g.Wf() && a <= b <= |flat| && Elems(flat[a..b]) == Elems(wave) && Elems(flat) <= g.pre.Keys
    requires PrerequisitesFirst(g.pre, flat) && TotalOrder(g.Rank())
    requires ByRelease(g, flat, flat) && ReleasesFollowRank(g, flat, wave)
    ensures Sorted(flat[a..b], g.Rank())
  {
    hide ReleasedAt, Graph.Rank, PrerequisitesFirst, Graph.Wf;
    var rank, s := g.Rank(), flat[a..b];
    forall i, j | 0 <= i < j < |s| ensures rank(s[i], s[j]) {
      assert s[i] == flat[a + i] && s[j] == flat[a + j];
      assert s[i] in Elems(s) && s[j] in Elems(s);
      assert flat[a + i] in Elems(flat) && flat[a + j] in Elems(flat);
      var m := ReleaseExists(g, flat, a + i);
      var n := ReleaseExists(g, flat, a + j);
    }
  }

  // A (priority 1) holds back X (priority 5), and B (priority 2) holds back Y (priority 0).
  const EXAMPLE := Graph(["A", "B", "X", "Y"], map["A" := 1, "B" := 2, "X" := 5, "Y" := 0],
                         map["A" := {}, "B" := {}, "X" := {"A"}, "Y" := {"B"}])

  // X and Y are on the same level and Y ranks ahead of X, yet the flat order lists X first.
  lemma LevelOutOfOrder()
    ensures EXAMPLE.Wf() && EXAMPLE.Rank()("Y", "X") && !EXAMPLE.Rank()("X", "Y")
    ensures "X" in EXAMPLE.Ready(EXAMPLE.Done({}, 1)) && "Y" in EXAMPLE.Ready(EXAMPLE.Done({}, 1))
    ensures exists i, j ::
      0 <= i < j < |KahnOrder(EXAMPLE)| && KahnOrder(EXAMPLE)[i] == "X" && KahnOrder(EXAMPLE)[j] == "Y"
  {
    hide KahnOrder, Distinct;
    ExampleShape();
    ExampleListed();
    var flat := KahnOrder(EXAMPLE);
    OrderedByRelease(EXAMPLE);
    var a :| 0 <= a < |flat| && flat[a] == "A";
    var b :| 0 <= b < |flat| && flat[b] == "B";
    var x :| 0 <= x < |flat| && flat[x] == "X";
    var y :| 0 <= y < |flat| && flat[y] == "Y";
    ExampleReleases(flat, a, b, x, y);
    assert 0 <= x < y < |flat|;
  }

  lemma ExampleShape()
    ensures EXAMPLE.Wf() && EXAMPLE.Rank()("Y", "X") && !EXAMPLE.Rank()("X", "Y")
    ensures EXAMPLE.Rank()("A", "B") && !EXAMPLE.Rank()("B", "A")
    ensures "X" in EXAMPLE.Ready(EXAMPLE.Done({}, 1)) && "Y" in EXAMPLE.Ready(EXAMPLE.Done({}, 1))
  {
    ExampleReady();
    ExamplePriorities();
  }

  lemma ExamplePriorities()
    ensures EXAMPLE.Prio("A") == 1 && EXAMPLE.Prio("B") == 2 && EXAMPLE.Prio("X") == 5 && EXAMPLE.Prio("Y") == 0
  {
    assert "A"[0] != "B"[0] && "A"[0] != "X"[0] && "A"[0] != "Y"[0];
    assert "B"[0] != "X"[0] && "B"[0] != "Y"[0] && "X"[0] != "Y"[0];
  }

  lemma ExampleReady()
    ensures "X" in EXAMPLE.Ready(EXAMPLE.Done({}, 1)) && "Y" in EXAMPLE.Ready(EXAMPLE.Done({}, 1))
  {
    hide Graph.Rank, Graph.Batch, Graph.Wf;
    assert EXAMPLE.Done({}, 0) == {};
    assert "A" in EXAMPLE.Ready({}) && "B" in EXAMPLE.Ready({});
    assert EXAMPLE.Done({}, 1) == EXAMPLE.Ready({});
  }

  lemma ExampleOrder()
    ensures PrerequisitesFirst(EXAMPLE.pre, EXAMPLE.order)
  {
    var o := EXAMPLE.order;
    assert o[..0] == [] && o[..1] == ["A"] && o[..2] == ["A", "B"] && o[..3] == ["A", "B", "X"];
  }

  lemma ExampleListed()
    ensures EXAMPLE.Wf() && Distinct(KahnOrder(EXAMPLE))
    ensures forall v | v in EXAMPLE.pre :: v in KahnOrder(EXAMPLE)
  {
    hide KahnOrder, Distinct, Graph.Wf, PrerequisitesFirst;
    ExampleShape();
    ExampleOrder();
    var flat := KahnOrder(EXAMPLE);
    TopologicalOrder(EXAMPLE);
    OrderedMeansAcyclic(EXAMPLE.pre, EXAMPLE.order);
    assert forall v | v in EXAMPLE.pre :: v in multiset(flat);
  }

  lemma ExampleReleases(flat: seq<Id>, a: nat, b: nat, x: nat, y: nat)
    requires Distinct(flat) && ByRelease(EXAMPLE, flat, flat)
    requires a < |flat| && b < |flat| && x < |flat| && y < |flat|
    requires flat[a] == "A" && flat[b] == "B" && flat[x] == "X" && flat[y] == "Y"
    ensures x < y
  {
    hide Graph.Rank;
    ExampleShape();
    assert ReleasedAt(EXAMPLE, flat, flat[a], 0) && ReleasedAt(EXAMPLE, flat, flat[b], 0);
    assert a < b;
    ReleasedBy(flat, a, x);
    ReleasedBy(flat, b, y);
  }

  lemma ReleasedBy(flat: seq<Id>, i: nat, j: nat)
    requires Distinct(flat) && i < |flat| && j < |flat| && flat[j] in EXAMPLE.pre && EXAMPLE.pre[flat[j]] == {flat[i]}
    ensures ReleasedAt(EXAMPLE, flat, flat[j], i + 1)
  {
    ElemsSnoc(flat, i);
    assert forall k | 0 <= k < i :: flat[..i][k] == flat[k];
    assert flat[i] !in flat[..i];
  }
}
