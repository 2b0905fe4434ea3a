/** Walks and cycles of a finite prerequisite relation.  `g[v]` is the set of
    prerequisites of `v`; names outside `g.Keys` are ignored by every walk. */
module Digraph {
  import opened Ordering

  type Id = string
  type Adj = map<Id, set<Id>>

  ghost predicate IsWalk(g: Adj, p: seq<Id>) {
    && |p| >= 1
    && (forall i | 0 <= i < |p| :: p[i] in g)
    && (forall i | 0 <= i < |p| - 1 :: p[i + 1] in g[p[i]])
  }

  ghost predicate Within(p: seq<Id>, s: set<Id>) {
    forall i | 0 <= i < |p| :: p[i] in s
  }

  ghost predicate IsCycle(g: Adj, p: seq<Id>) {
    IsWalk(g, p) && |p| >= 2 && p[0] == p[|p| - 1]
  }

  // A closed walk that repeats no node besides its equal ends.
  ghost predicate IsSimpleCycle(g: Adj, p: seq<Id>) {
    IsCycle(g, p) && Distinct(p[1..])
  }

  ghost predicate CyclicWithin(g: Adj, s: set<Id>) {
    exists p :: IsCycle(g, p) && Within(p, s)
  }

  ghost predicate Cyclic(g: Adj) {
    CyclicWithin(g, g.Keys)
  }

  ghost predicate Walks(g: Adj, p: seq<Id>, a: Id, b: Id) {
    IsWalk(g, p) && p[0] == a && p[|p| - 1] == b
  }

  lemma ConsWalk(g: Adj, v: Id, p: seq<Id>)
    requires v in g && IsWalk(g, p) && p[0] in g[v]
    ensures IsWalk(g, [v] + p)
  {
    var q := [v] + p;
    forall i | 0 <= i < |q| - 1 ensures q[i + 1] in g[q[i]] {
      if i > 0 { assert q[i] == p[i - 1] && q[i + 1] == p[i]; }
    }
  }

  lemma SliceWalk(g: Adj, p: seq<Id>, i: nat, j: nat)
    requires IsWalk(g, p) && i < j <= |p|
    ensures IsWalk(g, p[i..j])
  {}

  lemma SnocWalk(g: Adj, p: seq<Id>, w: Id)
    requires IsWalk(g, p) && w in g && w in g[p[|p| - 1]]
    ensures IsWalk(g, p + [w])
  {}

  // A repeated node on an extended distinct walk closes a simple cycle.
  lemma ClosingEdge(g: Adj, p: seq<Id>, i: nat)
    requires IsWalk(g, p) && Distinct(p) && i < |p| && p[i] in g[p[|p| - 1]]
    ensures IsSimpleCycle(g, p[i..] + [p[i]])
  {
    SliceWalk(g, p, i, |p|);
    SnocWalk(g, p[i..], p[i]);
    var c := p[i..] + [p[i]];
    assert c[1..] == p[i + 1..] + [p[i]];
  }

  lemma CyclicMonotone(g: Adj, s: set<Id>, t: set<Id>)
    requires s <= t && CyclicWithin(g, s)
    ensures CyclicWithin(g, t)
  {
    var p :| IsCycle(g, p) && Within(p, s);
    assert Within(p, t);
  }

  lemma RepeatMeansCyclic(g: Adj, p: seq<Id>, i: nat)
    requires IsWalk(g, p) && Distinct(p) && i < |p| && p[i] in g[p[|p| - 1]]
    ensures Cyclic(g)
  {
    ClosingEdge(g, p, i);
    assert Within(p[i..] + [p[i]], g.Keys);
  }

  // The pigeonhole principle for walks: a non-empty set in which every node has a
  // prerequisite of its own contains a cycle.
  lemma NoSinkMeansCycle(g: Adj, s: set<Id>)
    requires s != {} && s <= g.Keys
    requires forall v {:trigger g[v]} | v in s :: g[v] * s != {}
    ensures CyclicWithin(g, s)
  {
    var v :| v in s;
    GrowWalk(g, s, [v]);
  }

  lemma {:induction false} GrowWalk(g: Adj, s: set<Id>, p: seq<Id>)
    requires s <= g.Keys && (forall v {:trigger g[v]} | v in s :: g[v] * s != {})
    requires IsWalk(g, p) && Within(p, s) && Distinct(p)
    ensures CyclicWithin(g, s)
    decreases |s| - |p|
  {
    var w :| w in g[p[|p| - 1]] * s;
    DistinctWithin(p, s);
    if w in p {
      var i :| 0 <= i < |p| && p[i] == w;
      ClosingEdge(g, p, i);
      assert Within(p[i..] + [w], s);
    } else {
      SnocWalk(g, p, w);
      DistinctWithin(p + [w], s);
      GrowWalk(g, s, p + [w]);
    }
  }

  lemma DistinctWithin(p: seq<Id>, s: set<Id>)
    requires Within(p, s) && Distinct(p)
    ensures |p| <= |s|
  {
    DistinctCard(p);
    SubsetCard(Elems(p), s);
  }

  lemma SmallerSet<T>(a: set<T>, b: set<T>)
    requires a < b
    ensures |a| < |b|
  {
    assert b == a + (b - a) && |a + (b - a)| == |a| + |b - a|;
  }

  lemma SubsetCard<T>(a: set<T>, b: set<T>)
    requires a <= b
    ensures |a| <= |b|
  {
    if a != b { SmallerSet(a, b); }
  }

  // Along a list that puts every node's prerequisites before it there is no cycle.
  ghost predicate PrerequisitesFirst(g: Adj, order: seq<Id>) {
    forall i | 0 <= i < |order| ::
      order[i] in g ==> g[order[i]] * g.Keys <= Elems(order[..i])
  }

  lemma {:induction false} OrderedAvoidsCycle(g: Adj, order: seq<Id>, p: seq<Id>, n: nat)
    requires PrerequisitesFirst(g, order) && IsCycle(g, p) && n <= |order|
    ensures forall i | 0 <= i < |p| :: p[i] !in order[..n]
  {
    if n > 0 {
      OrderedAvoidsCycle(g, order, p, n - 1);
      var v := order[n - 1];
      assert order[..n] == order[..n - 1] + [v];
      forall i | 0 <= i < |p| ensures p[i] != v {
        var next := if i < |p| - 1 then p[i + 1] else p[1];
        assert next in g[p[i]] * g.Keys;
        assert next !in Elems(order[..n - 1]);
      }
    }
  }

  lemma OrderedMeansAcyclic(g: Adj, order: seq<Id>)
    requires PrerequisitesFirst(g, order) && g.Keys <= Elems(order)
    ensures !Cyclic(g)
  {
    assert order[..|order|] == order;
    forall p | IsCycle(g, p) ensures false {
      OrderedAvoidsCycle(g, order, p, |order|);
    }
  }
}
