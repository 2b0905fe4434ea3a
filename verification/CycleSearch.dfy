/** The three-colour depth-first search of `detect_cycles`.  The closure's variables
    `color`, `path` and `cycles` are the fields of an object; sets of neighbours are
    visited in an arbitrary order. */
module CycleSearches {
  import opened Ordering
  import opened Digraph

  datatype Color = White | Gray | Black

  // The edge that closed a reported cycle: its last two nodes.
  ghost predicate ClosedBy(cycle: seq<Id>, a: Id, b: Id) {
    |cycle| >= 2 && cycle[|cycle| - 2] == a && cycle[|cycle| - 1] == b
  }

  ghost predicate Reported(cycles: seq<seq<Id>>, a: Id, b: Id) {
    exists k :: 0 <= k < |cycles| && ClosedBy(cycles[k], a, b)
  }

  ghost predicate AllSimple(g: Adj, cycles: seq<seq<Id>>) {
    forall k | 0 <= k < |cycles| :: IsSimpleCycle(g, cycles[k])
  }

  // Every cycle of the graph runs through the closing edge of some reported cycle.
  ghost predicate EveryCycleCut(g: Adj, cycles: seq<seq<Id>>) {
    forall p | IsCycle(g, p) :: exists i :: 0 <= i < |p| - 1 && Reported(cycles, p[i], p[i + 1])
  }

  // A finished node's prerequisites finished before it or closed a reported cycle.
  ghost predicate Settled(g: Adj, before: seq<Id>, v: Id, cycles: seq<seq<Id>>) {
    v in g ==> forall w | w in g[v] && w in g :: w in before || Reported(cycles, v, w)
  }

  ghost predicate FinishOrder(g: Adj, finished: seq<Id>, cycles: seq<seq<Id>>) {
    forall i | 0 <= i < |finished| :: Settled(g, finished[..i], finished[i], cycles)
  }

  lemma ReportedGrows(cycles: seq<seq<Id>>, more: seq<seq<Id>>, a: Id, b: Id)
    requires Reported(cycles, a, b)
    ensures Reported(cycles + more, a, b)
  {
    var k :| 0 <= k < |cycles| && ClosedBy(cycles[k], a, b);
    assert (cycles + more)[k] == cycles[k];
  }

  lemma FinishOrderGrows(g: Adj, finished: seq<Id>, cycles: seq<seq<Id>>, more: seq<seq<Id>>)
    requires FinishOrder(g, finished, cycles)
    ensures FinishOrder(g, finished, cycles + more)
  {
    forall i | 0 <= i < |finished| ensures Settled(g, finished[..i], finished[i], cycles + more) {
      assert Settled(g, finished[..i], finished[i], cycles);
      forall w | finished[i] in g && w in g[finished[i]] && w in g && Reported(cycles, finished[i], w)
        ensures Reported(cycles + more, finished[i], w)
      {
        ReportedGrows(cycles, more, finished[i], w);
      }
    }
  }

  lemma FinishOrderSnoc(g: Adj, finished: seq<Id>, v: Id, cycles: seq<seq<Id>>)
    requires FinishOrder(g, finished, cycles) && Settled(g, finished, v, cycles)
    ensures FinishOrder(g, finished + [v], cycles)
  {
    hide Settled;
    forall i | 0 <= i < |finished + [v]|
      ensures Settled(g, (finished + [v])[..i], (finished + [v])[i], cycles)
    {
      assert (finished + [v])[..i] == finished[..i];
      assert finished[..|finished|] == finished;
    }
  }

  lemma NewCycleReported(cycles: seq<seq<Id>>, c: seq<Id>, a: Id, b: Id)
    requires ClosedBy(c, a, b)
    ensures Reported(cycles + [c], a, b)
  {
    assert (cycles + [c])[|cycles|] == c;
  }

  // The edges that did not close a reported cycle.
  ghost function Uncut(g: Adj, cycles: seq<seq<Id>>): Adj {
    map v | v in g :: set w | w in g[v] && !Reported(cycles, v, w)
  }

  // Once every node has finished, the finishing order proves that no cycle escaped.
  lemma FinishedCutsCycles(g: Adj, finished: seq<Id>, cycles: seq<seq<Id>>)
    requires FinishOrder(g, finished, cycles) && g.Keys <= Elems(finished)
    ensures EveryCycleCut(g, cycles)
  {
    var h := Uncut(g, cycles);
    forall i | 0 <= i < |finished| && finished[i] in h
      ensures h[finished[i]] * h.Keys <= Elems(finished[..i])
    {
      assert Settled(g, finished[..i], finished[i], cycles);
    }
    OrderedMeansAcyclic(h, finished);
    forall p | IsCycle(g, p)
      ensures exists i :: 0 <= i < |p| - 1 && Reported(cycles, p[i], p[i + 1])
    {
      UncutCycle(g, p, cycles);
    }
  }

  lemma UncutCycle(g: Adj, p: seq<Id>, cycles: seq<seq<Id>>)
    requires IsCycle(g, p) && !Cyclic(Uncut(g, cycles))
    ensures exists i :: 0 <= i < |p| - 1 && Reported(cycles, p[i], p[i + 1])
  {
    var h := Uncut(g, cycles);
    if forall i | 0 <= i < |p| - 1 :: !Reported(cycles, p[i], p[i + 1]) {
      forall i | 0 <= i < |p| - 1 ensures p[i + 1] in h[p[i]] {}
      assert IsCycle(h, p) ==> Within(p, h.Keys);
    }
  }

  // Sound and complete: a cycle is reported exactly when the graph has one.
  lemma ReportsIffCyclic(g: Adj, cycles: seq<seq<Id>>)
    requires AllSimple(g, cycles) && EveryCycleCut(g, cycles)
    ensures cycles != [] <==> Cyclic(g)
  {
    if cycles != [] {
      assert IsSimpleCycle(g, cycles[0]);
      assert Within(cycles[0], g.Keys);
    }
    if Cyclic(g) {
      var p :| IsCycle(g, p) && Within(p, g.Keys);
      var i :| 0 <= i < |p| - 1 && Reported(cycles, p[i], p[i + 1]);
    }
  }

  // `path` is the chain of the gray nodes and `finished` lists the black ones.
  ghost predicate SearchInv(g: Adj, color: map<Id, Color>, path: seq<Id>,
                            cycles: seq<seq<Id>>, finished: seq<Id>) {
    && color.Keys == g.Keys
    && Distinct(path) && (path != [] ==> IsWalk(g, path))
    && (forall v | v in g :: color[v] == Gray <==> v in path)
    && (forall v | v in g :: color[v] == Black <==> v in finished)
    && AllSimple(g, cycles)
    && FinishOrder(g, finished, cycles)
  }

  ghost function Unvisited(color: map<Id, Color>): set<Id> {
    set v | v in color && color[v] == White
  }

  lemma EnterKeeps(g: Adj, color: map<Id, Color>, path: seq<Id>,
                   cycles: seq<seq<Id>>, finished: seq<Id>, node: Id)
    requires SearchInv(g, color, path, cycles, finished)
    requires node in color && color[node] == White
    requires path != [] ==> node in g[path[|path| - 1]]
    ensures SearchInv(g, color[node := Gray], path + [node], cycles, finished)
    ensures Unvisited(color[node := Gray]) == Unvisited(color) - {node}
    ensures node in Unvisited(color)
  {
    hide FinishOrder, AllSimple;
    if path != [] { SnocWalk(g, path, node); }
  }

  lemma BackEdgeKeeps(g: Adj, color: map<Id, Color>, path: seq<Id>,
                      cycles: seq<seq<Id>>, finished: seq<Id>, i: nat)
    requires SearchInv(g, color, path, cycles, finished)
    requires i < |path| && path[i] in g[path[|path| - 1]]
    ensures SearchInv(g, color, path, cycles + [path[i..] + [path[i]]], finished)
    ensures Reported(cycles + [path[i..] + [path[i]]], path[|path| - 1], path[i])
  {
    hide FinishOrder, Distinct, IsWalk, IsSimpleCycle;
    var c := path[i..] + [path[i]];
    ClosingEdge(g, path, i);
    FinishOrderGrows(g, finished, cycles, [c]);
    assert c[|c| - 2] == path[|path| - 1];
    NewCycleReported(cycles, c, path[|path| - 1], path[i]);
  }

  lemma LeaveKeeps(g: Adj, color: map<Id, Color>, path: seq<Id>,
                   cycles: seq<seq<Id>>, finished: seq<Id>, node: Id)
    requires SearchInv(g, color, path + [node], cycles, finished)
    requires Settled(g, finished, node, cycles)
    ensures SearchInv(g, color[node := Black], path, cycles, finished + [node])
    ensures Unvisited(color[node := Black]) == Unvisited(color)
  {
    hide FinishOrder, AllSimple, Settled;
    var gray := path + [node];
    FinishOrderSnoc(g, finished, node, cycles);
    assert gray[..|path|] == path;
    assert gray[|path|] == node;
    forall v ensures v in gray <==> v in path || v == node {}
    forall v | v in path ensures v != node {
      var i :| 0 <= i < |path| && path[i] == v;
      assert gray[i] == v;
    }
    if path != [] { SliceWalk(g, gray, 0, |path|); }
  }

  lemma SearchFacts(g: Adj, color: map<Id, Color>, path: seq<Id>,
                    cycles: seq<seq<Id>>, finished: seq<Id>)
    requires SearchInv(g, color, path, cycles, finished)
    ensures color.Keys == g.Keys
    ensures forall v | v in color && color[v] == Gray :: v in path
    ensures forall v | v in color && color[v] == Black :: v in finished
    ensures AllSimple(g, cycles) && FinishOrder(g, finished, cycles)
  {
    hide AllSimple, FinishOrder, Distinct, IsWalk;
  }

  lemma SettledNow(g: Adj, finished: seq<Id>, v: Id, cycles: seq<seq<Id>>)
    requires v in g
    requires forall w | w in g[v] && w in g :: w in finished || Reported(cycles, v, w)
    ensures Settled(g, finished, v, cycles)
  {}

  lemma StartKeeps(g: Adj)
    ensures SearchInv(g, map v | v in g :: White, [], [], [])
  {}

  lemma ReportedStay(g: Adj, node: Id, before: seq<seq<Id>>, after: seq<seq<Id>>)
    requires before <= after
    ensures forall w | Reported(before, node, w) :: Reported(after, node, w)
  {
    forall w | Reported(before, node, w) ensures Reported(after, node, w) {
      ReportedGrows(before, after[|before|..], node, w);
    }
  }

  class CycleSearch {
    const g: Adj
    var color: map<Id, Color>
    var path: seq<Id>
    var cycles: seq<seq<Id>>
    ghost var finished: seq<Id>

    ghost predicate Valid()
      reads this
    {
      SearchInv(g, color, path, cycles, finished)
    }

    constructor (g: Adj)
      ensures Valid() && this.g == g
      ensures path == [] && finished == [] && cycles == []
    {
      StartKeeps(g);
      this.g := g;
      color := map v | v in g :: White;
      path, cycles, finished := [], [], [];
    }

    lemma Facts()
      requires Valid()
      ensures color.Keys == g.Keys
      ensures forall v | v in color && color[v] == Gray :: v in path
      ensures forall v | v in color && color[v] == Black :: v in finished
      ensures AllSimple(g, cycles) && FinishOrder(g, finished, cycles)
    {
      hide SearchInv, AllSimple, FinishOrder;
      SearchFacts(g, color, path, cycles, finished);
    }

    // Visits everything that is still white below `node` and leaves `path` as it was.
    method Dfs(node: Id)
      requires Valid() && node in color && color[node] == White
      requires path != [] ==> node in g[path[|path| - 1]]
      modifies this
      ensures Valid()
      ensures path == old(path) && node in finished
      ensures old(finished) <= finished
      ensures old(cycles) <= cycles
      ensures Unvisited(color) < old(Unvisited(color))
      decreases Unvisited(color)
    {
      hide Unvisited, SearchInv, Reported, Settled, AllSimple, FinishOrder;
      SearchFacts(g, color, path, cycles, finished);
      EnterKeeps(g, color, path, cycles, finished, node);
      color := color[node := Gray];
      path := path + [node];
      ghost var below := Unvisited(color);
      var todo := g[node];
      while todo != {}
        invariant Valid() && todo <= g[node]
        invariant path == old(path) + [node]
        invariant old(finished) <= finished && old(cycles) <= cycles
        invariant Unvisited(color) <= below
        invariant forall w | w in g[node] - todo && w in g :: w in finished || Reported(cycles, node, w)
        decreases todo
      {
        SearchFacts(g, color, path, cycles, finished);
        var neighbor :| neighbor in todo;
        todo := todo - {neighbor};
        if neighbor !in color { continue; }
        ghost var before := cycles;
        if color[neighbor] == Gray {
          var i :| 0 <= i < |path| && path[i] == neighbor;
          BackEdgeKeeps(g, color, path, cycles, finished, i);
          cycles := cycles + [path[i..] + [neighbor]];
        } else if color[neighbor] == White {
          Dfs(neighbor);
        }
        ReportedStay(g, node, before, cycles);
      }
      SettledNow(g, finished, node, cycles);
      LeaveKeeps(g, color, path[..|path| - 1], cycles, finished, node);
      path := path[..|path| - 1];
      color := color[node := Black];
      finished := finished + [node];
    }
  
    // The outer loop starts a search at every issue that is still white.
    method DfsFromRoot(node: Id)
      requires Valid() && node in g && path == []
      modifies this
      ensures Valid() && path == [] && node in finished && old(finished) <= finished
    {
      Facts();
      if color[node] == White {
        Dfs(node);
      }
    }
  }
}
