/** The class `DependencyGraph`: construction from issue declarations, the ready-set
    query, execution waves, Kahn's sort and cycle detection. */
module DependencyGraphs {
  import opened Ordering
  import opened Digraph
  import opened Schedule
  import opened Kahn
  import opened KahnLevels
  import opened CycleSearches

  // The parts of an issue record that the graph reads.
  datatype Issue = Issue(id: Id, priority: int, blockedBy: seq<Id>, blocks: seq<Id>, dependsOn: seq<Id>)

  datatype Field = BlockedBy | Blocks | DependsOn

  function Refs(issue: Issue, field: Field): seq<Id> {
    match field
    case BlockedBy => issue.blockedBy
    case Blocks => issue.blocks
    case DependsOn => issue.dependsOn
  }

  // A value, or the cycles named by `ValueError("Dependency graph contains cycles: ...")`.
  datatype Result<+T> = Ok(value: T) | CycleError(cycles: seq<seq<Id>>)

  function KeysOf(list: seq<Issue>): set<Id> {
    set k | 0 <= k < |list| :: list[k].id
  }

  // The last record of the list with id `a`: a later one overwrites an earlier one.
  ghost predicate LastRecord(list: seq<Issue>, a: Id, issue: Issue) {
    exists k :: 0 <= k < |list| && list[k] == issue && issue.id == a && forall j | k < j < |list| :: list[j].id != a
  }

  lemma LastSnoc(list: seq<Issue>, i: nat)
    requires i < |list|
    ensures LastRecord(list[..i + 1], list[i].id, list[i])
    ensures forall a, issue | a != list[i].id && LastRecord(list[..i], a, issue) :: LastRecord(list[..i + 1], a, issue)
  {
    var more := list[..i + 1];
    assert more[i] == list[i];
    forall a, issue | a != list[i].id && LastRecord(list[..i], a, issue) ensures LastRecord(more, a, issue) {
      var k :| 0 <= k < i && list[..i][k] == issue && issue.id == a && forall j | k < j < i :: list[..i][j].id != a;
      assert more[k] == issue;
      forall j | k < j < |more| ensures more[j].id != a {
        if j < i { assert more[j] == list[..i][j]; }
      }
    }
  }

  // Some record with id `a` names `b` in the given field.
  ghost predicate Declares(list: seq<Issue>, field: Field, a: Id, b: Id) {
    exists k :: 0 <= k < |list| && list[k].id == a && b in Refs(list[k], field)
  }

  // The names that survive the two `continue` guards.
  function Live(ids: set<Id>, names: set<Id>, completed: set<Id>): set<Id> {
    names * ids - completed
  }

  // Everything the records with id `a` name, and every record that names `b`.
  function Named(list: seq<Issue>, field: Field, a: Id): set<Id> {
    if list == [] then {}
    else
      var last := list[|list| - 1];
      Named(list[..|list| - 1], field, a) + (if last.id == a then Elems(Refs(last, field)) else {})
  }

  function Namers(list: seq<Issue>, field: Field, b: Id): set<Id> {
    if list == [] then {}
    else
      var last := list[|list| - 1];
      Namers(list[..|list| - 1], field, b) + (if b in Refs(last, field) then {last.id} else {})
  }

  lemma NamedSnoc(list: seq<Issue>, i: nat, field: Field)
    requires i < |list|
    ensures forall a :: Named(list[..i + 1], field, a) ==
              Named(list[..i], field, a) + (if list[i].id == a then Elems(Refs(list[i], field)) else {})
    ensures forall b :: Namers(list[..i + 1], field, b) ==
              Namers(list[..i], field, b) + (if b in Refs(list[i], field) then {list[i].id} else {})
  {
    assert list[..i + 1][..i] == list[..i];
  }

  lemma {:induction false} NamedIsDeclared(list: seq<Issue>, field: Field, a: Id, b: Id)
    ensures b in Named(list, field, a) <==> Declares(list, field, a, b)
    ensures a in Namers(list, field, b) <==> Declares(list, field, a, b)
  {
    if list != [] {
      var n := |list| - 1;
      NamedIsDeclared(list[..n], field, a, b);
      assert list[..n + 1] == list;
      DeclaresSnoc(list, n, field);
    }
  }

  // `b` blocks `a`: declared on `a` by a reference to a live `b`, or on `b` by a
  // reference to a live `a`.  The second form does not look at whether `b` is completed.
  ghost predicate HardEdge(list: seq<Issue>, completed: set<Id>, a: Id, b: Id) {
    || (Declares(list, BlockedBy, a, b) && b !in completed && b in KeysOf(list))
    || (Declares(list, Blocks, b, a) && a !in completed && a in KeysOf(list))
  }

  ghost predicate SoftEdge(list: seq<Issue>, completed: set<Id>, a: Id, b: Id) {
    Declares(list, DependsOn, a, b) && b !in completed && b in KeysOf(list)
  }

  // Edges and records in terms of the list alone: `b` is a hard blocker of `a` when a record of
  // `a` names a listed, uncompleted `b` in `blocked_by`, or a record of `b` names a listed,
  // uncompleted `a` in `blocks`; a soft one when a record of `a` depends on such a `b`.
  lemma EdgesMean(list: seq<Issue>, completed: set<Id>, a: Id, b: Id)
    ensures HardEdge(list, completed, a, b) <==>
      || ((exists k :: 0 <= k < |list| && list[k].id == a && b in list[k].blockedBy)
          && b !in completed && exists k :: 0 <= k < |list| && list[k].id == b)
      || ((exists k :: 0 <= k < |list| && list[k].id == b && a in list[k].blocks)
          && a !in completed && exists k :: 0 <= k < |list| && list[k].id == a)
    ensures SoftEdge(list, completed, a, b) <==>
      && (exists k :: 0 <= k < |list| && list[k].id == a && b in list[k].dependsOn)
      && b !in completed && exists k :: 0 <= k < |list| && list[k].id == b
    ensures forall issue :: LastRecord(list, a, issue) <==>
      exists k :: 0 <= k < |list| && list[k] == issue && issue.id == a
        && forall j | k < j < |list| :: list[j].id != a
  {
    if k :| 0 <= k < |list| && list[k].id == a && b in list[k].blockedBy {
      assert b in Refs(list[k], BlockedBy);
    }
    if k :| 0 <= k < |list| && list[k].id == b && a in list[k].blocks {
      assert a in Refs(list[k], Blocks);
    }
    if k :| 0 <= k < |list| && list[k].id == a && b in list[k].dependsOn {
      assert b in Refs(list[k], DependsOn);
    }
  }

  lemma DeclaresSnoc(list: seq<Issue>, i: nat, field: Field)
    requires i < |list|
    ensures forall a, b :: Declares(list[..i + 1], field, a, b) <==>
              Declares(list[..i], field, a, b) || (list[i].id == a && b in Refs(list[i], field))
  {
    var more := list[..i + 1];
    assert more == list[..i] + [list[i]];
    forall a, b | list[i].id == a && b in Refs(list[i], field) ensures Declares(more, field, a, b) {
      assert more[i] == list[i];
    }
    forall a, b | Declares(list[..i], field, a, b) ensures Declares(more, field, a, b) {
      var k :| 0 <= k < i && list[k].id == a && b in Refs(list[k], field);
      assert more[k] == list[k];
    }
  }

  // ------------------------------------------------ the dictionaries as values

  // `blocks` is the exact inverse of `blockedBy`, and every edge stays in the graph.
  ghost predicate Consistent(order: seq<Id>, ids: set<Id>, blockedBy: Adj, blocks: Adj, dependsOn: Adj) {
    && Distinct(order) && Elems(order) == ids
    && blockedBy.Keys == blocks.Keys == ids && dependsOn.Keys <= ids
    && (forall a | a in blockedBy :: blockedBy[a] <= ids)
    && (forall b | b in blocks :: blocks[b] <= ids)
    && (forall a, b | a in ids && b in ids :: b in blockedBy[a] <==> a in blocks[b])
    && (forall a | a in dependsOn :: dependsOn[a] <= ids)
  }

  lemma EmptyConsistent()
    ensures Consistent([], {}, map[], map[], map[])
  {
    assert Elems<Id>([]) == {};
  }

  lemma ConsistentKeys(order: seq<Id>, ids: set<Id>, blockedBy: Adj, blocks: Adj, dependsOn: Adj)
    requires Consistent(order, ids, blockedBy, blocks, dependsOn)
    ensures blockedBy.Keys == blocks.Keys == ids && dependsOn.Keys <= ids
    ensures forall a | a in dependsOn :: dependsOn[a] <= ids
  {}

  lemma NodeKeeps(order: seq<Id>, ids: set<Id>, blockedBy: Adj, blocks: Adj, id: Id)
    requires Consistent(order, ids, blockedBy, blocks, map[])
    requires forall a | a in blockedBy :: blockedBy[a] == {}
    ensures Consistent(if id in ids then order else order + [id], ids + {id},
              blockedBy[id := {}], blocks[id := {}], map[])
  {
    hide Distinct, Elems;
    if id !in ids { AppendDistinct(order, id); }
  }

  lemma AppendDistinct(s: seq<Id>, x: Id)
    requires Distinct(s) && x !in Elems(s)
    ensures Distinct(s + [x]) && Elems(s + [x]) == Elems(s) + {x}
  {}

  lemma HardEdgeKeeps(order: seq<Id>, ids: set<Id>, blockedBy: Adj, blocks: Adj, dependsOn: Adj, a: Id, b: Id)
    requires Consistent(order, ids, blockedBy, blocks, dependsOn) && a in ids && b in ids
    ensures Consistent(order, ids, blockedBy[a := blockedBy[a] + {b}], blocks[b := blocks[b] + {a}], dependsOn)
  {
    hide Distinct, Elems;
  }

  lemma SoftEdgeKeeps(order: seq<Id>, ids: set<Id>, blockedBy: Adj, blocks: Adj, dependsOn: Adj, a: Id, b: Id)
    requires Consistent(order, ids, blockedBy, blocks, dependsOn) && a in ids && b in ids
    ensures Consistent(order, ids, blockedBy, blocks, Extend(dependsOn, a, {b}))
  {
    hide Distinct, Elems;
  }

  function At(edges: Adj, a: Id): set<Id> {
    if a in edges then edges[a] else {}
  }

  lemma AtIs(edges: Adj, a: Id)
    requires a in edges
    ensures At(edges, a) == edges[a]
  {}

  function Extend(edges: Adj, a: Id, more: set<Id>): Adj {
    if more == {} then edges else edges[a := At(edges, a) + more]
  }

  lemma ExtendTwice(edges: Adj, a: Id, x: set<Id>, y: set<Id>)
    ensures Extend(Extend(edges, a, x), a, y) == Extend(edges, a, x + y)
  {
    if y == {} { assert x + y == x; }
    if x == {} { assert x + y == y; }
    assert At(edges, a) + x + y == At(edges, a) + (x + y);
  }

  lemma NonEmpty(x: Id)
    ensures {x} != {} && forall s: set<Id> :: {} + s == s
  {
    assert x in {x};
  }

  // Adds `b` to the entry of every target.
  function AddTo(edges: Adj, targets: set<Id>, b: Id): Adj {
    map a | a in edges :: edges[a] + (if a in targets then {b} else {})
  }

  lemma AddToStep(edges: Adj, targets: set<Id>, b: Id, t: Id)
    requires t in edges
    ensures t in AddTo(edges, targets, b)
    ensures var now := AddTo(edges, targets, b);
      AddTo(edges, targets + {t}, b) == if b in now[t] then now else now[t := now[t] + {b}]
  {
    var now := AddTo(edges, targets, b);
    assert now[t] + {b} == edges[t] + {b};
    assert b in now[t] ==> now[t] == edges[t] + {b};
  }

  lemma AddToNone(edges: Adj, b: Id)
    ensures AddTo(edges, {}, b) == edges
  {
    assert forall a | a in edges :: edges[a] + {} == edges[a];
  }

  // What a pass over the first `i` records has put in place.
  ghost predicate HardUpTo(edges: Adj, ids: set<Id>, list: seq<Issue>, i: nat, completed: set<Id>)
    requires i <= |list|
  {
    forall a | a in edges :: edges[a] == Live(ids, Named(list[..i], BlockedBy, a), completed)
  }

  lemma HardStep(edges: Adj, ids: set<Id>, list: seq<Issue>, i: nat, completed: set<Id>)
    requires i < |list| && HardUpTo(edges, ids, list, i, completed) && list[i].id in edges
    ensures HardUpTo(Extend(edges, list[i].id, Live(ids, Elems(list[i].blockedBy), completed)),
              ids, list, i + 1, completed)
  {
    hide Named, Elems, Live;
    NamedSnoc(list, i, BlockedBy);
    var more := Live(ids, Elems(list[i].blockedBy), completed);
    var now := Extend(edges, list[i].id, more);
    forall a | a in now ensures now[a] == Live(ids, Named(list[..i + 1], BlockedBy, a), completed) {
      assert a in edges && now[a] == edges[a] + (if a == list[i].id then more else {});
      LiveUnion(ids, Named(list[..i], BlockedBy, a), Elems(list[i].blockedBy), completed);
      LiveUnion(ids, Named(list[..i], BlockedBy, a), {}, completed);
    }
  }

  lemma LiveUnion(ids: set<Id>, a: set<Id>, b: set<Id>, completed: set<Id>)
    ensures Live(ids, a + b, completed) == Live(ids, a, completed) + Live(ids, b, completed)
    ensures Live(ids, {}, completed) == {}
  {}

  ghost predicate OneSidedUpTo(edges: Adj, was: Adj, ids: set<Id>, list: seq<Issue>, i: nat, completed: set<Id>)
    requires i <= |list|
  {
    && edges.Keys == was.Keys
    && forall a | a in edges :: edges[a] == was[a] +
         (if a in completed || a !in ids then {} else Namers(list[..i], Blocks, a))
  }

  lemma OneSidedStep(edges: Adj, was: Adj, ids: set<Id>, list: seq<Issue>, i: nat, completed: set<Id>)
    requires i < |list| && OneSidedUpTo(edges, was, ids, list, i, completed)
    ensures OneSidedUpTo(AddTo(edges, Live(ids, Elems(list[i].blocks), completed), list[i].id),
              was, ids, list, i + 1, completed)
  {
    hide Namers;
    NamedSnoc(list, i, Blocks);
  }

  ghost predicate SoftUpTo(edges: Adj, ids: set<Id>, list: seq<Issue>, i: nat, completed: set<Id>)
    requires i <= |list|
  {
    forall a :: At(edges, a) == Live(ids, Named(list[..i], DependsOn, a), completed)
  }

  lemma SoftStep(edges: Adj, ids: set<Id>, list: seq<Issue>, i: nat, completed: set<Id>)
    requires i < |list| && SoftUpTo(edges, ids, list, i, completed)
    ensures SoftUpTo(Extend(edges, list[i].id, Live(ids, Elems(list[i].dependsOn), completed)),
              ids, list, i + 1, completed)
  {
    hide Named, Elems;
    NamedSnoc(list, i, DependsOn);
    var more := Live(ids, Elems(list[i].dependsOn), completed);
    var now := Extend(edges, list[i].id, more);
    assert forall a :: At(now, a) == At(edges, a) + (if a == list[i].id then more else {});
  }

  lemma PassStart(edges: Adj, ids: set<Id>, list: seq<Issue>, completed: set<Id>)
    ensures (forall a | a in edges :: edges[a] == {}) ==> HardUpTo(edges, ids, list, 0, completed)
    ensures OneSidedUpTo(edges, edges, ids, list, 0, completed)
    ensures SoftUpTo(map[], ids, list, 0, completed)
  {}

  lemma LiveSnoc(ids: set<Id>, refs: seq<Id>, i: nat, completed: set<Id>)
    requires i < |refs|
    ensures Live(ids, Elems(refs[..i + 1]), completed) ==
              if refs[i] in completed || refs[i] !in ids then Live(ids, Elems(refs[..i]), completed)
              else Live(ids, Elems(refs[..i]), completed) + {refs[i]}
  {
    assert refs[..i + 1] == refs[..i] + [refs[i]];
  }

  lemma LiveEnds(ids: set<Id>, refs: seq<Id>, completed: set<Id>)
    ensures Live(ids, Elems(refs[..0]), completed) == {} && refs[..|refs|] == refs
  {}

  lemma KeysSnoc(list: seq<Issue>, i: nat)
    requires i < |list|
    ensures KeysOf(list[..i + 1]) == KeysOf(list[..i]) + {list[i].id}
  {
    var more := list[..i + 1];
    assert more[i] == list[i];
    forall x | x in KeysOf(list[..i]) ensures x in KeysOf(more) {
      var k :| 0 <= k < i && list[k].id == x;
      assert more[k] == list[k];
    }
  }

  // The docstring promises that completed blockers count as satisfied.  The second pass
  // looks only at the blocked side, so a blocker that is completed and still listed stays
  // an open edge exactly when it declares `blocks` on a live issue.
  lemma CompletedBlockerStays(list: seq<Issue>, completed: set<Id>)
    ensures (exists a, b :: b in completed && HardEdge(list, completed, a, b)) <==>
            (exists k, a :: 0 <= k < |list| && list[k].id in completed && a in list[k].blocks
                            && a !in completed && a in KeysOf(list))
  {
    forall a, b | b in completed && HardEdge(list, completed, a, b)
      ensures exists k :: 0 <= k < |list| && list[k].id in completed && a in list[k].blocks
                          && a !in completed && a in KeysOf(list)
    {
      var k :| 0 <= k < |list| && list[k].id == b && a in Refs(list[k], Blocks);
    }
    forall k, a | 0 <= k < |list| && list[k].id in completed && a in list[k].blocks
                  && a !in completed && a in KeysOf(list)
      ensures HardEdge(list, completed, a, list[k].id)
    {
      assert Declares(list, Blocks, list[k].id, a);
    }
  }

  // A two-issue witness: A is completed, yet it still blocks B.
  lemma CompletedBlockerWitness()
    ensures var a, b := Issue("A", 0, [], ["B"], []), Issue("B", 0, [], [], []);
      HardEdge([a, b], {"A"}, "B", "A")
  {
    var a, b := Issue("A", 0, [], ["B"], []), Issue("B", 0, [], [], []);
    assert [a, b][0].id == "A" && "B" in Refs([a, b][0], Blocks);
    assert Declares([a, b], Blocks, "A", "B");
    assert [a, b][1].id == "B";
    assert "B" != "A";
  }

  lemma MembersKnown(list: seq<Issue>)
    ensures forall i | 0 <= i < |list| :: list[i].id in KeysOf(list)
    ensures list[..|list|] == list && KeysOf(list[..0]) == {}
  {}

  lemma DeclarersKnown(list: seq<Issue>)
    ensures forall field, a, b | Declares(list, field, a, b) :: a in KeysOf(list)
  {}

  lemma HardEdges(hard: Adj, was: Adj, list: seq<Issue>, completed: set<Id>, a: Id, b: Id)
    requires hard.Keys == KeysOf(list)
    requires HardUpTo(was, KeysOf(list), list, |list|, completed)
    requires OneSidedUpTo(hard, was, KeysOf(list), list, |list|, completed)
    ensures b in At(hard, a) <==> HardEdge(list, completed, a, b)
  {
    hide Declares, KeysOf, Named, Namers;
    NamedIsDeclared(list, BlockedBy, a, b);
    NamedIsDeclared(list, Blocks, b, a);
    DeclarersKnown(list);
    assert list[..|list|] == list;
  }

  lemma SoftEdges(soft: Adj, list: seq<Issue>, completed: set<Id>, a: Id, b: Id)
    requires SoftUpTo(soft, KeysOf(list), list, |list|, completed)
    ensures b in At(soft, a) <==> SoftEdge(list, completed, a, b)
  {
    NamedIsDeclared(list, DependsOn, a, b);
    assert list[..|list|] == list;
  }

  ghost predicate IsReverse(dependents: Adj, pre: Adj) {
    && dependents.Keys == pre.Keys
    && forall v, w | v in dependents :: w in dependents[v] <==> w in pre && v in pre[w]
  }

  // `dependents` is `blocks` plus the inverse of the soft edges in `seen`.
  ghost predicate Reversing(dependents: Adj, blocks: Adj, seen: Adj) {
    && blocks.Keys == dependents.Keys
    && forall v, w :: w in At(dependents, v) <==> w in At(blocks, v) || v in At(seen, w)
  }

  lemma ReverseAt(dependents: Adj, pre: Adj, v: Id)
    requires IsReverse(dependents, pre) && v in pre
    ensures v in dependents
    ensures forall w :: w in dependents[v] <==> w in pre && v in pre[w]
  {}

  lemma ReverseStart(blocks: Adj)
    ensures Reversing(blocks, blocks, map[])
  {}

  lemma ReverseStep(dependents: Adj, blocks: Adj, seen: Adj, id: Id, prereq: Id)
    requires Reversing(dependents, blocks, seen) && prereq in blocks
    ensures Reversing(dependents[prereq := At(dependents, prereq) + {id}], blocks, Extend(seen, id, {prereq}))
  {
    var now, more := dependents[prereq := At(dependents, prereq) + {id}], Extend(seen, id, {prereq});
    assert now.Keys == dependents.Keys + {prereq};
    forall v, w ensures w in At(now, v) <==> w in At(blocks, v) || v in At(more, w) {
      ExtendAt(seen, id, prereq, w);
      assert At(now, v) == At(dependents, v) + (if v == prereq then {id} else {});
      assert w in At(dependents, v) <==> w in At(blocks, v) || v in At(seen, w);
    }
    assert now.Keys == blocks.Keys;
    assert Reversing(now, blocks, more);
  }

  lemma ExtendAt(edges: Adj, a: Id, b: Id, x: Id)
    ensures At(Extend(edges, a, {b}), x) == At(edges, x) + (if x == a then {b} else {})
  {
    NonEmpty(b);
  }

  // `for issue in wave: processed.add(issue.issue_id)`
  method AddAll(processed: set<Id>, wave: seq<Id>) returns (more: set<Id>)
    ensures more == processed + Elems(wave)
  {
    more := processed;
    for i := 0 to |wave|
      invariant more == processed + Elems(wave[..i])
    {
      ElemsSnoc(wave, i);
      more := more + {wave[i]};
    }
    ElemsEnds(wave);
  }

  class DependencyGraph {
    var order: seq<Id>              // insertion order of the `issues` dictionary
    var issues: map<Id, Issue>
    var blockedBy: map<Id, set<Id>>
    var blocks: map<Id, set<Id>>
    var dependsOn: map<Id, set<Id>>

    ghost predicate Valid()
      reads this
    {
      Consistent(order, issues.Keys, blockedBy, blocks, dependsOn)
    }

    function Prerequisites(): Adj
      reads this
    {
      map a | a in issues :: At(blockedBy, a) + At(dependsOn, a)
    }

    function Value(): Graph
      reads this
    {
      Graph(order, map a | a in issues :: issues[a].priority, Prerequisites())
    }

    lemma ValueWf()
      requires Valid()
      ensures Value().Wf() && Value().pre == Prerequisites() && Prerequisites().Keys == issues.Keys
    {
      hide Distinct;
    }

    // Indexing: a repeated id keeps its position and takes the later record.
    method IndexIssues(list: seq<Issue>)
      requires Valid() && issues == map[] && dependsOn == map[] && blockedBy == map[]
      modifies this
      ensures Valid() && issues.Keys == KeysOf(list) && dependsOn == map[]
      ensures forall a | a in blockedBy :: blockedBy[a] == {}
      ensures forall a | a in issues :: LastRecord(list, a, issues[a])
    {
      hide Consistent, KeysOf, LastRecord;
      MembersKnown(list);
      assert list[..|list|] == list;
      for i := 0 to |list|
        invariant Valid() && dependsOn == map[] && issues.Keys == KeysOf(list[..i])
        invariant forall a | a in blockedBy :: blockedBy[a] == {}
        invariant forall a | a in issues :: LastRecord(list[..i], a, issues[a])
      {
        var id := list[i].id;
        KeysSnoc(list, i);
        LastSnoc(list, i);
        NodeKeeps(order, issues.Keys, blockedBy, blocks, id);
        if id !in issues { order := order + [id]; }
        assert issues[id := list[i]].Keys == issues.Keys + {id};
        issues := issues[id := list[i]];
        blockedBy := blockedBy[id := {}];
        blocks := blocks[id := {}];
      }
    }

    // `blocked_by` declarations of one issue.
    method AddBlockers(issue: Issue, completed: set<Id>)
      requires Valid() && issue.id in issues
      modifies this`blockedBy, this`blocks
      ensures Valid()
      ensures blockedBy ==
        Extend(old(blockedBy), issue.id, Live(issues.Keys, Elems(issue.blockedBy), completed))
    {
      hide Consistent, Live, Elems;
      var refs := issue.blockedBy;
      LiveEnds(issues.Keys, refs, completed);
      for i := 0 to |refs|
        invariant Valid()
        invariant blockedBy == Extend(old(blockedBy), issue.id, Live(issues.Keys, Elems(refs[..i]), completed))
      {
        LiveSnoc(issues.Keys, refs, i, completed);
        if refs[i] in completed { continue; }
        if refs[i] !in issues { continue; }
        ConsistentKeys(order, issues.Keys, blockedBy, blocks, dependsOn);
        HardEdgeKeeps(order, issues.Keys, blockedBy, blocks, dependsOn, issue.id, refs[i]);
        ExtendTwice(old(blockedBy), issue.id, Live(issues.Keys, Elems(refs[..i]), completed), {refs[i]});
        NonEmpty(refs[i]);
        blockedBy := blockedBy[issue.id := blockedBy[issue.id] + {refs[i]}];
        blocks := blocks[refs[i] := blocks[refs[i]] + {issue.id}];
      }
    }

    // `blocks` declarations of one issue: a one-sided declaration adds the missing edge.
    method AddBlocked(issue: Issue, completed: set<Id>)
      requires Valid() && issue.id in issues
      modifies this`blockedBy, this`blocks
      ensures Valid()
      ensures blockedBy == AddTo(old(blockedBy), Live(issues.Keys, Elems(issue.blocks), completed), issue.id)
    {
      hide Consistent, Live, Elems, AddTo;
      var refs := issue.blocks;
      LiveEnds(issues.Keys, refs, completed);
      AddToNone(blockedBy, issue.id);
      ConsistentKeys(order, issues.Keys, blockedBy, blocks, dependsOn);
      for i := 0 to |refs|
        invariant Valid()
        invariant blockedBy == AddTo(old(blockedBy), Live(issues.Keys, Elems(refs[..i]), completed), issue.id)
      {
        LiveSnoc(issues.Keys, refs, i, completed);
        if refs[i] in completed { continue; }
        if refs[i] !in issues { continue; }
        ConsistentKeys(order, issues.Keys, blockedBy, blocks, dependsOn);
        AddToStep(old(blockedBy), Live(issues.Keys, Elems(refs[..i]), completed), issue.id, refs[i]);
        if issue.id !in blockedBy[refs[i]] {
          HardEdgeKeeps(order, issues.Keys, blockedBy, blocks, dependsOn, refs[i], issue.id);
          blockedBy := blockedBy[refs[i] := blockedBy[refs[i]] + {issue.id}];
          blocks := blocks[issue.id := blocks[issue.id] + {refs[i]}];
        }
      }
    }

    // `depends_on` declarations of one issue.
    method AddDependsOn(issue: Issue, completed: set<Id>)
      requires Valid() && issue.id in issues
      modifies this`dependsOn
      ensures Valid()
      ensures dependsOn ==
        Extend(old(dependsOn), issue.id, Live(issues.Keys, Elems(issue.dependsOn), completed))
    {
      hide Consistent, Live, Elems;
      var refs := issue.dependsOn;
      LiveEnds(issues.Keys, refs, completed);
      for i := 0 to |refs|
        invariant Valid()
        invariant dependsOn == Extend(old(dependsOn), issue.id, Live(issues.Keys, Elems(refs[..i]), completed))
      {
        LiveSnoc(issues.Keys, refs, i, completed);
        if refs[i] in completed { continue; }
        if refs[i] !in issues { continue; }
        SoftEdgeKeeps(order, issues.Keys, blockedBy, blocks, dependsOn, issue.id, refs[i]);
        ExtendTwice(old(dependsOn), issue.id, Live(issues.Keys, Elems(refs[..i]), completed), {refs[i]});
        NonEmpty(refs[i]);
        ghost var next := Extend(dependsOn, issue.id, {refs[i]});
        if issue.id !in dependsOn {
          dependsOn := dependsOn[issue.id := {}];
        }
        dependsOn := dependsOn[issue.id := dependsOn[issue.id] + {refs[i]}];
        assert dependsOn == next;
      }
    }

    // First pass: `blocked_by` declarations.
    method HardPass(list: seq<Issue>, completed: set<Id>)
      requires Valid() && issues.Keys == KeysOf(list)
      requires forall a | a in blockedBy :: blockedBy[a] == {}
      modifies this`blockedBy, this`blocks
      ensures Valid() && HardUpTo(blockedBy, issues.Keys, list, |list|, completed)
    {
      hide Consistent, KeysOf, Elems, Live, At, Extend, HardUpTo;
      MembersKnown(list);
      PassStart(blockedBy, issues.Keys, list, completed);
      for i := 0 to |list|
        invariant Valid() && HardUpTo(blockedBy, issues.Keys, list, i, completed)
      {
        ConsistentKeys(order, issues.Keys, blockedBy, blocks, dependsOn);
        HardStep(blockedBy, issues.Keys, list, i, completed);
        AddBlockers(list[i], completed);
      }
    }

    // Second pass: one-sided `blocks` declarations.
    method OneSidedPass(list: seq<Issue>, completed: set<Id>)
      requires Valid() && issues.Keys == KeysOf(list)
      modifies this`blockedBy, this`blocks
      ensures Valid() && OneSidedUpTo(blockedBy, old(blockedBy), issues.Keys, list, |list|, completed)
    {
      hide Consistent, KeysOf, Elems, Live, AddTo, OneSidedUpTo;
      MembersKnown(list);
      PassStart(blockedBy, issues.Keys, list, completed);
      for i := 0 to |list|
        invariant Valid() && OneSidedUpTo(blockedBy, old(blockedBy), issues.Keys, list, i, completed)
      {
        OneSidedStep(blockedBy, old(blockedBy), issues.Keys, list, i, completed);
        AddBlocked(list[i], completed);
      }
    }

    // Third pass: soft prerequisites, with no reverse edge.
    method SoftPass(list: seq<Issue>, completed: set<Id>)
      requires Valid() && issues.Keys == KeysOf(list) && dependsOn == map[]
      modifies this`dependsOn
      ensures Valid() && SoftUpTo(dependsOn, issues.Keys, list, |list|, completed)
    {
      hide Consistent, KeysOf, Elems, Live, At, Extend, SoftUpTo;
      MembersKnown(list);
      PassStart(blockedBy, issues.Keys, list, completed);
      for i := 0 to |list|
        invariant Valid() && SoftUpTo(dependsOn, issues.Keys, list, i, completed)
      {
        SoftStep(dependsOn, issues.Keys, list, i, completed);
        AddDependsOn(list[i], completed);
      }
    }

    // The edges of the graph are exactly the live declarations, and `blocks` mirrors
    // `blockedBy` whichever side declared the edge.
    constructor FromIssues(list: seq<Issue>, completed: set<Id>)
      ensures Valid() && issues.Keys == KeysOf(list)
      ensures forall a | a in issues :: LastRecord(list, a, issues[a])
      ensures forall a, b :: b in At(blockedBy, a) <==> HardEdge(list, completed, a, b)
      ensures forall a, b :: b in At(dependsOn, a) <==> SoftEdge(list, completed, a, b)
    {
      hide Consistent, KeysOf, Elems, HardEdge, SoftEdge, At, HardUpTo, OneSidedUpTo, SoftUpTo;
      order, issues, blockedBy, blocks, dependsOn := [], map[], map[], map[], map[];
      new;
      EmptyConsistent();
      IndexIssues(list);
      HardPass(list, completed);
      ghost var hard := blockedBy;
      OneSidedPass(list, completed);
      SoftPass(list, completed);
      ConsistentKeys(order, issues.Keys, blockedBy, blocks, dependsOn);
      forall a, b ensures b in At(blockedBy, a) <==> HardEdge(list, completed, a, b) {
        HardEdges(blockedBy, hard, list, completed, a, b);
      }
      forall a, b ensures b in At(dependsOn, a) <==> SoftEdge(list, completed, a, b) {
        SoftEdges(dependsOn, list, completed, a, b);
      }
    }

    // `get_ready_issues`: open issues with no open hard blocker and no open soft
    // prerequisite, by (priority, id).
    method GetReadyIssues(completed: set<Id>) returns (ready: seq<Id>)
      requires Valid()
      ensures ready == Value().Wave(completed)
      ensures forall id :: id in ready <==>
        && id in issues && id !in completed
        && (id in blockedBy ==> blockedBy[id] <= completed)
        && (id in dependsOn ==> dependsOn[id] <= completed)
      ensures forall i, j | 0 <= i < j < |ready| ::
        && ready[i] in issues && ready[j] in issues && ready[i] != ready[j]
        && (|| issues[ready[i]].priority < issues[ready[j]].priority
            || (issues[ready[i]].priority == issues[ready[j]].priority && LexLeq(ready[i], ready[j])))
    {
      WaveFields(completed);
      var g := Value();
      ready := [];
      for i := 0 to |order|
        invariant ready == Select(order[..i], g.Ready(completed))
      {
        var id := order[i];
        assert order[..i + 1] == order[..i] + [id];
        SelectSnoc(order[..i], id, g.Ready(completed));
        ReadyByParts(completed, id);
        if id in completed { continue; }
        if At(blockedBy, id) - completed != {} { continue; }
        if At(dependsOn, id) - completed != {} { continue; }
        ready := ready + [id];
      }
      assert order[..|order|] == order;
      ready := Sort(ready, g.Rank());
    }

    // The sort key (priority, id), read off the records.
    lemma RankFields()
      ensures forall a, b | a in issues && b in issues :: Value().Rank()(a, b) <==>
        issues[a].priority < issues[b].priority || (issues[a].priority == issues[b].priority && LexLeq(a, b))
    {}

    lemma WaveFields(completed: set<Id>)
      requires Valid()
      ensures forall id :: id in Value().Wave(completed) <==>
        && id in issues && id !in completed
        && (id in blockedBy ==> blockedBy[id] <= completed)
        && (id in dependsOn ==> dependsOn[id] <= completed)
      ensures var ready := Value().Wave(completed);
        forall i, j | 0 <= i < j < |ready| ::
          && ready[i] in issues && ready[j] in issues && ready[i] != ready[j]
          && (|| issues[ready[i]].priority < issues[ready[j]].priority
              || (issues[ready[i]].priority == issues[ready[j]].priority && LexLeq(ready[i], ready[j])))
    {
      hide Distinct, Sorted, Graph.Wave, Graph.Batch, Graph.Wf, Graph.Rank, LexLeq;
      var g, ready := Value(), Value().Wave(completed);
      ValueWf();
      WaveKnown(g, completed);
      WaveInRankOrder(g, completed);
      RankFields();
      assert forall id :: id in ready <==> id in Elems(ready);
      forall id ensures id in g.Ready(completed) <==>
        && id in issues && id !in completed
        && (id in blockedBy ==> blockedBy[id] <= completed)
        && (id in dependsOn ==> dependsOn[id] <= completed)
      {
        if id in issues { assert g.pre[id] == At(blockedBy, id) + At(dependsOn, id); }
      }
      forall i, j | 0 <= i < j < |ready|
        ensures ready[i] in issues && ready[j] in issues && ready[i] != ready[j] && g.Rank()(ready[i], ready[j])
      {
        assert ready[i] in ready && ready[j] in ready;
      }
    }

    lemma ReadyByParts(completed: set<Id>, id: Id)
      requires Valid() && id in order
      ensures id in Value().Ready(completed) <==>
                id !in completed && At(blockedBy, id) - completed == {} && At(dependsOn, id) - completed == {}
    {
      hide Distinct;
      assert id in Elems(order);
      assert Value().pre[id] == At(blockedBy, id) + At(dependsOn, id);
    }

    // `detect_cycles`: every reported list is a simple closed walk along real edges,
    // and every cycle of the graph runs through the closing edge of a reported one.
    method DetectCycles() returns (cycles: seq<seq<Id>>)
      requires Valid()
      ensures AllSimple(Prerequisites(), cycles) && EveryCycleCut(Prerequisites(), cycles)
      ensures cycles != [] <==> Cyclic(Prerequisites())
      ensures forall c | c in cycles ::
        && |c| >= 2 && c[0] == c[|c| - 1] && (forall i, j | 1 <= i < j < |c| :: c[i] != c[j])
        && (forall i | 0 <= i < |c| :: c[i] in issues)
        && forall i | 0 <= i < |c| - 1 :: c[i + 1] in Waits(c[i])
    {
      hide *;
      var g := Prerequisites();
      ValueWf();
      OrderKnown();
      var search := new CycleSearch(g);
      for i := 0 to |order|
        invariant fresh(search) && search.Valid() && search.g == g && search.path == []
        invariant forall id | id in order[..i] :: id in search.finished
      {
        assert order[..i + 1] == order[..i] + [order[i]];
        search.DfsFromRoot(order[i]);
      }
      search.Facts();
      assert order[..|order|] == order;
      cycles := search.cycles;
      OrderCovers(search.finished);
      FinishedCutsCycles(g, search.finished, cycles);
      ReportsIffCyclic(g, cycles);
      CyclesFields(cycles);
    }

    lemma CyclesFields(cycles: seq<seq<Id>>)
      requires AllSimple(Prerequisites(), cycles)
      ensures forall c | c in cycles ::
        && |c| >= 2 && c[0] == c[|c| - 1] && (forall i, j | 1 <= i < j < |c| :: c[i] != c[j])
        && (forall i | 0 <= i < |c| :: c[i] in issues)
        && forall i | 0 <= i < |c| - 1 :: c[i + 1] in Waits(c[i])
    {
      forall c | c in cycles
        ensures |c| >= 2 && c[0] == c[|c| - 1] && (forall i, j | 1 <= i < j < |c| :: c[i] != c[j])
        ensures forall i | 0 <= i < |c| :: c[i] in issues
        ensures forall i | 0 <= i < |c| - 1 :: c[i + 1] in Waits(c[i])
      {
        CycleFields(c);
      }
    }

    lemma CycleFields(c: seq<Id>)
      requires IsSimpleCycle(Prerequisites(), c)
      ensures |c| >= 2 && c[0] == c[|c| - 1] && (forall i, j | 1 <= i < j < |c| :: c[i] != c[j])
      ensures forall i | 0 <= i < |c| :: c[i] in issues
      ensures forall i | 0 <= i < |c| - 1 :: c[i + 1] in Waits(c[i])
    {
      forall i, j | 1 <= i < j < |c| ensures c[i] != c[j] {
        assert c[1..][i - 1] != c[1..][j - 1];
      }
      forall i | 0 <= i < |c| - 1 ensures c[i + 1] in Waits(c[i]) {
        assert Prerequisites()[c[i]] == Waits(c[i]);
      }
    }

    lemma OrderKnown()
      requires Valid()
      ensures forall id | id in order :: id in Value().pre
      ensures |issues| == |Value().pre.Keys|
    {
      hide Distinct;
      assert forall id | id in order :: id in Elems(order);
      assert Value().pre.Keys == issues.Keys;
    }

    lemma OrderCovers(finished: seq<Id>)
      requires Valid() && forall id | id in order :: id in finished
      ensures Prerequisites().Keys <= Elems(finished)
    {
      hide Distinct;
      forall v | v in Prerequisites() ensures v in finished {
        assert v in Elems(order);
      }
    }

    // `get_execution_waves`: raises exactly when the part of the graph outside
    // `completed` is cyclic, and then names at least one cycle.
    method GetExecutionWaves(completed: set<Id>) returns (r: Result<seq<seq<Id>>>)
      requires Valid()
      ensures r.Ok? <==> !CyclicWithin(Prerequisites(), issues.Keys - completed)
      ensures r.Ok? ==> r.value == Value().Waves(completed)
      ensures r.Ok? ==> forall k | 0 <= k < |r.value| :: SortedByKey(r.value[k])
      ensures r.CycleError? ==> r.cycles != [] && AllSimple(Prerequisites(), r.cycles)
    {
      hide *;
      ValueWf();
      ghost var g := Value();
      var waves: seq<seq<Id>>, processed := [], completed;
      CollectStart(g, completed);
      while true
        invariant Collected(g, completed, waves, processed)
        decreases g.pre.Keys - processed
      {
        CollectStep(g, completed, waves, processed);
        var wave := GetReadyIssues(processed);
        if wave == [] { break; }
        waves := waves + [wave];
        processed := AddAll(processed, wave);
      }
      LeftoverIffCyclic(g, completed, processed);
      var remaining := issues.Keys - processed;
      if remaining != {} {
        var cycles := DetectCycles();
        return CycleError(cycles);
      }
      WavesFields(completed, waves);
      return Ok(waves);
    }

    // The reverse edges of both kinds: `blocks` plus the inverse of `dependsOn`.
    method Dependents() returns (dependents: Adj)
      requires Valid()
      ensures IsReverse(dependents, Prerequisites())
    {
      hide Consistent, Reversing;
      ConsistentKeys(order, issues.Keys, blockedBy, blocks, dependsOn);
      dependents := blocks;
      ghost var seen: Adj := map[];
      ReverseStart(blocks);
      var todo := dependsOn.Keys;
      while todo != {}
        invariant todo <= dependsOn.Keys && Reversing(dependents, blocks, seen)
        invariant forall a :: At(seen, a) == if a in todo then {} else At(dependsOn, a)
        decreases todo
      {
        var id :| id in todo;
        todo := todo - {id};
        var prereqs := dependsOn[id];
        assert prereqs <= blocks.Keys;
        while prereqs != {}
          invariant prereqs <= dependsOn[id] && Reversing(dependents, blocks, seen)
          invariant forall a :: At(seen, a) ==
                      if a in todo then {} else if a == id then dependsOn[id] - prereqs else At(dependsOn, a)
          decreases prereqs
        {
          var prereq :| prereq in prereqs;
          prereqs := prereqs - {prereq};
          ReverseStep(dependents, blocks, seen, id, prereq);
          dependents := dependents[prereq := At(dependents, prereq) + {id}];
          seen := Extend(seen, id, {prereq});
        }
      }
      ReverseEnd(dependents, seen);
    }

    lemma ReverseEnd(dependents: Adj, seen: Adj)
      requires Valid() && Reversing(dependents, blocks, seen)
      requires forall a :: At(seen, a) == At(dependsOn, a)
      ensures IsReverse(dependents, Prerequisites())
    {
      hide Distinct, Elems;
      forall v, w | v in dependents
        ensures w in dependents[v] <==> w in Prerequisites() && v in Prerequisites()[w]
      {
        assert w in At(dependents, v) <==> w in At(blocks, v) || v in At(seen, w);
        assert At(seen, w) == At(dependsOn, w);
      }
    }

    lemma CountsStart(inDegree: map<Id, int>)
      requires Valid()
      requires inDegree == map id | id in blockedBy :: |blockedBy[id] + At(dependsOn, id)|
      ensures Counts(Value(), inDegree, [])
    {
      hide DependencyGraph.Valid, Distinct, Elems, At, Missing;
      var g := Value();
      ValueWf();
      BlockersKnown();
      forall w | w in g.pre ensures w in blockedBy && inDegree[w] == |Missing(g, w, Elems([]))| {
        NothingEmitted(g, w);
        AtIs(blockedBy, w);
      }
    }

    lemma BlockersKnown()
      requires Valid()
      ensures blockedBy.Keys == issues.Keys
    {}

    // The last prerequisite of `w`, hard or soft, is the n-th emitted issue.
    ghost predicate Freed(out: seq<Id>, w: Id, n: nat)
      reads this
    {
      && n <= |out| && Waits(w) <= Elems(out[..n])
      && (n > 0 ==> !(Waits(w) <= Elems(out[..n - 1])))
    }

    ghost function Waits(w: Id): set<Id>
      reads this
    {
      (if w in blockedBy then blockedBy[w] else {}) + (if w in dependsOn then dependsOn[w] else {})
    }

    lemma FreedIs(out: seq<Id>, w: Id, n: nat)
      ensures Freed(out, w, n) && w in issues ==> ReleasedAt(Value(), out, w, n)
    {
      if w in issues { assert Value().pre[w] == Waits(w); }
    }

    lemma OrderFields(out: seq<Id>)
      requires Valid()
      requires Value().Wf() && out == KahnOrder(Value())
      ensures forall i, j, n: nat | 0 <= i < j < |out| && Freed(out, out[i], n) && Freed(out, out[j], n) ::
        var a, b := out[i], out[j];
        && a in issues && b in issues && a != b
        && (|| issues[a].priority < issues[b].priority
            || (issues[a].priority == issues[b].priority && LexLeq(a, b)))
    {
      hide DependencyGraph.Valid, Graph.Wf, Graph.Rank, KahnOrder, LexLeq, DependencyGraph.Freed, ReleasedAt;
      ValueWf();
      RankFields();
      var g := Value();
      TopologicalOrder(g);
      OrderedByRelease(g);
      forall i, j, n: nat | 0 <= i < j < |out| && Freed(out, out[i], n) && Freed(out, out[j], n)
        ensures out[i] in issues && out[j] in issues && out[i] != out[j] && g.Rank()(out[i], out[j])
      {
        assert out[i] in Elems(out) && out[j] in Elems(out);
        FreedIs(out, out[i], n);
        FreedIs(out, out[j], n);
      }
    }

    // By priority, and by id among equals, without repetition.
    ghost predicate SortedByKey(wave: seq<Id>)
      reads this
    {
      forall i, j | 0 <= i < j < |wave| ::
        && wave[i] in issues && wave[j] in issues && wave[i] != wave[j]
        && (|| issues[wave[i]].priority < issues[wave[j]].priority
            || (issues[wave[i]].priority == issues[wave[j]].priority && LexLeq(wave[i], wave[j])))
    }

    lemma WavesFields(completed: set<Id>, waves: seq<seq<Id>>)
      requires Valid() && waves == Value().Waves(completed)
      ensures forall k | 0 <= k < |waves| :: SortedByKey(waves[k])
    {
      hide *;
      ValueWf();
      forall k | 0 <= k < |waves| ensures SortedByKey(waves[k]) {
        WaveAt(Value(), completed, k);
        ReadyIsKnown(Value(), Value().Done(completed, k));
        RankedFields(waves[k]);
      }
    }

    lemma RankedFields(wave: seq<Id>)
      requires Valid() && Distinct(wave) && Sorted(wave, Value().Rank()) && Elems(wave) <= issues.Keys
      ensures SortedByKey(wave)
    {
      hide DependencyGraph.Valid, Graph.Rank, DependencyGraph.Value, LexLeq;
      RankFields();
      forall i, j | 0 <= i < j < |wave|
        ensures wave[i] in issues && wave[j] in issues && wave[i] != wave[j] && Value().Rank()(wave[i], wave[j])
      {
        assert wave[i] in Elems(wave) && wave[j] in Elems(wave);
      }
    }

    // `topological_sort`: raises exactly when the graph is cyclic.
    method TopologicalSort() returns (r: Result<seq<Id>>)
      requires Valid()
      ensures r.Ok? <==> !Cyclic(Prerequisites())
      ensures r.Ok? ==> Value().Wf() && r.value == KahnOrder(Value())
      ensures r.Ok? ==> forall i, j, n: nat
        | 0 <= i < j < |r.value| && Freed(r.value, r.value[i], n) && Freed(r.value, r.value[j], n) ::
        var a, b := r.value[i], r.value[j];
        && a in issues && b in issues && a != b
        && (|| issues[a].priority < issues[b].priority
            || (issues[a].priority == issues[b].priority && LexLeq(a, b)))
      ensures r.CycleError? ==> r.cycles != [] && AllSimple(Prerequisites(), r.cycles)
    {
      hide *;
      ValueWf();
      OrderKnown();
      var g := Value();
      var inDegree: map<Id, int> := map id | id in blockedBy :: |blockedBy[id] + At(dependsOn, id)|;
      CountsStart(inDegree);
      var dependents := Dependents();
      var queue := FirstQueue(g, inDegree);
      var result := Drain(g, inDegree, dependents, queue);
      OrderFields(result);
      if |result| != |issues| {
        var cycles := DetectCycles();
        return CycleError(cycles);
      }
      return Ok(result);
    }
  }

  lemma WaveInRankOrder(g: Graph, done: set<Id>)
    requires g.Wf()
    ensures forall i, j | 0 <= i < j < |g.Wave(done)| ::
      g.Wave(done)[i] != g.Wave(done)[j] && g.Rank()(g.Wave(done)[i], g.Wave(done)[j])
  {
    hide Graph.Batch, Graph.Rank, Graph.Wf;
    BatchElems(g, g.Ready(done));
  }

  lemma NothingEmitted(g: Graph, w: Id)
    requires w in g.pre
    ensures Missing(g, w, Elems([])) == g.pre[w]
  {}

  // The issues whose counter is zero, sorted.
  method FirstQueue(g: Graph, inDegree: map<Id, int>) returns (queue: seq<Id>)
    requires g.Wf() && Counts(g, inDegree, [])
    ensures Progress(g, [], queue)
  {
    hide *;
    OrderInGraph(g);
    CountsKeys(g, inDegree, []);
    SelectNone(g.order, g.Ready({}));
    var zero: seq<Id> := [];
    for i := 0 to |g.order|
      invariant zero == Select(g.order[..i], g.Ready({}))
    {
      ZeroDegree(g, inDegree, g.order[i]);
      SelectSnoc(g.order[..i], g.order[i], g.Ready({}));
      assert g.order[..i + 1] == g.order[..i] + [g.order[i]];
      if inDegree[g.order[i]] == 0 { zero := zero + [g.order[i]]; }
    }
    assert g.order[..|g.order|] == g.order;
    ProgressStart(g, zero);
    queue := Sort(zero, g.Rank());
  }

  lemma OrderInGraph(g: Graph)
    requires g.Wf()
    ensures forall i | 0 <= i < |g.order| :: g.order[i] in g.pre
  {
    forall i | 0 <= i < |g.order| ensures g.order[i] in g.pre {
      assert g.order[i] in Elems(g.order);
    }
  }

  lemma CountsKeys(g: Graph, inDegree: map<Id, int>, out: seq<Id>)
    requires Counts(g, inDegree, out)
    ensures inDegree.Keys == g.pre.Keys
  {}

  // The decrement loop for one emitted issue.
  method Release(g: Graph, degrees: map<Id, int>, out: seq<Id>, id: Id, dependents: Adj)
      returns (inDegree: map<Id, int>, batch: seq<Id>)
    requires g.Wf() && Counts(g, degrees, out) && id !in out && id in g.pre
    requires IsReverse(dependents, g.pre)
    ensures Counts(g, inDegree, out + [id])
    ensures batch == g.Batch(Released(g, out, id))
  {
    hide *;
    ReverseAt(dependents, g.pre, id);
    inDegree := degrees;
    var ready: seq<Id>, todo := [], dependents[id];
    ghost var all := todo;
    CountingStart(g, inDegree, out, id);
    assert all - todo == {};
    while todo != {}
      invariant Counting(g, inDegree, out, id, all - todo, ready) && todo <= all
      decreases todo
    {
      var w :| w in todo;
      CountingStep(g, inDegree, out, id, all - todo, ready, w);
      assert all - (todo - {w}) == all - todo + {w};
      inDegree := inDegree[w := inDegree[w] - 1];
      if inDegree[w] == 0 { ready := ready + [w]; }
      todo := todo - {w};
    }
    assert all - todo == all;
    CountingDone(g, inDegree, out, id, all, ready);
    batch := Sort(ready, g.Rank());
  }

  // The `while queue` loop of Kahn's algorithm.
  method Drain(g: Graph, degrees: map<Id, int>, dependents: Adj, start: seq<Id>) returns (result: seq<Id>)
    requires g.Wf() && Counts(g, degrees, []) && IsReverse(dependents, g.pre) && Progress(g, [], start)
    ensures result == KahnOrder(g)
    ensures |result| == |g.pre.Keys| <==> !Cyclic(g.pre)
  {
    hide *;
    var queue, inDegree := start, degrees;
    result := [];
    while queue != []
      invariant Progress(g, result, queue) && Counts(g, inDegree, result)
      decreases |g.pre.Keys| - |result|
    {
      ProgressStep(g, result, queue);
      var id := queue[0];
      var batch;
      inDegree, batch := Release(g, inDegree, result, id, dependents);
      result := result + [id];
      queue := queue[1..] + batch;
    }
    ProgressEnd(g, result);
  }
}
