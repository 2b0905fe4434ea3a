/** Python's `list.sort` on keys with a total order, and the string order it uses.
    The sort is described by insertion; `SortedUnique` shows that, for distinct keys,
    the sorted list depends only on which keys are present and not on the order in
    which a set or a directory listing happened to deliver them. */
module Ordering {

  // Python compares strings lexicographically by code point.
  predicate LexLeq(a: string, b: string) {
    if a == [] then true
    else if b == [] then false
    else if a[0] != b[0] then a[0] < b[0]
    else LexLeq(a[1..], b[1..])
  }

  predicate SameUpTo(a: string, b: string, n: nat) {
    n < |a| && n < |b| && a[..n] == b[..n]
  }

  lemma SameNext(a: string, b: string, n: nat)
    requires a != [] && b != []
    ensures SameUpTo(a, b, n + 1) <==> a[0] == b[0] && SameUpTo(a[1..], b[1..], n)
  {
    if n < |a[1..]| && n < |b[1..]| {
      assert a[..n + 1] == [a[0]] + a[1..][..n] && b[..n + 1] == [b[0]] + b[1..][..n];
      assert a[1..][..n] == a[..n + 1][1..] && b[1..][..n] == b[..n + 1][1..];
      assert a[0] == a[..n + 1][0] && b[0] == b[..n + 1][0];
    }
  }

  // A prefix comes first, and otherwise the smaller character at the first difference.
  lemma {:induction false} LexIff(a: string, b: string)
    ensures LexLeq(a, b) <==> a <= b || exists n: nat :: SameUpTo(a, b, n) && a[n] < b[n]
    ensures forall n: nat :: SameUpTo(a, b, n) <==> n < |a| && n < |b| && a[..n] == b[..n]
  {
    if a != [] && b != [] {
      LexIff(a[1..], b[1..]);
      assert a <= b <==> a[0] == b[0] && a[1..] <= b[1..];
      if n: nat :| SameUpTo(a, b, n) && a[n] < b[n] {
        if n > 0 { SameNext(a, b, n - 1); }
      }
      if n: nat :| a[0] == b[0] && SameUpTo(a[1..], b[1..], n) && a[1..][n] < b[1..][n] { SameNext(a, b, n); }
      if a[0] < b[0] { assert SameUpTo(a, b, 0); }
    }
  }

  lemma {:induction false} LexAntisymmetric(a: string, b: string)
    requires LexLeq(a, b) && LexLeq(b, a)
    ensures a == b
  {
    if a != [] && b != [] {
      LexAntisymmetric(a[1..], b[1..]);
      assert a == [a[0]] + a[1..] && b == [b[0]] + b[1..];
    }
  }

  lemma {:induction false} LexTransitive(a: string, b: string, c: string)
    requires LexLeq(a, b) && LexLeq(b, c)
    ensures LexLeq(a, c)
  {
    if a != [] && b != [] && c != [] && a[0] == b[0] == c[0] {
      LexTransitive(a[1..], b[1..], c[1..]);
    }
  }

  lemma {:induction false} LexTotal(a: string, b: string)
    ensures LexLeq(a, b) || LexLeq(b, a)
  {
    if a != [] && b != [] && a[0] == b[0] {
      LexTotal(a[1..], b[1..]);
    }
  }

  ghost predicate TotalOrder<T(!new)>(leq: (T, T) -> bool) {
    && (forall a, b :: leq(a, b) || leq(b, a))
    && (forall a, b :: leq(a, b) && leq(b, a) ==> a == b)
    && (forall a, b, c :: leq(a, b) && leq(b, c) ==> leq(a, c))
  }

  ghost predicate Sorted<T(!new)>(s: seq<T>, leq: (T, T) -> bool) {
    forall i, j | 0 <= i < j < |s| :: leq(s[i], s[j])
  }

  ghost predicate Distinct<T>(s: seq<T>) {
    forall i, j | 0 <= i < j < |s| :: s[i] != s[j]
  }

  function Elems<T>(s: seq<T>): set<T> {
    set x | x in s
  }

  function Insert<T(!new)>(x: T, s: seq<T>, leq: (T, T) -> bool): seq<T> {
    if s == [] || leq(x, s[0]) then [x] + s else [s[0]] + Insert(x, s[1..], leq)
  }

  function Sort<T(!new)>(s: seq<T>, leq: (T, T) -> bool): seq<T> {
    if s == [] then [] else Insert(s[0], Sort(s[1..], leq), leq)
  }

  lemma {:induction false} InsertPermutes<T(!new)>(x: T, s: seq<T>, leq: (T, T) -> bool)
    ensures multiset(Insert(x, s, leq)) == multiset(s) + multiset{x}
  {
    if s != [] && !leq(x, s[0]) {
      InsertPermutes(x, s[1..], leq);
      assert s == [s[0]] + s[1..];
    }
  }

  lemma {:induction false} InsertCorrect<T(!new)>(x: T, s: seq<T>, leq: (T, T) -> bool)
    requires TotalOrder(leq) && Sorted(s, leq)
    ensures multiset(Insert(x, s, leq)) == multiset(s) + multiset{x}
    ensures Sorted(Insert(x, s, leq), leq)
  {
    InsertPermutes(x, s, leq);
    if s == [] || leq(x, s[0]) {
      assert forall i | 0 <= i < |s| :: leq(x, s[i]);
    } else {
      InsertCorrect(x, s[1..], leq);
      var r := Insert(x, s[1..], leq);
      forall y | y in r ensures leq(s[0], y) {
        InsertMembers(x, s[1..], leq, y);
      }
    }
  }

  lemma InsertMembers<T(!new)>(x: T, s: seq<T>, leq: (T, T) -> bool, y: T)
    requires y in Insert(x, s, leq)
    ensures y == x || y in s
  {
    InsertPermutes(x, s, leq);
    assert y in multiset(Insert(x, s, leq));
  }

  // The sorted list is a permutation of the input in ascending order.
  lemma {:induction false} SortCorrect<T(!new)>(s: seq<T>, leq: (T, T) -> bool)
    requires TotalOrder(leq)
    ensures multiset(Sort(s, leq)) == multiset(s) && |Sort(s, leq)| == |s|
    ensures Elems(Sort(s, leq)) == Elems(s)
    ensures Sorted(Sort(s, leq), leq)
  {
    if s != [] {
      SortCorrect(s[1..], leq);
      InsertCorrect(s[0], Sort(s[1..], leq), leq);
      assert s == [s[0]] + s[1..];
    }
    SameMultiset(Sort(s, leq), s);
  }

  lemma SameMultiset<T>(a: seq<T>, b: seq<T>)
    requires multiset(a) == multiset(b)
    ensures |a| == |b| && Elems(a) == Elems(b)
  {
    assert |a| == |multiset(a)| && |b| == |multiset(b)|;
    assert forall x :: x in a <==> x in multiset(a);
    assert forall x :: x in b <==> x in multiset(b);
  }

  // A sorted list without repetition is determined by its set of elements.
  lemma {:induction false} SortedUnique<T(!new)>(a: seq<T>, b: seq<T>, leq: (T, T) -> bool)
    requires TotalOrder(leq) && Sorted(a, leq) && Sorted(b, leq)
    requires Distinct(a) && Distinct(b) && Elems(a) == Elems(b)
    ensures a == b
  {
    EmptyElems(a);
    EmptyElems(b);
    if a != [] {
      assert a[0] in Elems(b);
      assert b[0] in Elems(a);
      assert a[0] == b[0];
      RestElems(a);
      RestElems(b);
      SortedUnique(a[1..], b[1..], leq);
      assert a == [a[0]] + a[1..] && b == [b[0]] + b[1..];
    }
  }

  lemma ElemsSnoc<T>(s: seq<T>, i: nat)
    requires i < |s|
    ensures Elems(s[..i + 1]) == Elems(s[..i]) + {s[i]}
  {
    assert s[..i + 1] == s[..i] + [s[i]];
  }

  lemma ElemsEnds<T>(s: seq<T>)
    ensures Elems(s[..0]) == {} && Elems(s[..|s|]) == Elems(s)
  {
    assert s[..|s|] == s;
  }

  lemma EmptyElems<T>(s: seq<T>)
    ensures Elems(s) == {} <==> s == []
  {
    if s != [] { assert s[0] in Elems(s); }
  }

  lemma RestElems<T>(s: seq<T>)
    requires s != [] && Distinct(s)
    ensures Elems(s[1..]) == Elems(s) - {s[0]} && Distinct(s[1..])
  {
    assert s == [s[0]] + s[1..];
    forall x | x in s[1..] ensures x != s[0] {
      var i :| 0 <= i < |s[1..]| && s[1..][i] == x;
      assert s[i + 1] == x;
    }
  }

  lemma {:induction false} DistinctCard<T>(s: seq<T>)
    requires Distinct(s)
    ensures |Elems(s)| == |s|
  {
    if s != [] {
      RestElems(s);
      DistinctCard(s[1..]);
      assert Elems(s) == Elems(s[1..]) + {s[0]};
    }
  }

  lemma {:induction false} DistinctMultiset<T>(s: seq<T>)
    requires Distinct(s)
    ensures multiset(s) == multiset(Elems(s))
  {
    if s != [] {
      RestElems(s);
      DistinctMultiset(s[1..]);
      assert s == [s[0]] + s[1..];
      assert Elems(s) == Elems(s[1..]) + {s[0]};
    }
  }

  lemma {:induction false} MultisetDistinct<T>(a: seq<T>, b: seq<T>)
    requires multiset(a) == multiset(b) && Distinct(b)
    ensures Distinct(a)
  {
    DistinctMultiset(b);
    forall i, j | 0 <= i < j < |a| ensures a[i] != a[j] {
      assert a == a[..i] + [a[i]] + a[i + 1..j] + [a[j]] + a[j + 1..];
      assert multiset(a)[a[i]] <= 1;
    }
  }

  // Two enumerations of the same distinct elements sort to the same list.
  lemma SortCanonical<T(!new)>(a: seq<T>, b: seq<T>, leq: (T, T) -> bool)
    requires TotalOrder(leq) && Distinct(a) && Distinct(b) && Elems(a) == Elems(b)
    ensures Sort(a, leq) == Sort(b, leq)
    ensures Distinct(Sort(a, leq))
  {
    SortCorrect(a, leq);
    SortCorrect(b, leq);
    MultisetDistinct(Sort(a, leq), a);
    MultisetDistinct(Sort(b, leq), b);
    SortedUnique(Sort(a, leq), Sort(b, leq), leq);
  }

  // `[x for x in order if x in chosen]`
  function Select<T>(order: seq<T>, chosen: set<T>): seq<T> {
    if order == [] then []
    else (if order[0] in chosen then [order[0]] else []) + Select(order[1..], chosen)
  }

  lemma {:induction false} SelectElems<T>(order: seq<T>, chosen: set<T>)
    requires Distinct(order)
    ensures Elems(Select(order, chosen)) == Elems(order) * chosen
    ensures Distinct(Select(order, chosen))
  {
    if order != [] {
      RestElems(order);
      var rest := Select(order[1..], chosen);
      SelectElems(order[1..], chosen);
      assert Elems(order) == Elems(order[1..]) + {order[0]};
      assert Elems([order[0]] + rest) == {order[0]} + Elems(rest);
      assert [] + rest == rest;
      forall x | x in rest ensures x != order[0] {
        assert x in Elems(rest);
      }
    }
  }

  lemma {:induction false} SelectSnoc<T>(order: seq<T>, x: T, chosen: set<T>)
    ensures Select(order + [x], chosen) ==
      if x in chosen then Select(order, chosen) + [x] else Select(order, chosen)
  {
    if order == [] {
      assert order + [x] == [x];
      assert [x][1..] == [];
    } else {
      var head := if order[0] in chosen then [order[0]] else [];
      SelectSnoc(order[1..], x, chosen);
      assert (order + [x])[1..] == order[1..] + [x];
      assert head + (Select(order[1..], chosen) + [x]) == head + Select(order[1..], chosen) + [x];
    }
  }

  lemma SelectNone<T>(order: seq<T>, chosen: set<T>)
    ensures Select(order[..0], chosen) == [] && order[..|order|] == order
  {}

  lemma {:induction false} InsertAt<T(!new)>(x: T, s: seq<T>, leq: (T, T) -> bool) returns (i: nat)
    ensures i <= |s| && Insert(x, s, leq) == s[..i] + [x] + s[i..]
  {
    if s == [] || leq(x, s[0]) {
      i := 0;
    } else {
      i := InsertAt(x, s[1..], leq);
      assert s[..i + 1] == [s[0]] + s[1..][..i] && s[i + 1..] == s[1..][i..];
      i := i + 1;
    }
  }

  // Sorting one more element puts it somewhere into the sorted rest.
  lemma SortInserts<T(!new)>(x: T, s: seq<T>, all: seq<T>, leq: (T, T) -> bool) returns (i: nat)
    requires TotalOrder(leq) && Distinct(s) && Distinct(all) && x !in s
    requires Elems(all) == Elems(s) + {x}
    ensures i <= |Sort(s, leq)| && Sort(all, leq) == Sort(s, leq)[..i] + [x] + Sort(s, leq)[i..]
  {
    hide TotalOrder, Sort, Distinct, Insert;
    DistinctCons(x, s);
    SortCons(x, s, leq);
    SortCanonical([x] + s, all, leq);
    i := InsertAt(x, Sort(s, leq), leq);
  }

  lemma DistinctCons<T>(x: T, s: seq<T>)
    requires Distinct(s) && x !in s
    ensures Distinct([x] + s) && Elems([x] + s) == {x} + Elems(s)
  {}

  lemma SortCons<T(!new)>(x: T, s: seq<T>, leq: (T, T) -> bool)
    ensures Sort([x] + s, leq) == Insert(x, Sort(s, leq), leq)
  {
    assert ([x] + s)[1..] == s;
  }
}
