/** JSON values with Python's `==` and `<` on them.  `<` raises TypeError on values of
    different kinds and on dictionaries, wherever a comparison of lists first runs into them. */
module JsonOrder {
  import opened Basics
  import opened Ordering

  datatype Json =
    Null | Bool(b: bool) | Num(n: int) | Str(s: string) | Arr(items: seq<Json>) | Obj(fields: map<string, Json>)

  // Booleans are the numbers 0 and 1; two values are `==` when their canonical forms are equal.
  function Canon(j: Json): Json {
    match j
    case Bool(b) => Num(if b then 1 else 0)
    case Arr(items) => Arr(seq(|items|, i requires 0 <= i < |items| => Canon(items[i])))
    case Obj(fields) => Obj(map k | k in fields :: Canon(fields[k]))
    case _ => j
  }

  datatype Order = Before | Same | After

  // `None` stands for the TypeError.
  function Compare(x: Json, y: Json): Option<Order> {
    CompareCanon(Canon(x), Canon(y))
  }

  function CompareCanon(x: Json, y: Json): Option<Order>
    decreases x
  {
    if x == y then Some(Same)
    else
      match (x, y)
      case (Num(a), Num(b)) => Some(if a < b then Before else After)
      case (Str(a), Str(b)) => Some(if LexLeq(a, b) then Before else After)
      case (Arr(a), Arr(b)) => CompareItems(a, b)
      case _ => None
  }

  function CompareItems(xs: seq<Json>, ys: seq<Json>): Option<Order>
    decreases xs
  {
    if xs == [] then Some(if ys == [] then Same else Before)
    else if ys == [] then Some(After)
    else if xs[0] == ys[0] then CompareItems(xs[1..], ys[1..])
    else CompareCanon(xs[0], ys[0])
  }

  // Whether two values are `==` in Python, with booleans as numbers.
  predicate Equal(x: Json, y: Json) {
    Canon(x) == Canon(y)
  }

  predicate SameFirst(xs: seq<Json>, ys: seq<Json>, k: nat) {
    k <= |xs| && k <= |ys| && forall i | 0 <= i < k :: Equal(xs[i], ys[i])
  }

  // `<` and `==` kind by kind: numbers and booleans by value, strings by code point, lists by
  // their first unequal items or else by length; other pairs answer only when they are equal.
  lemma CompareMeans(x: Json, y: Json)
    ensures Compare(x, y) == Some(Same) <==> Equal(x, y)
    ensures var number := (j: Json) => j.Num? || j.Bool?;
      var value := (j: Json) => if j.Num? then j.n else if j.Bool? && j.b then 1 else 0;
      && (number(x) && number(y) ==>
           Compare(x, y) == Some(if value(x) < value(y) then Before else if value(x) == value(y) then Same else After))
      && (!Equal(x, y) && !(number(x) && number(y)) && !(x.Str? && y.Str?) && !(x.Arr? && y.Arr?) ==>
           Compare(x, y) == None)
    ensures x.Str? && y.Str? ==>
      Compare(x, y) == Some(if x.s == y.s then Same else if LexLeq(x.s, y.s) then Before else After)
    ensures x.Arr? && y.Arr? ==>
      forall k: nat | SameFirst(x.items, y.items, k) ::
        && (k < |x.items| && k < |y.items| && !Equal(x.items[k], y.items[k]) ==>
             Compare(x, y) == Compare(x.items[k], y.items[k]))
        && (k == |x.items| < |y.items| ==> Compare(x, y) == Some(Before))
        && (k == |y.items| < |x.items| ==> Compare(x, y) == Some(After))
  {
    CanonSame(Canon(x), Canon(y));
    if x.Arr? && y.Arr? {
      var xs, ys := Canon(x).items, Canon(y).items;
      forall k: nat | SameFirst(x.items, y.items, k)
        ensures k < |x.items| && k < |y.items| && !Equal(x.items[k], y.items[k]) ==>
          Compare(x, y) == Compare(x.items[k], y.items[k])
        ensures k == |x.items| < |y.items| ==> Compare(x, y) == Some(Before)
        ensures k == |y.items| < |x.items| ==> Compare(x, y) == Some(After)
      {
        assert forall i | 0 <= i < k :: xs[i] == ys[i];
        ItemsBehind(xs, ys, k);
        if k < |xs| && k < |ys| { assert xs[k] == Canon(x.items[k]) && ys[k] == Canon(y.items[k]); }
      }
    }
  }

  lemma {:induction false} ItemsBehind(xs: seq<Json>, ys: seq<Json>, k: nat)
    requires k <= |xs| && k <= |ys| && forall i | 0 <= i < k :: xs[i] == ys[i]
    ensures k < |xs| && k < |ys| && xs[k] != ys[k] ==> xs != ys && CompareItems(xs, ys) == CompareCanon(xs[k], ys[k])
    ensures k == |xs| < |ys| ==> xs != ys && CompareItems(xs, ys) == Some(Before)
    ensures k == |ys| < |xs| ==> xs != ys && CompareItems(xs, ys) == Some(After)
  {
    if k > 0 {
      assert forall i | 0 <= i < k - 1 :: xs[1..][i] == xs[i + 1] && ys[1..][i] == ys[i + 1];
      ItemsBehind(xs[1..], ys[1..], k - 1);
    }
  }

  function Flip(o: Option<Order>): Option<Order> {
    match o
    case Some(Before) => Some(After)
    case Some(After) => Some(Before)
    case _ => o
  }

  lemma {:induction false} CompareFlips(x: Json, y: Json)
    ensures CompareCanon(y, x) == Flip(CompareCanon(x, y))
    decreases x
  {
    if x != y && x.Str? && y.Str? {
      LexTotal(x.s, y.s);
      if LexLeq(x.s, y.s) && LexLeq(y.s, x.s) { LexAntisymmetric(x.s, y.s); }
    } else if x != y && x.Arr? && y.Arr? {
      ItemsFlip(x.items, y.items);
    }
  }

  lemma {:induction false} ItemsFlip(xs: seq<Json>, ys: seq<Json>)
    ensures CompareItems(ys, xs) == Flip(CompareItems(xs, ys))
    decreases xs
  {
    if xs != [] && ys != [] {
      if xs[0] == ys[0] {
        ItemsFlip(xs[1..], ys[1..]);
      } else {
        CompareFlips(xs[0], ys[0]);
      }
    }
  }

  lemma {:induction false} BeforeTransitive(x: Json, y: Json, z: Json)
    requires CompareCanon(x, y) == Some(Before) && CompareCanon(y, z) == Some(Before)
    ensures CompareCanon(x, z) == Some(Before)
    decreases x
  {
    if x.Str? {
      LexTransitive(x.s, y.s, z.s);
      if x.s == z.s { LexAntisymmetric(x.s, y.s); }
    } else if x.Arr? {
      ItemsTransitive(x.items, y.items, z.items);
      ItemsSame(x.items, z.items);
    }
  }

  lemma {:induction false} ItemsSame(xs: seq<Json>, ys: seq<Json>)
    ensures CompareItems(xs, ys) == Some(Same) <==> xs == ys
    decreases xs
  {
    if xs != [] && ys != [] {
      assert xs == [xs[0]] + xs[1..] && ys == [ys[0]] + ys[1..];
      if xs[0] == ys[0] {
        ItemsSame(xs[1..], ys[1..]);
      } else {
        CanonSame(xs[0], ys[0]);
      }
    }
  }

  lemma {:induction false} CanonSame(x: Json, y: Json)
    ensures CompareCanon(x, y) == Some(Same) <==> x == y
    decreases x
  {
    if x != y && x.Arr? && y.Arr? {
      ItemsSame(x.items, y.items);
    }
  }

  lemma {:induction false} ItemsTransitive(xs: seq<Json>, ys: seq<Json>, zs: seq<Json>)
    requires CompareItems(xs, ys) == Some(Before) && CompareItems(ys, zs) == Some(Before)
    ensures CompareItems(xs, zs) == Some(Before)
    decreases xs
  {
    if xs != [] {
      if xs[0] == ys[0] && ys[0] == zs[0] {
        ItemsTransitive(xs[1..], ys[1..], zs[1..]);
      } else if xs[0] != ys[0] && ys[0] != zs[0] {
        BeforeTransitive(xs[0], ys[0], zs[0]);
        CanonSame(xs[0], zs[0]);
      }
    }
  }

  // ------------------------------------------------------------ sort keys

  // What the order of comparable values sees: dictionaries compare only when they are equal.
  datatype Stamp = Nothing | Number(n: int) | Text(s: string) | List(items: seq<Stamp>) | Dict

  function StampOf(j: Json): Stamp {
    match j
    case Null => Nothing
    case Bool(b) => Number(if b then 1 else 0)
    case Num(n) => Number(n)
    case Str(s) => Text(s)
    case Arr(items) => List(seq(|items|, i requires 0 <= i < |items| => StampOf(items[i])))
    case Obj(_) => Dict
  }

  function KindOf(a: Stamp): nat {
    match a
    case Nothing => 0
    case Number(_) => 1
    case Text(_) => 2
    case List(_) => 3
    case Dict => 4
  }

  // A total order that agrees with `<` wherever `<` answers.
  predicate StampLeq(a: Stamp, b: Stamp)
    decreases a
  {
    match (a, b)
    case (Number(m), Number(n)) => m <= n
    case (Text(s), Text(t)) => LexLeq(s, t)
    case (List(xs), List(ys)) => ItemsLeq(xs, ys)
    case _ => KindOf(a) <= KindOf(b)
  }

  predicate ItemsLeq(xs: seq<Stamp>, ys: seq<Stamp>)
    decreases xs
  {
    if xs == [] then true
    else if ys == [] then false
    else if xs[0] == ys[0] then ItemsLeq(xs[1..], ys[1..])
    else StampLeq(xs[0], ys[0])
  }

  lemma {:induction false} StampTotal(a: Stamp, b: Stamp)
    ensures StampLeq(a, b) || StampLeq(b, a)
    decreases a
  {
    if a.Text? && b.Text? {
      LexTotal(a.s, b.s);
    } else if a.List? && b.List? {
      ItemsTotal(a.items, b.items);
    }
  }

  lemma {:induction false} ItemsTotal(xs: seq<Stamp>, ys: seq<Stamp>)
    ensures ItemsLeq(xs, ys) || ItemsLeq(ys, xs)
    decreases xs
  {
    if xs != [] && ys != [] {
      if xs[0] == ys[0] {
        ItemsTotal(xs[1..], ys[1..]);
      } else {
        StampTotal(xs[0], ys[0]);
      }
    }
  }

  lemma {:induction false} StampAntisymmetric(a: Stamp, b: Stamp)
    requires StampLeq(a, b) && StampLeq(b, a)
    ensures a == b
    decreases a
  {
    if a.Text? && b.Text? {
      LexAntisymmetric(a.s, b.s);
    } else if a.List? && b.List? {
      ItemsAntisymmetric(a.items, b.items);
    }
  }

  lemma {:induction false} ItemsAntisymmetric(xs: seq<Stamp>, ys: seq<Stamp>)
    requires ItemsLeq(xs, ys) && ItemsLeq(ys, xs)
    ensures xs == ys
    decreases xs
  {
    if xs != [] && ys != [] {
      assert xs == [xs[0]] + xs[1..] && ys == [ys[0]] + ys[1..];
      if xs[0] == ys[0] {
        ItemsAntisymmetric(xs[1..], ys[1..]);
      } else {
        StampAntisymmetric(xs[0], ys[0]);
      }
    }
  }

  lemma {:induction false} StampTransitive(a: Stamp, b: Stamp, c: Stamp)
    requires StampLeq(a, b) && StampLeq(b, c)
    ensures StampLeq(a, c)
    decreases a
  {
    if a.Text? && b.Text? && c.Text? {
      LexTransitive(a.s, b.s, c.s);
    } else if a.List? && b.List? && c.List? {
      ItemsLeqTransitive(a.items, b.items, c.items);
    }
  }

  lemma {:induction false} ItemsLeqTransitive(xs: seq<Stamp>, ys: seq<Stamp>, zs: seq<Stamp>)
    requires ItemsLeq(xs, ys) && ItemsLeq(ys, zs)
    ensures ItemsLeq(xs, zs)
    decreases xs
  {
    if xs != [] {
      if xs[0] == ys[0] == zs[0] {
        ItemsLeqTransitive(xs[1..], ys[1..], zs[1..]);
      } else if xs[0] != ys[0] && ys[0] != zs[0] {
        StampTransitive(xs[0], ys[0], zs[0]);
        if xs[0] == zs[0] { StampAntisymmetric(xs[0], ys[0]); }
      }
    }
  }

  // Where `<` answers, the total order gives the same answer.
  lemma {:induction false} StampAgrees(x: Json, y: Json)
    requires CompareCanon(x, y).Some?
    ensures CompareCanon(x, y) == Some(Same) ==> StampOf(x) == StampOf(y)
    ensures CompareCanon(x, y) == Some(Before) ==> StampLeq(StampOf(x), StampOf(y)) && StampOf(x) != StampOf(y)
    ensures CompareCanon(x, y) == Some(After) ==> StampLeq(StampOf(y), StampOf(x)) && StampOf(x) != StampOf(y)
    decreases x
  {
    CanonSame(x, y);
    if x != y && x.Str? && y.Str? {
      LexTotal(x.s, y.s);
    } else if x != y && x.Arr? && y.Arr? {
      ItemsAgree(x.items, y.items);
    }
  }

  function Stamps(xs: seq<Json>): seq<Stamp> {
    seq(|xs|, i requires 0 <= i < |xs| => StampOf(xs[i]))
  }

  lemma {:induction false} ItemsAgree(xs: seq<Json>, ys: seq<Json>)
    requires CompareItems(xs, ys).Some?
    ensures CompareItems(xs, ys) == Some(Same) ==> Stamps(xs) == Stamps(ys)
    ensures CompareItems(xs, ys) == Some(Before) ==> ItemsLeq(Stamps(xs), Stamps(ys)) && Stamps(xs) != Stamps(ys)
    ensures CompareItems(xs, ys) == Some(After) ==> ItemsLeq(Stamps(ys), Stamps(xs)) && Stamps(xs) != Stamps(ys)
    decreases xs
  {
    if xs != [] && ys != [] {
      assert Stamps(xs)[1..] == Stamps(xs[1..]) && Stamps(ys)[1..] == Stamps(ys[1..]);
      assert Stamps(xs) == [StampOf(xs[0])] + Stamps(xs[1..]) && Stamps(ys) == [StampOf(ys[0])] + Stamps(ys[1..]);
      if xs[0] == ys[0] {
        ItemsAgree(xs[1..], ys[1..]);
      } else {
        CanonSame(xs[0], ys[0]);
        StampAgrees(xs[0], ys[0]);
      }
    }
  }

  // ------------------------------------------------------------ which comparisons decide

  // The pair (timestamp, name) of a file, and `<` on such pairs.
  datatype Mark = Mark(timestamp: Json, name: string)

  predicate MarkBefore(a: Mark, b: Mark) {
    var o := Compare(a.timestamp, b.timestamp);
    o == Some(Before) || (o == Some(Same) && a.name != b.name && LexLeq(a.name, b.name))
  }

  lemma MarkTransitive(a: Mark, b: Mark, c: Mark)
    requires MarkBefore(a, b) && MarkBefore(b, c)
    ensures MarkBefore(a, c)
  {
    var x, y, z := Canon(a.timestamp), Canon(b.timestamp), Canon(c.timestamp);
    CanonSame(x, y);
    CanonSame(y, z);
    if x == y == z {
      LexTransitive(a.name, b.name, c.name);
      if a.name == c.name { LexAntisymmetric(a.name, b.name); }
    } else if x != y && y != z {
      BeforeTransitive(x, y, z);
    }
  }

  // A sort has compared every two neighbours of its result.  When each of those comparisons
  // answered, every two timestamps are comparable, so which comparisons a sort makes does
  // not matter.
  lemma {:induction false} NeighboursDecide(marks: seq<Mark>, i: nat, j: nat)
    requires forall k | 0 < k < |marks| :: MarkBefore(marks[k - 1], marks[k])
    requires i < j < |marks|
    ensures MarkBefore(marks[i], marks[j])
    decreases j
  {
    assert MarkBefore(marks[j - 1], marks[j]);
    if i < j - 1 {
      NeighboursDecide(marks, i, j - 1);
      MarkTransitive(marks[i], marks[j - 1], marks[j]);
    }
  }
}
