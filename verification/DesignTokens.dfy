/** Alias resolution of design tokens (`_resolve_value`).  Values are taken after `str()`.
    Nested calls are counted by `fuel`; running out of it is Python's recursion error. */
module DesignTokens {
  import opened Basics
  import opened Ordering
  import opened Digraph

  datatype Tokens = Tokens(flat: map<string, string>, primitives: map<string, string>)

  datatype Outcome =
    Value(text: string) | Circular(key: string, ref: string) | Unknown(ref: string, key: string) | Overflow

  const FALLBACK := ".$value"

  predicate IsReference(value: string) {
    |value| >= 2 && value[0] == '{' && value[|value| - 1] == '}'
  }

  function RefName(value: string): string
    requires IsReference(value)
  {
    value[1..|value| - 1]
  }

  function Resolve(t: Tokens, key: string, raw: string, resolving: set<string>, fuel: nat): Outcome
    decreases fuel
  {
    if fuel == 0 then Overflow
    else if !IsReference(raw) then Value(raw)
    else
      var ref := RefName(raw);
      var dv := ref + FALLBACK;
      if ref in resolving then Circular(key, ref)
      else if ref in t.primitives then Value(t.primitives[ref])
      else if ref in t.flat then Resolve(t, ref, t.flat[ref], resolving + {key}, fuel - 1)
      else if dv in t.primitives then Value(t.primitives[dv])
      else if dv in t.flat then Resolve(t, dv, t.flat[dv], resolving + {key}, fuel - 1)
      else Unknown(ref, key)
  }

  ghost predicate FirstError(t: Tokens, order: seq<string>, fuel: nat, i: nat, error: Outcome)
    requires i < |order| && forall k | k in order :: k in t.flat
  {
    && Resolve(t, order[i], t.flat[order[i]], {}, fuel) == error && !error.Value?
    && forall j | 0 <= j < i :: Resolve(t, order[j], t.flat[order[j]], {}, fuel).Value?
  }

  // `_resolve_references`: every key is resolved on its own, and the first error escapes.
  method ResolveReferences(t: Tokens, order: seq<string>, fuel: nat)
    returns (resolved: map<string, string>, error: Option<Outcome>)
    requires forall k | k in order :: k in t.flat
    ensures error.None? ==> resolved.Keys == Elems(order)
    ensures error.None? ==> forall k | k in order :: Resolve(t, k, t.flat[k], {}, fuel) == Value(resolved[k])
    ensures error.Some? ==> exists i :: 0 <= i < |order| && FirstError(t, order, fuel, i, error.value)
  {
    resolved := map[];
    for i := 0 to |order|
      invariant resolved.Keys == Elems(order[..i])
      invariant forall j | 0 <= j < i ::
        order[j] in resolved && Resolve(t, order[j], t.flat[order[j]], {}, fuel) == Value(resolved[order[j]])
    {
      ElemsSnoc(order, i);
      var outcome := Resolve(t, order[i], t.flat[order[i]], {}, fuel);
      assert FirstError(t, order, fuel, i, outcome) || outcome.Value?;
      if !outcome.Value? { return resolved, Some(outcome); }
      resolved := resolved[order[i] := outcome.text];
    }
    ElemsEnds(order);
    return resolved, None;
  }

  // ------------------------------------------------------------ the reference chain

  // Where the value of a key leads, without any guard: a final text, another key, or
  // an undefined name.
  datatype Hop = End(text: string) | Plain(next: string) | Fallback(next: string) | Undefined(ref: string)

  function Follow(t: Tokens, key: string): (h: Hop)
    requires key in t.flat
    ensures (h.Plain? || h.Fallback?) ==> h.next in t.flat
  {
    var raw := t.flat[key];
    if !IsReference(raw) then End(raw)
    else
      var ref := RefName(raw);
      var dv := ref + FALLBACK;
      if ref in t.primitives then End(t.primitives[ref])
      else if ref in t.flat then Plain(ref)
      else if dv in t.primitives then End(t.primitives[dv])
      else if dv in t.flat then Fallback(dv)
      else Undefined(ref)
  }

  // Where a reference leads: a primitive before a key of the file, and both before the
  // `.$value` forms of the name, again the primitive first.
  lemma HopMeans(t: Tokens, key: string, ref: string)
    requires key in t.flat
    ensures t.flat[key] == "{" + ref + "}" ==>
      Follow(t, key) ==
        if ref in t.primitives then End(t.primitives[ref])
        else if ref in t.flat then Plain(ref)
        else if ref + ".$value" in t.primitives then End(t.primitives[ref + ".$value"])
        else if ref + ".$value" in t.flat then Fallback(ref + ".$value")
        else Undefined(ref)
    ensures (forall name :: t.flat[key] != "{" + name + "}") ==> Follow(t, key) == End(t.flat[key])
  {
    var value := t.flat[key];
    if IsReference(value) {
      assert value == "{" + value[1..|value| - 1] + "}";
    }
    if value == "{" + ref + "}" { assert RefName(value) == ref; }
  }

  // The key reached after `n` hops, if the chain gets that far.
  function KeyAfter(t: Tokens, key: string, n: nat): (k: Option<string>)
    requires key in t.flat
    ensures k.Some? ==> k.value in t.flat
    decreases n
  {
    if n == 0 then Some(key)
    else
      var h := Follow(t, key);
      if h.Plain? || h.Fallback? then KeyAfter(t, h.next, n - 1) else None
  }

  ghost predicate NeverEnds(t: Tokens, key: string)
    requires key in t.flat
  {
    forall n: nat :: KeyAfter(t, key, n).Some?
  }

  ghost predicate EndsWith(t: Tokens, key: string, n: nat, h: Hop)
    requires key in t.flat
  {
    KeyAfter(t, key, n).Some? && Follow(t, KeyAfter(t, key, n).value) == h && (h.End? || h.Undefined?)
  }

  // The chain ends at a primitive that carries the name of the key it started from.
  ghost predicate EndsAtOwnName(t: Tokens, key: string, n: nat)
    requires key in t.flat
  {
    && n >= 1 && KeyAfter(t, key, n).Some? && key in t.primitives
    && t.flat[KeyAfter(t, key, n).value] == "{" + key + "}"
  }

  predicate NoFallbackKeys(t: Tokens) {
    forall k | k in t.flat :: |k| < |FALLBACK| || k[|k| - |FALLBACK|..] != FALLBACK
  }

  lemma NoFallbackHop(t: Tokens, key: string)
    requires NoFallbackKeys(t) && key in t.flat
    ensures !Follow(t, key).Fallback?
  {
    if IsReference(t.flat[key]) {
      var dv := RefName(t.flat[key]) + FALLBACK;
      assert dv[|dv| - |FALLBACK|..] == FALLBACK;
    }
  }

  lemma {:induction false} Compose(t: Tokens, key: string, a: nat, b: nat)
    requires key in t.flat && KeyAfter(t, key, a).Some?
    ensures KeyAfter(t, key, a + b) == KeyAfter(t, KeyAfter(t, key, a).value, b)
    decreases a
  {
    if a > 0 { Compose(t, Follow(t, key).next, a - 1, b); }
  }

  lemma {:induction false} Earlier(t: Tokens, key: string, a: nat, n: nat)
    requires key in t.flat && a <= n && KeyAfter(t, key, n).Some?
    ensures KeyAfter(t, key, a).Some?
    decreases a
  {
    if a > 0 { Earlier(t, Follow(t, key).next, a - 1, n - 1); }
  }

  lemma {:induction false} LoopForever(t: Tokens, key: string, period: nat, n: nat)
    requires key in t.flat && period >= 1 && KeyAfter(t, key, period) == Some(key)
    ensures KeyAfter(t, key, n).Some?
    decreases n
  {
    if n <= period {
      Earlier(t, key, n, period);
    } else {
      LoopForever(t, key, period, n - period);
      Compose(t, key, period, n - period);
    }
  }

  lemma RevisitNeverEnds(t: Tokens, key: string, a: nat, b: nat)
    requires key in t.flat && a < b && KeyAfter(t, key, a).Some? && KeyAfter(t, key, b) == KeyAfter(t, key, a)
    ensures NeverEnds(t, key)
  {
    var x := KeyAfter(t, key, a).value;
    Compose(t, key, a, b - a);
    forall n: nat ensures KeyAfter(t, key, n).Some? {
      if n <= a {
        Earlier(t, key, n, a);
      } else {
        LoopForever(t, x, b - a, n - a);
        Compose(t, key, a, n - a);
      }
    }
  }

  lemma Rebuild(value: string)
    requires IsReference(value)
    ensures value == "{" + RefName(value) + "}"
  {}

  lemma {:induction false} EndUnique(t: Tokens, key: string, n: nat, h: Hop, m: nat, k: Hop)
    requires key in t.flat && EndsWith(t, key, n, h) && EndsWith(t, key, m, k)
    ensures n == m && h == k
    decreases n
  {
    if n > 0 && m > 0 {
      EndUnique(t, Follow(t, key).next, n - 1, h, m - 1, k);
    }
  }

  lemma EndsOnce(t: Tokens, key: string, n: nat, h: Hop)
    requires key in t.flat && EndsWith(t, key, n, h)
    ensures !NeverEnds(t, key)
  {
    Compose(t, key, n, 1);
  }

  lemma OwnNameEnds(t: Tokens, key: string, n: nat)
    requires key in t.flat && EndsAtOwnName(t, key, n)
    ensures EndsWith(t, key, n, End(t.primitives[key]))
  {
    assert RefName("{" + key + "}") == key;
  }

  // The fallback hops: the circularity guard never sees the names they go through.
  ghost function Fallbacks(t: Tokens): Adj {
    map k | k in t.flat :: if Follow(t, k).Fallback? then {Follow(t, k).next} else {}
  }

  lemma {:induction false} CycleOverflows(t: Tokens, p: seq<string>, i: nat, resolving: set<string>, fuel: nat)
    requires IsCycle(Fallbacks(t), p) && i < |p| - 1 && resolving <= t.flat.Keys
    ensures Resolve(t, p[i], t.flat[p[i]], resolving, fuel) == Overflow
    decreases fuel
  {
    if fuel > 0 {
      assert p[i + 1] in Fallbacks(t)[p[i]];
      var next := if i + 1 < |p| - 1 then i + 1 else 0;
      assert p[next] == p[i + 1];
      CycleOverflows(t, p, next, resolving + {p[i]}, fuel - 1);
    }
  }

  lemma {:induction false} FallbackForever(t: Tokens, p: seq<string>, i: nat, m: nat)
    requires IsCycle(Fallbacks(t), p) && i < |p| - 1
    ensures KeyAfter(t, p[i], m).Some? && Follow(t, KeyAfter(t, p[i], m).value).Fallback?
    decreases m
  {
    assert p[i + 1] in Fallbacks(t)[p[i]];
    if m > 0 {
      var next := if i + 1 < |p| - 1 then i + 1 else 0;
      assert p[next] == p[i + 1];
      FallbackForever(t, p, next, m - 1);
    }
  }

  // The chain runs into a cycle of fallback hops alone.
  ghost predicate FallbackLoop(t: Tokens, key: string, n: nat, p: seq<string>)
    requires key in t.flat
  {
    IsCycle(Fallbacks(t), p) && KeyAfter(t, key, n) == Some(p[0])
  }

  ghost predicate RunsIntoFallbacks(t: Tokens, key: string)
    requires key in t.flat
  {
    exists n: nat, p :: FallbackLoop(t, key, n, p)
  }

  lemma FallbackLoopNeverEnds(t: Tokens, key: string, n: nat, p: seq<string>)
    requires key in t.flat && FallbackLoop(t, key, n, p)
    ensures NeverEnds(t, key)
    ensures forall m | m >= n :: KeyAfter(t, key, m).Some? && Follow(t, KeyAfter(t, key, m).value).Fallback?
  {
    hide Follow, IsCycle;
    forall m: nat ensures KeyAfter(t, key, m).Some? {
      if m < n { Earlier(t, key, m, n); } else { LoopAt(t, key, n, p, m); }
    }
    forall m | m >= n ensures KeyAfter(t, key, m).Some? && Follow(t, KeyAfter(t, key, m).value).Fallback? {
      LoopAt(t, key, n, p, m);
    }
  }

  lemma LoopAt(t: Tokens, key: string, n: nat, p: seq<string>, m: nat)
    requires key in t.flat && FallbackLoop(t, key, n, p) && m >= n
    ensures KeyAfter(t, key, m).Some? && Follow(t, KeyAfter(t, key, m).value).Fallback?
  {
    FallbackForever(t, p, 0, m - n);
    Compose(t, key, n, m - n);
  }

  // ------------------------------------------------------------ the guard

  // The names `resolving` holds in the call reached after `n` hops.
  function Seen(t: Tokens, key: string, n: nat): set<string>
    requires key in t.flat
  {
    set j | 0 <= j < n && KeyAfter(t, key, j).Some? :: KeyAfter(t, key, j).value
  }

  // The guard fires in that call.
  predicate Detected(t: Tokens, key: string, n: nat)
    requires key in t.flat
  {
    var k := KeyAfter(t, key, n);
    k.Some? && IsReference(t.flat[k.value]) && RefName(t.flat[k.value]) in Seen(t, key, n)
  }

  ghost predicate Undetected(t: Tokens, key: string, n: nat)
    requires key in t.flat
  {
    KeyAfter(t, key, n).Some? && forall i | 0 <= i < n :: !Detected(t, key, i)
  }

  // Up to the first detection a call is the call its chain leads to.
  lemma {:induction false} Unroll(t: Tokens, key: string, n: nat, fuel: nat)
    requires key in t.flat && Undetected(t, key, n)
    ensures var k := KeyAfter(t, key, n).value;
      Resolve(t, key, t.flat[key], {}, fuel)
        == if fuel <= n then Overflow else Resolve(t, k, t.flat[k], Seen(t, key, n), fuel - n)
    decreases n
  {
    hide Resolve, Follow, IsReference, RefName;
    if n == 0 {
      assert Seen(t, key, 0) == {};
      if fuel == 0 { NoFuel(t, key, {}); }
    } else {
      Earlier(t, key, n - 1, n);
      Unroll(t, key, n - 1, fuel);
      Compose(t, key, n - 1, 1);
      var k := KeyAfter(t, key, n - 1).value;
      assert KeyAfter(t, k, 1) == KeyAfter(t, key, n);
      assert Seen(t, key, n) == Seen(t, key, n - 1) + {k};
      assert !Detected(t, key, n - 1);
      if fuel >= n {
        OneCall(t, k, Seen(t, key, n - 1), fuel - (n - 1));
        if fuel == n { NoFuel(t, Follow(t, k).next, Seen(t, key, n)); }
      }
    }
  }

  lemma NoFuel(t: Tokens, key: string, resolving: set<string>)
    requires key in t.flat
    ensures Resolve(t, key, t.flat[key], resolving, 0) == Overflow
  {}

  // One call, by where its key leads.
  lemma OneCall(t: Tokens, key: string, seen: set<string>, fuel: nat)
    requires key in t.flat && fuel >= 1
    ensures var o, h, raw := Resolve(t, key, t.flat[key], seen, fuel), Follow(t, key), t.flat[key];
      if IsReference(raw) && RefName(raw) in seen then o.Circular?
      else match h
           case End(text) => o == Value(text)
           case Undefined(ref) => o == Unknown(ref, key)
           case Plain(next) => o == Resolve(t, next, t.flat[next], seen + {key}, fuel - 1)
           case Fallback(next) => o == Resolve(t, next, t.flat[next], seen + {key}, fuel - 1)
  {}

  lemma StopsAt(t: Tokens, key: string, n: nat, fuel: nat)
    requires key in t.flat && Undetected(t, key, n) && fuel > n
    ensures var o, k := Resolve(t, key, t.flat[key], {}, fuel), KeyAfter(t, key, n).value;
      && (Detected(t, key, n) ==> o.Circular?)
      && (!Detected(t, key, n) && Follow(t, k).End? ==> o == Value(Follow(t, k).text))
      && (!Detected(t, key, n) && Follow(t, k).Undefined? ==> o == Unknown(Follow(t, k).ref, k))
  {
    hide Resolve, Follow, IsReference, RefName, KeyAfter;
    Unroll(t, key, n, fuel);
    OneCall(t, KeyAfter(t, key, n).value, Seen(t, key, n), fuel - n);
  }

  // A key entered along the chain is no primitive: primitives are looked up first.
  lemma EnteredKey(t: Tokens, key: string, j: nat)
    requires key in t.flat && j >= 1 && KeyAfter(t, key, j).Some?
    ensures KeyAfter(t, key, j).value !in t.primitives
  {
    Earlier(t, key, j - 1, j);
    Compose(t, key, j - 1, 1);
    assert KeyAfter(t, key, j) == KeyAfter(t, KeyAfter(t, key, j - 1).value, 1);
  }

  // Where the guard fires, the chain repeats along a plain hop or ends at its own name.
  lemma DetectedMeans(t: Tokens, key: string, n: nat) returns (j: nat)
    requires key in t.flat && Detected(t, key, n)
    ensures EndsAtOwnName(t, key, n) || (
      && j <= n && KeyAfter(t, key, j).Some? && KeyAfter(t, key, n + 1) == KeyAfter(t, key, j)
      && Follow(t, KeyAfter(t, key, n).value) == Plain(KeyAfter(t, key, j).value))
  {
    hide Follow, KeyAfter, IsReference, RefName;
    var k := KeyAfter(t, key, n).value;
    var ref := RefName(t.flat[k]);
    Rebuild(t.flat[k]);
    j :| 0 <= j < n && KeyAfter(t, key, j) == Some(ref);
    if j >= 1 { EnteredKey(t, key, j); } else { Start(t, key); }
    if ref !in t.primitives {
      PlainHop(t, k);
      Compose(t, key, n, 1);
    }
  }

  lemma Start(t: Tokens, key: string)
    requires key in t.flat
    ensures KeyAfter(t, key, 0) == Some(key)
  {}

  lemma PlainHop(t: Tokens, k: string)
    requires k in t.flat && IsReference(t.flat[k])
    requires RefName(t.flat[k]) !in t.primitives && RefName(t.flat[k]) in t.flat
    ensures Follow(t, k) == Plain(RefName(t.flat[k]))
    ensures KeyAfter(t, k, 1) == Some(RefName(t.flat[k]))
  {
    assert KeyAfter(t, RefName(t.flat[k]), 0) == Some(RefName(t.flat[k]));
  }

  lemma {:induction false} Around(t: Tokens, key: string, period: nat, times: nat)
    requires key in t.flat && KeyAfter(t, key, period) == Some(key)
    ensures KeyAfter(t, key, period * times) == Some(key)
    decreases times
  {
    if times > 0 {
      Around(t, key, period, times - 1);
      Compose(t, key, period, period * (times - 1));
      assert period + period * (times - 1) == period * times;
    }
  }

  // On a chain that runs into fallback hops alone the guard never fires.
  lemma LoopUndetected(t: Tokens, key: string, n: nat, p: seq<string>, i: nat)
    requires key in t.flat && FallbackLoop(t, key, n, p)
    ensures !Detected(t, key, i)
  {
    hide Follow, KeyAfter, FallbackLoop, Detected;
    if Detected(t, key, i) {
      FallbackLoopNeverEnds(t, key, n, p);
      var j := DetectedMeans(t, key, i);
      if EndsAtOwnName(t, key, i) {
        OwnNameEnds(t, key, i);
        EndsOnce(t, key, i, End(t.primitives[key]));
        assert false;
      }
      var m := Recurs(t, key, j, i, n);
    }
  }

  // A key on a repetition comes back as late as one likes.
  lemma Recurs(t: Tokens, key: string, j: nat, i: nat, n: nat) returns (m: nat)
    requires key in t.flat && j <= i && KeyAfter(t, key, i).Some?
    requires KeyAfter(t, key, j).Some? && KeyAfter(t, key, i + 1) == KeyAfter(t, key, j)
    ensures m >= n && KeyAfter(t, key, m) == KeyAfter(t, key, i)
  {
    hide KeyAfter;
    var k, q := KeyAfter(t, key, i).value, i + 1 - j;
    Compose(t, key, i + 1, i - j);
    Compose(t, key, j, i - j);
    Compose(t, key, i, q);
    Around(t, k, q, n);
    Compose(t, key, i, q * n);
    Product(q, n);
    m := i + q * n;
  }

  lemma Product(q: nat, n: nat)
    requires q >= 1
    ensures q * n >= n
  {}

  lemma AlwaysOverflows(t: Tokens, key: string, fuel: nat)
    requires key in t.flat && RunsIntoFallbacks(t, key)
    ensures Resolve(t, key, t.flat[key], {}, fuel).Overflow?
  {
    hide Resolve, Follow, KeyAfter, Detected;
    var n: nat, p :| FallbackLoop(t, key, n, p);
    forall i | 0 <= i < n ensures !Detected(t, key, i) {
      LoopUndetected(t, key, n, p, i);
    }
    Unroll(t, key, n, fuel);
    if fuel > n { CycleOverflows(t, p, 0, Seen(t, key, n), fuel - n); }
  }

  // ------------------------------------------------------------ chains that repeat

  function Reached(t: Tokens, key: string, n: nat): string
    requires key in t.flat && KeyAfter(t, key, n).Some?
  {
    KeyAfter(t, key, n).value
  }

  lemma Repeats(t: Tokens, key: string) returns (a: nat, b: nat)
    requires key in t.flat && KeyAfter(t, key, |t.flat|).Some?
    ensures a < b <= |t.flat| && KeyAfter(t, key, a).Some? && KeyAfter(t, key, b) == KeyAfter(t, key, a)
  {
    hide KeyAfter;
    var size := |t.flat|;
    forall i: nat | i <= size ensures KeyAfter(t, key, i).Some? {
      Earlier(t, key, i, size);
    }
    var ks := seq(size + 1, i requires 0 <= i <= size => Reached(t, key, i));
    assert |t.flat.Keys| == size && Within(ks, t.flat.Keys);
    if Distinct(ks) {
      DistinctWithin(ks, t.flat.Keys);
      assert false;
    }
    a, b :| 0 <= a < b < |ks| && ks[a] == ks[b];
  }

  // A repetition that is no cycle of fallback hops holds a plain hop.
  lemma PlainBetween(t: Tokens, key: string, a: nat, b: nat) returns (m: nat)
    requires key in t.flat && NeverEnds(t, key) && !RunsIntoFallbacks(t, key)
    requires a < b && KeyAfter(t, key, b) == KeyAfter(t, key, a)
    ensures a <= m < b && KeyAfter(t, key, m).Some? && Follow(t, KeyAfter(t, key, m).value).Plain?
    ensures Follow(t, KeyAfter(t, key, a).value).Plain? ==> m == a
  {
    hide KeyAfter, Follow;
    m := a;
    while m < b && !Follow(t, KeyAfter(t, key, m).value).Plain?
      invariant a <= m <= b
      invariant forall i | a <= i < m :: !Follow(t, KeyAfter(t, key, i).value).Plain?
    {
      m := m + 1;
    }
    if m == b {
      OnlyFallbacks(t, key, a, b);
      assert false;
    }
  }

  lemma OnlyFallbacks(t: Tokens, key: string, a: nat, b: nat)
    requires key in t.flat && NeverEnds(t, key)
    requires a < b && KeyAfter(t, key, b) == KeyAfter(t, key, a)
    requires forall i | a <= i < b :: !Follow(t, KeyAfter(t, key, i).value).Plain?
    ensures RunsIntoFallbacks(t, key)
  {
    hide KeyAfter, Follow;
    var p := seq(b - a + 1, i requires 0 <= i => Reached(t, key, a + i));
    assert forall i | 0 <= i < |p| :: p[i] == Reached(t, key, a + i) && p[i] in Fallbacks(t);
    forall i | 0 <= i < b - a ensures p[i + 1] in Fallbacks(t)[p[i]] {
      NextHop(t, key, a + i);
      assert !Follow(t, KeyAfter(t, key, a + i).value).Plain?;
      assert p[i] == Reached(t, key, a + i) && p[i + 1] == Reached(t, key, a + (i + 1));
      assert KeyAfter(t, key, a + (i + 1)) == KeyAfter(t, key, a + i + 1);
    }
    assert a + (b - a) == b && p[0] == p[b - a];
    assert FallbackLoop(t, key, a, p);
  }

  lemma NextHop(t: Tokens, key: string, n: nat)
    requires key in t.flat && KeyAfter(t, key, n).Some? && KeyAfter(t, key, n + 1).Some?
    ensures var h := Follow(t, KeyAfter(t, key, n).value);
      (h.Plain? || h.Fallback?) && KeyAfter(t, key, n + 1) == Some(h.next)
  {
    hide Follow;
    Compose(t, key, n, 1);
    var k := KeyAfter(t, key, n).value;
    assert KeyAfter(t, k, 1).Some?;
    assert KeyAfter(t, Follow(t, k).next, 0) == Some(Follow(t, k).next);
  }

  // The guard fires within two rounds of the repetition, within one when no key carries the
  // fallback suffix.
  lemma GuardFires(t: Tokens, key: string) returns (n: nat)
    requires key in t.flat && NeverEnds(t, key) && !RunsIntoFallbacks(t, key)
    ensures Detected(t, key, n) && n < 2 * |t.flat| && (NoFallbackKeys(t) ==> n <= |t.flat|)
  {
    hide KeyAfter, Follow, RunsIntoFallbacks, NoFallbackKeys, IsReference, RefName;
    var a, b := Repeats(t, key);
    var m := PlainBetween(t, key, a, b);
    n := b + m - a;
    if NoFallbackKeys(t) {
      NoFallbackHop(t, KeyAfter(t, key, a).value);
      NextHop(t, key, a);
    }
    var k := KeyAfter(t, key, m).value;
    Compose(t, key, b, m - a);
    Compose(t, key, a, m - a);
    assert KeyAfter(t, key, n) == Some(k);
    NextHop(t, key, m);
    PlainMeans(t, k);
    var j := if m + 1 < n then m + 1 else a;
    assert KeyAfter(t, key, j) == KeyAfter(t, key, m + 1);
  }

  lemma PlainMeans(t: Tokens, k: string)
    requires k in t.flat && Follow(t, k).Plain?
    ensures IsReference(t.flat[k]) && RefName(t.flat[k]) == Follow(t, k).next
  {}

  lemma FirstDetection(t: Tokens, key: string, n: nat) returns (first: nat)
    requires key in t.flat && Detected(t, key, n)
    ensures first <= n && Detected(t, key, first) && Undetected(t, key, first)
  {
    hide Detected, KeyAfter;
    first := 0;
    while !Detected(t, key, first)
      invariant first <= n && forall i | 0 <= i < first :: !Detected(t, key, i)
      decreases n - first
    {
      first := first + 1;
    }
    DetectedReached(t, key, first);
  }

  lemma DetectedReached(t: Tokens, key: string, n: nat)
    requires key in t.flat && Detected(t, key, n)
    ensures KeyAfter(t, key, n).Some?
  {}

  // ------------------------------------------------------------ chains that end

  lemma HopReaches(t: Tokens, k: string)
    requires k in t.flat && (Follow(t, k).Plain? || Follow(t, k).Fallback?)
    ensures KeyAfter(t, k, 1).Some?
  {
    assert KeyAfter(t, Follow(t, k).next, 0).Some?;
  }

  lemma {:induction false} EndExists(t: Tokens, key: string, n: nat) returns (m: nat)
    requires key in t.flat && KeyAfter(t, key, n).None?
    ensures KeyAfter(t, key, m).Some? && EndsWith(t, key, m, Follow(t, KeyAfter(t, key, m).value))
    decreases n
  {
    if KeyAfter(t, key, n - 1).None? {
      m := EndExists(t, key, n - 1);
    } else {
      m := n - 1;
      Compose(t, key, m, 1);
      var k := KeyAfter(t, key, m).value;
      var h := Follow(t, k);
      if h.Plain? || h.Fallback? { HopReaches(t, k); }
    }
  }

  lemma EndsShort(t: Tokens, key: string, n: nat, h: Hop)
    requires key in t.flat && EndsWith(t, key, n, h)
    ensures n < |t.flat|
  {
    hide Follow;
    EndsOnce(t, key, n, h);
    if n >= |t.flat| {
      Earlier(t, key, |t.flat|, n);
      var a, b := Repeats(t, key);
      RevisitNeverEnds(t, key, a, b);
    }
  }

  // On a chain that ends the guard can fire in the last call only, at the chain's own name.
  lemma EndDetected(t: Tokens, key: string, n: nat, h: Hop, i: nat)
    requires key in t.flat && EndsWith(t, key, n, h) && Detected(t, key, i)
    ensures i == n && EndsAtOwnName(t, key, n)
  {
    hide Follow, KeyAfter, EndsWith, Detected, EndsAtOwnName, NeverEnds;
    EndsOnce(t, key, n, h);
    var j := DetectedMeans(t, key, i);
    if EndsAtOwnName(t, key, i) {
      OwnNameNamed(t, key, i);
      OwnNameEnds(t, key, i);
      EndUnique(t, key, n, h, i, End(t.primitives[key]));
    } else {
      RevisitNeverEnds(t, key, j, i + 1);
    }
  }

  lemma OwnNameDetected(t: Tokens, key: string, n: nat)
    requires key in t.flat && EndsAtOwnName(t, key, n)
    ensures Detected(t, key, n)
  {
    assert RefName("{" + key + "}") == key;
    assert KeyAfter(t, key, 0) == Some(key);
  }

  lemma OwnNameNamed(t: Tokens, key: string, n: nat)
    requires key in t.flat && EndsAtOwnName(t, key, n)
    ensures key in t.primitives
  {}

  lemma EndingResolves(t: Tokens, key: string, n: nat, h: Hop, fuel: nat)
    requires key in t.flat && EndsWith(t, key, n, h) && fuel >= |t.flat|
    ensures var o := Resolve(t, key, t.flat[key], {}, fuel);
      if EndsAtOwnName(t, key, n) then o.Circular?
      else if h.End? then o == Value(h.text)
      else o == Unknown(h.ref, KeyAfter(t, key, n).value)
  {
    hide Resolve, Follow, KeyAfter, Detected, EndsAtOwnName;
    EndsShort(t, key, n, h);
    forall i | 0 <= i < n ensures !Detected(t, key, i) {
      if Detected(t, key, i) { EndDetected(t, key, n, h, i); }
    }
    StopsAt(t, key, n, fuel);
    if Detected(t, key, n) { EndDetected(t, key, n, h, n); }
    if EndsAtOwnName(t, key, n) { OwnNameDetected(t, key, n); }
  }

  // ------------------------------------------------------------ what a key resolves to

  // Alias resolution of one key of any token file.  Twice as many nested calls as there are
  // keys decide it, one more than there are keys when none carries the fallback suffix.
  // Every nesting depth overflows exactly when the chain runs into a cycle of fallback hops
  // alone.  Otherwise the answer is the text at the end of the chain, the unknown error
  // exactly when the chain reaches an undefined name, and the circular error exactly when
  // it never ends, or ends at a primitive with the name of the key it started from.
  lemma ResolveExact(t: Tokens, key: string, fuel: nat)
    requires key in t.flat
    requires fuel >= 2 * |t.flat| || (NoFallbackKeys(t) && fuel > |t.flat|)
    ensures var o := Resolve(t, key, t.flat[key], {}, fuel);
      && (o.Overflow? <==> RunsIntoFallbacks(t, key))
      && (o.Value? <==> exists n, text :: EndsWith(t, key, n, End(text)) && !EndsAtOwnName(t, key, n))
      && (o.Value? ==> exists n :: EndsWith(t, key, n, End(o.text)))
      && (o.Unknown? <==> exists n, ref :: EndsWith(t, key, n, Undefined(ref)))
      && (o.Unknown? ==> exists n :: EndsWith(t, key, n, Undefined(o.ref)))
      && (o.Circular? <==> (NeverEnds(t, key) && !RunsIntoFallbacks(t, key)) || exists n :: EndsAtOwnName(t, key, n))
    ensures RunsIntoFallbacks(t, key) <==> forall depth: nat :: Resolve(t, key, t.flat[key], {}, depth).Overflow?
  {
    hide Resolve, Follow, KeyAfter, EndsAtOwnName, EndsWith, NoFallbackKeys, Detected, Undetected, FallbackLoop;
    forall n, h, m, k | EndsWith(t, key, n, h) && EndsWith(t, key, m, k) ensures n == m && h == k {
      EndUnique(t, key, n, h, m, k);
    }
    forall n, h | EndsWith(t, key, n, h) ensures !NeverEnds(t, key) {
      EndsOnce(t, key, n, h);
    }
    forall n | EndsAtOwnName(t, key, n) ensures key in t.primitives && EndsWith(t, key, n, End(t.primitives[key])) {
      OwnNameNamed(t, key, n);
      OwnNameEnds(t, key, n);
    }
    if RunsIntoFallbacks(t, key) {
      var n: nat, p :| FallbackLoop(t, key, n, p);
      FallbackLoopNeverEnds(t, key, n, p);
      forall depth: nat ensures Resolve(t, key, t.flat[key], {}, depth).Overflow? {
        AlwaysOverflows(t, key, depth);
      }
    } else if NeverEnds(t, key) {
      var n := GuardFires(t, key);
      var first := FirstDetection(t, key, n);
      StopsAt(t, key, first, fuel);
    } else {
      var n :| KeyAfter(t, key, n).None?;
      var m := EndExists(t, key, n);
      EndingResolves(t, key, m, Follow(t, KeyAfter(t, key, m).value), fuel);
    }
  }

  // The guard looks at the name before the primitives do: this chain has an end, yet the
  // resolver reports it as circular.
  lemma OwnNameIsRejected()
    ensures var t := Tokens(map["k" := "{a}", "a" := "{k}"], map["k" := "red"]);
      && Resolve(t, "k", "{a}", {}, 3) == Circular("a", "k")
      && EndsWith(t, "k", 1, End("red"))
  {
    var t := Tokens(map["k" := "{a}", "a" := "{k}"], map["k" := "red"]);
    assert RefName("{a}") == "a" && RefName("{k}") == "k";
    assert "a" != "k" && "a" !in t.primitives && "a" in t.flat;
    assert Follow(t, "k") == Plain("a");
    assert KeyAfter(t, "a", 0) == Some("a");
    assert KeyAfter(t, "k", 1) == Some("a");
    assert t.flat["a"] == "{k}";
    assert Resolve(t, "a", "{k}", {"k"}, 2) == Circular("a", "k");
  }

  // Every key resolves within some nesting depth exactly when the fallback hops of the token
  // file form no cycle.
  lemma TerminatesIff(t: Tokens)
    ensures (forall k | k in t.flat :: Terminates(t, k)) <==> !Cyclic(Fallbacks(t))
  {
    hide Resolve, Follow;
    forall k | k in t.flat ensures Terminates(t, k) <==> !RunsIntoFallbacks(t, k) {
      KeyTerminatesIff(t, k);
    }
    if p :| IsCycle(Fallbacks(t), p) {
      assert FallbackLoop(t, p[0], 0, p) && p[0] in t.flat;
    }
    forall k | k in t.flat && RunsIntoFallbacks(t, k) ensures Cyclic(Fallbacks(t)) {
      var n: nat, p :| FallbackLoop(t, k, n, p);
      assert Within(p, Fallbacks(t).Keys);
    }
  }

  lemma KeyTerminatesIff(t: Tokens, key: string)
    requires key in t.flat
    ensures Terminates(t, key) <==> !RunsIntoFallbacks(t, key)
  {
    hide Resolve, RunsIntoFallbacks;
    ResolveExact(t, key, 2 * |t.flat|);
    if Terminates(t, key) {
      var fuel: nat :| !Resolve(t, key, t.flat[key], {}, fuel).Overflow?;
      if RunsIntoFallbacks(t, key) { AlwaysOverflows(t, key, fuel); }
    }
  }

  ghost predicate Terminates(t: Tokens, key: string)
    requires key in t.flat
  {
    exists fuel: nat :: !Resolve(t, key, t.flat[key], {}, fuel).Overflow?
  }

  // The smallest token file on which the recursion never returns.
  lemma FallbackSelfLoop(fuel: nat)
    ensures Resolve(Tokens(map["a.$value" := "{a}"], map[]), "a.$value", "{a}", {}, fuel) == Overflow
  {
    var t := Tokens(map["a.$value" := "{a}"], map[]);
    assert RefName("{a}") == "a" && "a" + FALLBACK == "a.$value";
    assert |"a"| != |"a.$value"|;
    assert "a" !in t.flat;
    assert Follow(t, "a.$value") == Fallback("a.$value");
    assert IsCycle(Fallbacks(t), ["a.$value", "a.$value"]);
    CycleOverflows(t, ["a.$value", "a.$value"], 0, {}, fuel);
  }
}
