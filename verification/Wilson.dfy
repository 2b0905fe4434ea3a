/** The Wilson score interval over exact reals, in both forms the repository carries.
    `root` stands for the square root. */
module Wilson {

  datatype Interval = Interval(lower: real, upper: real)

  datatype Result = Ok(value: Interval) | ValueError

  ghost predicate IsSqrt(root: real -> real) {
    forall x: real | x >= 0.0 :: root(x) >= 0.0 && root(x) * root(x) == x
  }

  function Max(a: real, b: real): real { if a >= b then a else b }

  function Min(a: real, b: real): real { if a <= b then a else b }

  // k/n, z^2/n and z^2/2n, as both implementations divide them.
  function Share(k: int, n: int): real
    requires n > 0
  {
    k as real / n as real
  }

  function Spread(z: real, n: int): (r: real)
    requires n > 0
    ensures r >= 0.0
  {
    NonNegative(z, n);
    z * z / n as real
  }

  function HalfSpread(z: real, n: int): real
    requires n > 0
  {
    z * z / (2.0 * n as real)
  }

  // What stats.py takes the square root of.
  function StatsVariance(p: real, n: int, z: real): real
    requires n > 0
  {
    NonNegative(z, n);
    p * (1.0 - p) / n as real + z * z / (4.0 * n as real * n as real)
  }

  // What the rubric check takes the square root of.
  function RubricVariance(p: real, n: int, z: real): real
    requires n > 0
  {
    (p * (1.0 - p) + z * z / (4.0 * n as real)) / n as real
  }

  // stats.py: checked arguments and clamped bounds.
  function WilsonCi(root: real -> real, k: int, n: int, z: real): Result {
    if n <= 0 then ValueError
    else if k < 0 || k > n then ValueError
    else
      var p := Share(k, n);
      var denominator := 1.0 + Spread(z, n);
      var centre := (p + HalfSpread(z, n)) / denominator;
      var margin := (z * root(StatsVariance(p, n, z))) / denominator;
      Ok(Interval(Max(0.0, centre - margin), Min(1.0, centre + margin)))
  }

  // harness-optimize-rubric-check.py: unchecked and unclamped, with an empty sample mapped to (0, 0).
  function RubricCi(root: real -> real, k: int, n: int, z: real): Interval
    requires n >= 0
  {
    if n == 0 then Interval(0.0, 0.0)
    else
      var p := Share(k, n);
      var d := 1.0 + Spread(z, n);
      var c := p + HalfSpread(z, n);
      var m := z * root(RubricVariance(p, n, z));
      Interval((c - m) / d, (c + m) / d)
  }

  lemma NonNegative(z: real, n: int)
    requires n > 0
    ensures z * z / n as real >= 0.0 && 4.0 * n as real * n as real > 0.0
  {
    var x := n as real;
    PositiveProduct(4.0 * x, x);
    Square(z);
    QuotientSign(z * z, x);
  }

  // ------------------------------------------------------------ the algebra

  lemma PositiveProduct(x: real, y: real)
    requires x > 0.0 && y > 0.0
    ensures x * y > 0.0
  {}

  lemma Product(x: real, y: real)
    requires x >= 0.0 && y >= 0.0
    ensures x * y >= 0.0
  {}

  lemma SquareLeq(x: real, y: real)
    requires y >= 0.0 && x * x <= y * y
    ensures x <= y
  {
    assert (x - y) * (x + y) == x * x - y * y;
    if x > y {
      PositiveProduct(x - y, x + y);
    }
  }

  lemma SquareOfSum(p: real, a: real)
    ensures (p + a / 2.0) * (p + a / 2.0) == p * p + a * p + a * a / 4.0
  {}

  lemma SquareOfGap(p: real, a: real)
    ensures var t := a / 2.0 - a * p; t * t == a * a / 4.0 - (a * a) * (p * (1.0 - p))
  {
    var h := 0.5 - p;
    assert a / 2.0 - a * p == a * h;
    assert h * h == 0.25 - p * (1.0 - p);
    assert (a * h) * (a * h) == (a * a) * (h * h);
    Distribute(a * a, 0.25, p * (1.0 - p));
  }

  lemma Distribute(x: real, y: real, z: real)
    ensures x * (y - z) == x * y - x * z
  {}

  // With a = z^2 / n and m = z * sqrt(...), so that m^2 = a p (1 - p) + a^2 / 4.
  lemma LowerBounds(p: real, a: real, m: real)
    requires 0.0 <= p <= 1.0 && a >= 0.0 && m >= 0.0
    requires m * m == a * (p * (1.0 - p)) + a * a / 4.0
    ensures 0.0 <= p + a / 2.0 - m <= p * (1.0 + a)
  {
    Product(p, 1.0 - p);
    Product(p, p);
    Product(a, a);
    NotNegative(p, a, m);
    NotAbove(p, a, m);
  }

  lemma NotNegative(p: real, a: real, m: real)
    requires p >= 0.0 && a >= 0.0 && m * m == a * (p * (1.0 - p)) + a * a / 4.0
    ensures m <= p + a / 2.0
  {
    var s := p + a / 2.0;
    SquareOfSum(p, a);
    Distribute(a, p, p * p);
    assert p * (1.0 - p) == p - p * p;
    Product(p, p);
    Product(a, p * p);
    SquareLeq(m, s);
  }

  lemma NotAbove(p: real, a: real, m: real)
    requires a >= 0.0 && m >= 0.0 && p * (1.0 - p) >= 0.0 && m * m == a * (p * (1.0 - p)) + a * a / 4.0
    ensures p + a / 2.0 - m <= p * (1.0 + a)
  {
    SquareOfGap(p, a);
    Product(a, p * (1.0 - p));
    Product(a, a);
    Product(a * a, p * (1.0 - p));
    SquareLeq(a / 2.0 - a * p, m);
    assert p * (1.0 + a) == p + a * p;
  }

  // The upper bound is the lower bound of the failures, reflected.
  lemma UpperBounds(p: real, a: real, m: real)
    requires 0.0 <= p <= 1.0 && a >= 0.0 && m >= 0.0
    requires m * m == a * (p * (1.0 - p)) + a * a / 4.0
    ensures p * (1.0 + a) <= p + a / 2.0 + m <= 1.0 + a
  {
    var q := 1.0 - p;
    assert q * (1.0 - q) == p * (1.0 - p);
    LowerBounds(q, a, m);
    assert q * (1.0 + a) == (1.0 + a) - p * (1.0 + a);
  }

  // ------------------------------------------------------------ quotients

  lemma Quotient(x: real, d: real, q: real)
    requires d != 0.0 && q * d == x
    ensures x / d == q
  {
    var r := x / d;
    assert r * d == x;
    assert (q - r) * d == 0.0;
  }

  lemma QuotientSign(x: real, d: real)
    requires x >= 0.0 && d > 0.0
    ensures x / d >= 0.0
  {}

  lemma QuotientOrder(x: real, y: real, d: real)
    requires d > 0.0 && x <= y
    ensures x / d <= y / d
  {}

  lemma QuotientSum(x: real, y: real, d: real)
    requires d != 0.0
    ensures (x + y) / d == x / d + y / d && (x - y) / d == x / d - y / d
  {
    var u, v := x / d, y / d;
    assert u * d == x && v * d == y;
    Quotient(x + y, d, u + v);
    Quotient(x - y, d, u - v);
  }

  lemma Quarter(y: real, n: real, d: real)
    requires n > 0.0 && d > 0.0 && d == 4.0 * n * n
    ensures y / d == (y / n) / n / 4.0
    ensures y / (4.0 * n) == y / n / 4.0 && y / (2.0 * n) == y / n / 2.0
  {
    var v := y / n;
    var w := v / n;
    assert w * n == v && v * n == y;
    QuarterOf(y, n, v, w, d);
    Quotient(y, 4.0 * n, v / 4.0);
    Quotient(y, 2.0 * n, v / 2.0);
  }

  lemma QuarterOf(y: real, n: real, v: real, w: real, d: real)
    requires d > 0.0 && d == 4.0 * n * n && w * n == v && v * n == y
    ensures y / d == w / 4.0
  {
    Scale(w, n, v, y, d);
    Quotient(y, d, w / 4.0);
  }

  lemma Scale(w: real, n: real, v: real, y: real, d: real)
    requires w * n == v && v * n == y && d == 4.0 * n * n
    ensures (w / 4.0) * d == y
  {
    assert w * (n * n) == (w * n) * n;
  }

  lemma Cross(y: real, v: real, n: real, u: real, x: real)
    requires v * n == y && u * n == x
    ensures y * u == v * x
  {
    assert y * u == v * (u * n);
  }

  // ------------------------------------------------------------ the interval

  // Both implementations take the root of the same number, and what z^2 times it is.
  lemma Variances(p: real, n: int, z: real)
    requires n > 0 && 0.0 <= p <= 1.0
    ensures StatsVariance(p, n, z) == RubricVariance(p, n, z) >= 0.0
    ensures HalfSpread(z, n) == Spread(z, n) / 2.0
    ensures (z * z) * RubricVariance(p, n, z) == Spread(z, n) * (p * (1.0 - p)) + Spread(z, n) * Spread(z, n) / 4.0
  {
    var x, y, m := p * (1.0 - p), z * z, n as real;
    Product(p, 1.0 - p);
    Square(z);
    NonNegative(z, n);
    Quarter(y, m, 4.0 * m * m);
    var spread := SpreadOf(x, y, m);
    VariancesAre(p, n, z, x, y, m, spread);
  }

  lemma VariancesAre(p: real, n: int, z: real, x: real, y: real, m: real, spread: real)
    requires n > 0 && m == n as real && x == p * (1.0 - p) && y == z * z
    requires 4.0 * m * m > 0.0
    requires spread == x / m + y / (4.0 * m * m) == (x + y / (4.0 * m)) / m
    ensures StatsVariance(p, n, z) == spread == RubricVariance(p, n, z)
  {}

  lemma SpreadOf(x: real, y: real, n: real) returns (spread: real)
    requires n > 0.0 && x >= 0.0 && y >= 0.0
    ensures spread == x / n + (y / n) / n / 4.0 == (x + y / n / 4.0) / n
    ensures spread >= 0.0 && y / n >= 0.0
    ensures y * spread == (y / n) * x + (y / n) * (y / n) / 4.0
  {
    var v, u := y / n, x / n;
    var w := v / n;
    QuotientSign(y, n);
    QuotientSign(v, n);
    QuotientSign(x, n);
    spread := u + w / 4.0;
    Quotient(x + v / 4.0, n, spread);
    Cross(y, v, n, u, x);
    Cross(y, v, n, w, v);
    SpreadProduct(y, u, w);
  }

  lemma SpreadProduct(y: real, u: real, w: real)
    ensures y * (u + w / 4.0) == y * u + (y * w) / 4.0
  {}

  lemma Square(z: real)
    ensures z * z >= 0.0
  {}

  // What the interval is built from: centre, margin, denominator and the two quotients.
  ghost predicate Built(root: real -> real, p: real, n: int, z: real, c: real, m: real, d: real, lo: real, hi: real)
    requires n > 0
  {
    && d == 1.0 + Spread(z, n)
    && c == p + HalfSpread(z, n)
    && m == z * root(RubricVariance(p, n, z))
    && lo == (c - m) / d
    && hi == (c + m) / d
  }

  lemma RubricForm(root: real -> real, k: int, n: int, z: real, c: real, m: real, d: real, lo: real, hi: real)
    requires n > 0 && Built(root, Share(k, n), n, z, c, m, d, lo, hi)
    ensures RubricCi(root, k, n, z) == Interval(lo, hi)
  {
    hide Share, Spread, HalfSpread, StatsVariance, RubricVariance;
  }

  lemma WilsonForm(root: real -> real, k: int, n: int, z: real, c: real, m: real, d: real, lo: real, hi: real)
    requires n > 0 && 0 <= k <= n && Built(root, Share(k, n), n, z, c, m, d, lo, hi)
    requires StatsVariance(Share(k, n), n, z) == RubricVariance(Share(k, n), n, z)
    requires 0.0 <= lo && hi <= 1.0 && lo == c / d - m / d && hi == c / d + m / d
    ensures WilsonCi(root, k, n, z) == Ok(Interval(lo, hi))
  {
    hide Share, Spread, HalfSpread, StatsVariance, RubricVariance;
  }

  // For every sample the unclamped bounds are ordered 0 <= lower <= k/n <= upper <= 1, so
  // the clamps of the checked version never act and the two implementations agree.
  lemma BoundsOrdered(root: real -> real, k: int, n: int, z: real)
    requires IsSqrt(root) && n > 0 && 0 <= k <= n && z >= 0.0
    ensures var r := RubricCi(root, k, n, z);
      && 0.0 <= r.lower <= Share(k, n) <= r.upper <= 1.0
      && WilsonCi(root, k, n, z) == Ok(r)
  {
    hide *;
    Shares(k, n);
    Variances(Share(k, n), n, z);
    var c, m, d, lo, hi := Bounds(root, Share(k, n), n, z);
    RubricForm(root, k, n, z, c, m, d, lo, hi);
    WilsonForm(root, k, n, z, c, m, d, lo, hi);
  }

  lemma Bounds(root: real -> real, p: real, n: int, z: real) returns (c: real, m: real, d: real, lo: real, hi: real)
    requires IsSqrt(root) && n > 0 && 0.0 <= p <= 1.0 && z >= 0.0
    ensures Built(root, p, n, z, c, m, d, lo, hi)
    ensures 0.0 <= lo <= p <= hi <= 1.0 && d > 0.0
    ensures lo == c / d - m / d && hi == c / d + m / d
  {
    hide Share, Spread, HalfSpread, StatsVariance, RubricVariance, IsSqrt;
    var a := Spread(z, n);
    Variances(p, n, z);
    m := MarginOf(root, p, n, z, a);
    c, d := p + HalfSpread(z, n), 1.0 + a;
    lo, hi := Enclosed(p, a, m, c, d);
  }

  lemma Enclosed(p: real, a: real, m: real, c: real, d: real) returns (lo: real, hi: real)
    requires 0.0 <= p <= 1.0 && a >= 0.0 && m >= 0.0 && c == p + a / 2.0 && d == 1.0 + a
    requires m * m == a * (p * (1.0 - p)) + a * a / 4.0
    ensures 0.0 <= lo <= p <= hi <= 1.0
    ensures lo == (c - m) / d == c / d - m / d && hi == (c + m) / d == c / d + m / d
  {
    LowerBounds(p, a, m);
    UpperBounds(p, a, m);
    Divided(p, c, m, d);
    lo, hi := (c - m) / d, (c + m) / d;
  }

  lemma MarginOf(root: real -> real, p: real, n: int, z: real, a: real) returns (m: real)
    requires IsSqrt(root) && n > 0 && 0.0 <= p <= 1.0 && z >= 0.0 && a == Spread(z, n)
    ensures m == z * root(RubricVariance(p, n, z)) && m >= 0.0
    ensures m * m == a * (p * (1.0 - p)) + a * a / 4.0
  {
    hide Share, Spread, HalfSpread, StatsVariance, RubricVariance;
    Variances(p, n, z);
    var s := root(RubricVariance(p, n, z));
    RootOf(root, RubricVariance(p, n, z));
    SquareOfProduct(z, s);
    Product(z, s);
    m := z * s;
  }

  lemma RootOf(root: real -> real, x: real)
    requires IsSqrt(root) && x >= 0.0
    ensures root(x) >= 0.0 && root(x) * root(x) == x
  {}

  lemma SquareOfProduct(x: real, y: real)
    ensures (x * y) * (x * y) == x * x * (y * y)
  {}

  lemma Divided(p: real, c: real, m: real, d: real)
    requires d > 0.0 && 0.0 <= c - m <= p * d <= c + m <= d
    ensures 0.0 <= (c - m) / d <= p <= (c + m) / d <= 1.0
    ensures (c - m) / d == c / d - m / d && (c + m) / d == c / d + m / d
  {
    QuotientSum(c, m, d);
    Quotient(p * d, d, p);
    Quotient(d, d, 1.0);
    QuotientSign(c - m, d);
    QuotientOrder(c - m, p * d, d);
    QuotientOrder(p * d, c + m, d);
    QuotientOrder(c + m, d, d);
  }

  lemma Shares(k: int, n: int)
    requires n > 0 && 0 <= k <= n
    ensures 0.0 <= Share(k, n) <= 1.0
    ensures Share(n - k, n) == 1.0 - Share(k, n)
  {
    var x, y := k as real, n as real;
    QuotientSign(x, y);
    QuotientOrder(x, y, y);
    Quotient(y, y, 1.0);
    QuotientSum(y, x, y);
    assert (n - k) as real == y - x;
  }

  // A bound of the form (c + s) / d solves the score equation.
  lemma ScoreRoot(p: real, a: real, s: real, c: real, d: real, b: real)
    requires a >= 0.0 && d == 1.0 + a && c == p + a / 2.0 && b * d == c + s
    requires s * s == a * (p * (1.0 - p)) + a * a / 4.0
    ensures (p - b) * (p - b) == a * (b * (1.0 - b))
  {
    var x := (p - b) * (p - b) - a * (b * (1.0 - b));
    SquareOfSum(p, a);
    ScoreGap(p, a, b, c, d);
    Distribute(b, s, c);
    Conjugate(b, d, c, s);
    Distribute(a, p, p * p);
    assert p * (1.0 - p) == p - p * p;
    assert (p * p) * d == p * p + a * (p * p);
    assert x * d == (p * p) * d + (s * s - c * c) by {
      assert x == p * p + b * (s - c);
      Sum(p * p, b * (s - c), d);
    }
    assert x * d == 0.0;
    NoDivisor(x, d);
  }

  lemma Sum(x: real, y: real, d: real)
    ensures (x + y) * d == x * d + y * d
  {}

  lemma Conjugate(b: real, d: real, c: real, s: real)
    requires b * d == c + s
    ensures (b * (s - c)) * d == s * s - c * c
  {
    assert (b * (s - c)) * d == (b * d) * (s - c);
    assert (c + s) * (s - c) == s * s - c * c;
  }

  lemma ScoreGap(p: real, a: real, b: real, c: real, d: real)
    requires d == 1.0 + a && c == p + a / 2.0
    ensures (p - b) * (p - b) - a * (b * (1.0 - b)) == p * p - 2.0 * (b * c) + b * (b * d)
  {
    assert (p - b) * (p - b) == p * p - 2.0 * (b * p) + b * b;
    Distribute(b, 1.0, b);
    Distribute(a, b, b * b);
    assert b * d == b + b * a;
    assert b * (b * d) == b * b + b * (b * a);
    assert b * (b * a) == a * (b * b);
    assert b * c == b * p + b * (a / 2.0);
  }

  lemma NoDivisor(x: real, d: real)
    requires d > 0.0 && x * d == 0.0
    ensures x == 0.0
  {}

  // What each implementation does outside its range.
  lemma Rejects(root: real -> real, k: int, n: int, z: real)
    ensures WilsonCi(root, k, n, z) == ValueError <==> n <= 0 || k < 0 || k > n
    ensures n == 0 ==> RubricCi(root, k, n, z) == Interval(0.0, 0.0)
  {}

  // What makes the bounds a score interval: at each of them the distance to k/n is z standard
  // errors, the error being taken at the bound itself.
  lemma ScoreEquation(root: real -> real, k: int, n: int, z: real)
    requires IsSqrt(root) && n > 0 && 0 <= k <= n && z >= 0.0
    ensures var r, p := RubricCi(root, k, n, z), k as real / n as real;
      && (p - r.lower) * (p - r.lower) == (z * z / n as real) * (r.lower * (1.0 - r.lower))
      && (p - r.upper) * (p - r.upper) == (z * z / n as real) * (r.upper * (1.0 - r.upper))
  {
    hide *;
    Shares(k, n);
    Fractions(k, n, z);
    var c, m, d, lo, hi := Bounds(root, Share(k, n), n, z);
    RubricForm(root, k, n, z, c, m, d, lo, hi);
    BothSolve(root, Share(k, n), n, z, c, m, d, lo, hi);
  }

  lemma Fractions(k: int, n: int, z: real)
    requires n > 0
    ensures Share(k, n) == k as real / n as real && Spread(z, n) == z * z / n as real
  {}

  lemma BothSolve(root: real -> real, p: real, n: int, z: real, c: real, m: real, d: real, lo: real, hi: real)
    requires IsSqrt(root) && n > 0 && 0.0 <= p <= 1.0 && z >= 0.0 && d > 0.0
    requires Built(root, p, n, z, c, m, d, lo, hi)
    ensures (p - lo) * (p - lo) == Spread(z, n) * (lo * (1.0 - lo))
    ensures (p - hi) * (p - hi) == Spread(z, n) * (hi * (1.0 - hi))
  {
    hide Spread, HalfSpread, StatsVariance, RubricVariance, IsSqrt;
    var a := Spread(z, n);
    Variances(p, n, z);
    var margin := MarginOf(root, p, n, z, a);
    Multiplied(c - m, d, lo);
    Multiplied(c + m, d, hi);
    Opposite(m);
    ScoreRoot(p, a, -m, c, d, lo);
    ScoreRoot(p, a, m, c, d, hi);
  }

  lemma Multiplied(x: real, d: real, q: real)
    requires d > 0.0 && q == x / d
    ensures q * d == x
  {}

  lemma Opposite(m: real)
    ensures (-m) * (-m) == m * m
  {}

  // Swapping successes and failures reflects the interval.
  lemma Reflection(root: real -> real, k: int, n: int, z: real)
    requires n > 0 && 0 <= k <= n
    ensures var r, s := RubricCi(root, k, n, z), RubricCi(root, n - k, n, z);
      s.lower == 1.0 - r.upper && s.upper == 1.0 - r.lower
  {
    hide Share, Spread, HalfSpread, StatsVariance, RubricVariance, RubricCi, WilsonCi;
    Shares(k, n);
    var p, q, h, d := Share(k, n), Share(n - k, n), HalfSpread(z, n), 1.0 + Spread(z, n);
    var m := z * root(RubricVariance(p, n, z));
    Variances(p, n, z);
    SameVariance(p, q, n, z);
    RubricForm(root, k, n, z, p + h, m, d, (p + h - m) / d, (p + h + m) / d);
    RubricForm(root, n - k, n, z, q + h, m, d, (q + h - m) / d, (q + h + m) / d);
    Reflect(p + h, m, q + h, d);
  }

  lemma SameVariance(p: real, q: real, n: int, z: real)
    requires n > 0 && q == 1.0 - p
    ensures RubricVariance(q, n, z) == RubricVariance(p, n, z)
  {
    assert q * (1.0 - q) == p * (1.0 - p);
  }

  lemma Reflect(c: real, m: real, b: real, d: real)
    requires d > 0.0 && b + c == d
    ensures (b - m) / d == 1.0 - (c + m) / d
    ensures (b + m) / d == 1.0 - (c - m) / d
  {
    Quotient(d, d, 1.0);
    QuotientSum(d, c + m, d);
    QuotientSum(d, c - m, d);
    assert b - m == d - (c + m) && b + m == d - (c - m);
  }
}
