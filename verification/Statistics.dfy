/** Averages, variances, jitters and quantiles (statisticsAnalyse/basicComputer.go) over exact
    reals, each loop against its specification, and the algebra that ties them together. */
module Statistics {
  import opened Sorting

  function Sum(s: seq<real>): real {
    if s == [] then 0.0 else Sum(s[..|s| - 1]) + s[|s| - 1]
  }

  function Square(x: real): real {
    x * x
  }

  // Sum of squared distances from c.
  function SumSquares(s: seq<real>, c: real): real {
    if s == [] then 0.0 else SumSquares(s[..|s| - 1], c) + Square(s[|s| - 1] - c)
  }

  function Avg(s: seq<real>): real
    requires s != []
  {
    Sum(s) / |s| as real
  }

  function Var(s: seq<real>, avg: real): real
    requires s != []
  {
    SumSquares(s, avg) / |s| as real
  }

  function Abs(x: real): real {
    if x < 0.0 then -x else x
  }

  function Jitters(s: seq<real>, avg: real): seq<real> {
    seq(|s|, i requires 0 <= i < |s| => Abs(s[i] - avg))
  }

  // The value a position x between 0 and |s| - 1 reads, by linear interpolation.
  function Interpolate(s: seq<real>, x: real): real
    requires s != [] && 0.0 <= x <= (|s| - 1) as real
  {
    var lhs := x.Floor;
    var delta := x - lhs as real;
    if lhs == |s| - 1 then s[|s| - 1] else (1.0 - delta) * s[lhs] + delta * s[lhs + 1]
  }

  // ---------- the loops ----------

  // A float64 result; NaN and the infinities are one value.
  datatype Float = Finite(r: real) | NotFinite

  method Average(data: seq<real>) returns (avg: Float)
    ensures avg == if data == [] then NotFinite else Finite(Avg(data))
  {
    var sum := 0.0;
    for i := 0 to |data|
      invariant sum == Sum(data[..i])
    {
      assert data[..i + 1][..i] == data[..i];
      sum := sum + data[i];
    }
    assert data[..|data|] == data;
    avg := if |data| == 0 then NotFinite else Finite(sum / |data| as real);
  }

  method Variance(data: seq<real>, avg: real) returns (variance: Float)
    ensures variance == if data == [] then NotFinite else Finite(Var(data, avg))
  {
    var vary := 0.0;
    for i := 0 to |data|
      invariant vary == SumSquares(data[..i], avg)
    {
      assert data[..i + 1][..i] == data[..i];
      var delta := data[i] - avg;
      vary := vary + Square(delta);
    }
    assert data[..|data|] == data;
    variance := if |data| == 0 then NotFinite else Finite(vary / |data| as real);
  }

  method Jitter(data: seq<real>, avg: real) returns (jitters: seq<real>)
    ensures jitters == Jitters(data, avg)
  {
    jitters := [];
    for i := 0 to |data|
      invariant |jitters| == i && forall k :: 0 <= k < i ==> jitters[k] == Abs(data[k] - avg)
    {
      jitters := jitters + [Abs(data[i] - avg)];
    }
  }

  // The position of the f-quantile among n sorted values.
  function Position(n: nat, f: real): real {
    f * (n - 1) as real
  }

  lemma PositionInRange(n: nat, f: real)
    requires 0.0 <= f <= 1.0 && n > 0
    ensures 0.0 <= Position(n, f) <= (n - 1) as real
  {
    Product(f, (n - 1) as real);
    Product(1.0 - f, (n - 1) as real);
  }

  lemma PositionMonotone(n: nat, f: real, g: real)
    requires f <= g && n > 0
    ensures Position(n, f) <= Position(n, g)
  {
    Product(g - f, (n - 1) as real);
  }

  function QuantileOf(s: seq<real>, f: real): real
    requires s != [] && 0.0 <= f <= 1.0
  {
    PositionInRange(|s|, f);
    Interpolate(s, Position(|s|, f))
  }

  // One turn of quantile's loop.
  method QuantileAt(data: seq<real>, f: real) returns (q: real)
    requires data != [] && 0.0 <= f <= 1.0
    ensures q == QuantileOf(data, f)
  {
    var n := |data|;
    var index := Position(n, f);
    PositionInRange(n, f);
    var lhs := index.Floor;
    var delta := index - lhs as real;
    if lhs == n - 1 {
      q := data[n - 1];
    } else {
      q := (1.0 - delta) * data[lhs] + delta * data[lhs + 1];
    }
  }

  method Quantile(data: seq<real>) returns (q25: real, q50: real, q75: real)
    ensures data == [] ==> q25 == q50 == q75 == 0.0
    ensures data != [] ==>
      q25 == QuantileOf(data, 0.25) && q50 == QuantileOf(data, 0.5) && q75 == QuantileOf(data, 0.75)
  {
    var loc := [0.25, 0.5, 0.75];
    var result := new real[3](_ => 0.0);
    for i := 0 to 3
      invariant data == [] ==> i == 0
      invariant data != [] ==> forall k :: 0 <= k < i ==> result[k] == QuantileOf(data, loc[k])
    {
      if |data| == 0 {
        return 0.0, 0.0, 0.0;
      }
      result[i] := QuantileAt(data, loc[i]);
    }
    return result[0], result[1], result[2];
  }

  // ---------- sums ----------

  lemma Product(a: real, b: real)
    requires 0.0 <= a && 0.0 <= b
    ensures 0.0 <= a * b
  {
  }

  lemma ExpandSquare(x: real, c: real)
    ensures Square(x - c) == Square(x - 0.0) - 2.0 * c * x + c * c
  {
  }

  lemma OneMore(n: nat, k: real)
    ensures (n + 1) as real * k == n as real * k + k
  {
  }

  // Squared distances from c, out of the squares q, the sum t and the count n.
  function Expanded(q: real, t: real, n: nat, c: real): real {
    q - 2.0 * c * t + n as real * (c * c)
  }

  lemma ExpandedStep(q: real, t: real, n: nat, x: real, c: real)
    ensures Expanded(q, t, n, c) + Square(x - c) == Expanded(q + Square(x - 0.0), t + x, n + 1, c)
  {
    ExpandSquare(x, c);
    OneMore(n, c * c);
    Distribute(2.0 * c, t, x);
  }

  lemma {:induction false} SumSquaresExpand(s: seq<real>, c: real)
    ensures SumSquares(s, c) == Expanded(SumSquares(s, 0.0), Sum(s), |s|, c)
  {
    if s == [] {
    } else {
      var n := |s| - 1;
      SumSquaresExpand(s[..n], c);
      ExpandedStep(SumSquares(s[..n], 0.0), Sum(s[..n]), n, s[n], c);
    }
  }

  lemma Distribute(a: real, b: real, c: real)
    ensures a * (b + c) == a * b + a * c
  {
  }

  lemma {:induction false} JitterSquares(s: seq<real>, avg: real)
    ensures SumSquares(Jitters(s, avg), 0.0) == SumSquares(s, avg)
  {
    if s == [] {
    } else {
      var j, front := Jitters(s, avg), s[..|s| - 1];
      JitterSquares(front, avg);
      assert j[..|s| - 1] == Jitters(front, avg);
    }
  }

  lemma SquareNonNegative(x: real)
    ensures 0.0 <= Square(x)
  {
  }

  lemma {:induction false} SumSquaresNonNegative(s: seq<real>, c: real)
    ensures SumSquares(s, c) >= 0.0
  {
    if s == [] {
    } else {
      SumSquaresNonNegative(s[..|s| - 1], c);
      SquareNonNegative(s[|s| - 1] - c);
    }
  }

  lemma {:induction false} SumBounds(s: seq<real>, lo: real, hi: real)
    requires forall i :: 0 <= i < |s| ==> lo <= s[i] <= hi
    ensures |s| as real * lo <= Sum(s) <= |s| as real * hi
  {
    if s == [] {
    } else {
      SumBounds(s[..|s| - 1], lo, hi);
      OneMore(|s| - 1, lo);
      OneMore(|s| - 1, hi);
    }
  }

  lemma DivideBack(n: real, k: real)
    requires n > 0.0
    ensures n * k / n == k
  {
  }

  lemma DivideDifference(a: real, n: real, k: real)
    requires n > 0.0
    ensures (a - n * k) / n == a / n - k
  {
  }

  lemma DivideOrder(a: real, b: real, n: real)
    requires n > 0.0 && a <= b
    ensures a / n <= b / n
  {
  }

  function MeanSquare(s: seq<real>): real
    requires s != []
  {
    SumSquares(s, 0.0) / |s| as real
  }

  lemma MeanOfExpansion(q: real, t: real, k: nat, m: real)
    requires k > 0 && m == t / k as real
    ensures Expanded(q, t, k, m) / k as real == q / k as real - Square(m)
  {
    var n := k as real;
    assert t == n * m;
    assert 2.0 * m * t == n * (2.0 * (m * m));
    assert Expanded(q, t, k, m) == q - n * (m * m);
    DivideDifference(q, n, m * m);
  }

  // The variance is the mean square less the squared mean.
  lemma VarianceIs(s: seq<real>)
    requires s != []
    ensures Var(s, Avg(s)) == MeanSquare(s) - Square(Avg(s))
  {
    var m := Avg(s);
    SumSquaresExpand(s, m);
    MeanOfExpansion(SumSquares(s, 0.0), Sum(s), |s|, m);
  }

  // The variance of the absolute deviations is the variance less their squared mean.
  lemma JitterVariance(s: seq<real>)
    requires s != []
    ensures var avg := Avg(s);
            var j := Jitters(s, avg);
            Var(j, Avg(j)) == Var(s, avg) - Square(Avg(j))
  {
    VarianceIs(Jitters(s, Avg(s)));
    JitterSquares(s, Avg(s));
  }

  // ---------- sorted samples ----------

  function Id(x: real): real {
    x
  }

  ghost predicate Ordered(s: seq<real>) {
    forall i, j :: 0 <= i < j < |s| ==> s[i] <= s[j]
  }

  lemma MeanBetween(t: real, n: real, lo: real, hi: real)
    requires n > 0.0 && n * lo <= t <= n * hi
    ensures lo <= t / n <= hi
  {
    DivideOrder(n * lo, t, n);
    DivideOrder(t, n * hi, n);
    DivideBack(n, lo);
    DivideBack(n, hi);
  }

  lemma AverageBetween(s: seq<real>)
    requires s != [] && Ordered(s)
    ensures s[0] <= Avg(s) <= s[|s| - 1]
  {
    SumBounds(s, s[0], s[|s| - 1]);
    MeanBetween(Sum(s), |s| as real, s[0], s[|s| - 1]);
  }

  lemma InsideProduct(x: real, lo: real, hi: real)
    requires lo <= x <= hi
    ensures Square(x - 0.0) <= (lo + hi) * x - lo * hi
  {
    Product(hi - x, x - lo);
    assert (hi - x) * (x - lo) == (lo + hi) * x - x * x - lo * hi;
  }

  lemma ProductSumStep(q: real, t: real, n: nat, x: real, lo: real, hi: real)
    requires lo <= x <= hi && q <= (lo + hi) * t - n as real * (lo * hi)
    ensures q + Square(x - 0.0) <= (lo + hi) * (t + x) - (n + 1) as real * (lo * hi)
  {
    InsideProduct(x, lo, hi);
    Distribute(lo + hi, t, x);
    OneMore(n, lo * hi);
  }

  // The sum of (hi - x) * (x - lo) is not negative.
  lemma {:induction false} ProductSum(s: seq<real>, lo: real, hi: real)
    requires forall i :: 0 <= i < |s| ==> lo <= s[i] <= hi
    ensures SumSquares(s, 0.0) <= (lo + hi) * Sum(s) - |s| as real * (lo * hi)
  {
    if s == [] {
    } else {
      var n := |s| - 1;
      ProductSum(s[..n], lo, hi);
      ProductSumStep(SumSquares(s[..n], 0.0), Sum(s[..n]), n, s[n], lo, hi);
    }
  }

  lemma DivideProductBound(q: real, t: real, n: real, a: real, b: real, m: real)
    requires n > 0.0 && m == t / n && q <= a * t - n * b
    ensures q / n <= a * m - b
  {
    assert t == n * m;
    assert a * (n * m) == n * (a * m);
    assert n * (a * m) - n * b == n * (a * m - b);
    DivideOrder(q, n * (a * m - b), n);
    DivideBack(n, a * m - b);
  }

  lemma MeanSquareBound(s: seq<real>, lo: real, hi: real)
    requires s != [] && forall i :: 0 <= i < |s| ==> lo <= s[i] <= hi
    ensures MeanSquare(s) <= (lo + hi) * Avg(s) - lo * hi
  {
    ProductSum(s, lo, hi);
    DivideProductBound(SumSquares(s, 0.0), Sum(s), |s| as real, lo + hi, lo * hi, Avg(s));
  }

  lemma Spread(v: real, q: real, lo: real, hi: real, m: real)
    requires v == q - Square(m) && q <= (lo + hi) * m - lo * hi
    ensures v <= (m - lo) * (hi - m)
  {
    assert (lo + hi) * m - lo * hi - Square(m) == (m - lo) * (hi - m);
  }

  // The variance never exceeds (avg - min) * (max - avg).
  lemma VarianceBound(s: seq<real>)
    requires s != [] && Ordered(s)
    ensures Var(s, Avg(s)) <= (Avg(s) - s[0]) * (s[|s| - 1] - Avg(s))
  {
    MeanSquareBound(s, s[0], s[|s| - 1]);
    VarianceIs(s);
    Spread(Var(s, Avg(s)), MeanSquare(s), s[0], s[|s| - 1], Avg(s));
  }

  // ---------- quantiles ----------

  lemma Between(a: real, b: real, d: real)
    requires a <= b && 0.0 <= d <= 1.0
    ensures a <= (1.0 - d) * a + d * b <= b
  {
    assert (1.0 - d) * a + d * b == a + d * (b - a) == b - (1.0 - d) * (b - a);
    Product(d, b - a);
    Product(1.0 - d, b - a);
  }

  lemma SlideUp(a: real, b: real, d: real, e: real)
    requires a <= b && 0.0 <= d <= e <= 1.0
    ensures (1.0 - d) * a + d * b <= (1.0 - e) * a + e * b
  {
    assert (1.0 - e) * a + e * b - ((1.0 - d) * a + d * b) == (e - d) * (b - a);
    Product(e - d, b - a);
  }

  lemma InterpolateNear(s: seq<real>, x: real)
    requires s != [] && Ordered(s) && 0.0 <= x <= (|s| - 1) as real
    ensures s[x.Floor] <= Interpolate(s, x) <= s[|s| - 1]
    ensures x.Floor < |s| - 1 ==> Interpolate(s, x) <= s[x.Floor + 1]
  {
    var lhs := x.Floor;
    if lhs < |s| - 1 {
      Between(s[lhs], s[lhs + 1], x - lhs as real);
    }
  }

  // On a sorted sample a later position never reads a smaller value.
  lemma InterpolateMonotone(s: seq<real>, x: real, y: real)
    requires s != [] && Ordered(s) && 0.0 <= x <= y <= (|s| - 1) as real
    ensures Interpolate(s, x) <= Interpolate(s, y)
  {
    InterpolateNear(s, x);
    InterpolateNear(s, y);
    if x.Floor == y.Floor && x.Floor < |s| - 1 {
      SlideUp(s[x.Floor], s[x.Floor + 1], x - x.Floor as real, y - y.Floor as real);
    } else if x.Floor < y.Floor {
      assert s[x.Floor + 1] <= s[y.Floor];
    }
  }

  // The fraction whose position is entry i.
  lemma FractionOf(n: nat, i: nat) returns (f: real)
    requires i < n
    ensures 0.0 <= f <= 1.0 && Position(n, f) == i as real
  {
    f := 0.0;
    if n > 1 {
      var m, k := (n - 1) as real, i as real;
      f := k / m;
      DivideOrder(0.0, k, m);
      DivideOrder(k, m, m);
      assert k / m * m == k;
    }
  }

  lemma QuantileAtEntry(s: seq<real>, i: nat, f: real)
    requires i < |s| && 0.0 <= f <= 1.0 && Position(|s|, f) == i as real
    ensures QuantileOf(s, f) == s[i]
  {
    assert (i as real).Floor == i;
  }

  // The line through a with slope d, read at x between its values u and v at l and l + 1.
  lemma OnTheLine(a: real, d: real, l: real, x: real, u: real, v: real)
    requires u == a + l * d && v == a + (l + 1.0) * d
    ensures (1.0 - (x - l)) * u + (x - l) * v == a + x * d
  {
    assert (l + 1.0) * d == l * d + d;
    assert x * d == l * d + (x - l) * d;
    MixSum(u, d, x - l);
  }

  lemma MixSum(x: real, d: real, delta: real)
    ensures (1.0 - delta) * x + delta * (x + d) == x + delta * d
  {
    assert (1.0 - delta) * x == x - delta * x;
    Distribute(delta, x, d);
  }

  // Interpolation is linear: the quantiles of evenly spaced values lie on their line.
  lemma EvenlySpaced(s: seq<real>, a: real, d: real, f: real)
    requires s != [] && 0.0 <= f <= 1.0 && forall i :: 0 <= i < |s| ==> s[i] == a + i as real * d
    ensures QuantileOf(s, f) == a + f * (|s| - 1) as real * d
  {
    PositionInRange(|s|, f);
    var x := Position(|s|, f);
    var l := x.Floor;
    if l < |s| - 1 {
      assert (l + 1) as real == l as real + 1.0;
      assert s[l + 1] == a + (l + 1) as real * d;
      OnTheLine(a, d, l as real, x, s[l], s[l + 1]);
    } else {
      assert x == l as real;
    }
  }

  // A quantile depends on the two entries next to its position only.
  lemma NeighboursDecide(s: seq<real>, t: seq<real>, f: real)
    requires s != [] && |s| == |t| && 0.0 <= f <= 1.0
    requires forall i :: 0 <= i < |s| && i as real - 1.0 < f * (|s| - 1) as real < i as real + 1.0 ==> s[i] == t[i]
    ensures QuantileOf(s, f) == QuantileOf(t, f)
  {
    PositionInRange(|s|, f);
    var x := Position(|s|, f);
    var l := x.Floor;
    assert l as real - 1.0 < x < l as real + 1.0;
    if x == l as real && l < |s| - 1 {
      QuantileAtEntry(s, l, f);
      QuantileAtEntry(t, l, f);
    } else if l < |s| - 1 {
      assert (l + 1) as real - 1.0 < x < (l + 1) as real + 1.0;
    }
  }

  function Rescaled(s: seq<real>, c: real, e: real): seq<real> {
    seq(|s|, i requires 0 <= i < |s| => c * s[i] + e)
  }

  lemma MixAffine(x: real, y: real, delta: real, c: real, e: real)
    ensures (1.0 - delta) * (c * x + e) + delta * (c * y + e) == c * ((1.0 - delta) * x + delta * y) + e
  {
    var p, q := c * x, c * y;
    assert (1.0 - delta) * (p + e) == p + e - delta * p - delta * e;
    assert delta * (q + e) == delta * q + delta * e;
    assert c * ((1.0 - delta) * x) == p - delta * p;
    assert c * (delta * y) == delta * q;
    Distribute(c, (1.0 - delta) * x, delta * y);
  }

  // A change of unit and origin carries over to the quantiles.
  lemma QuantileAffine(s: seq<real>, f: real, c: real, e: real)
    requires s != [] && 0.0 <= f <= 1.0
    ensures QuantileOf(Rescaled(s, c, e), f) == c * QuantileOf(s, f) + e
  {
    PositionInRange(|s|, f);
    var x := Position(|s|, f);
    if x.Floor < |s| - 1 {
      MixAffine(s[x.Floor], s[x.Floor + 1], x - x.Floor as real, c, e);
    }
  }

  lemma MixWithin(a: real, b: real, d: real, lo: real, hi: real)
    requires lo <= a <= hi && lo <= b <= hi && 0.0 <= d <= 1.0
    ensures lo <= (1.0 - d) * a + d * b <= hi
  {
    assert (1.0 - d) * a + d * b == a + d * (b - a) == b + (1.0 - d) * (a - b);
    if a <= b {
      Product(d, b - a);
      Product(1.0 - d, b - a);
      assert (1.0 - d) * (b - a) == -((1.0 - d) * (a - b));
    } else {
      Product(d, a - b);
      Product(1.0 - d, a - b);
      assert d * (b - a) == -(d * (a - b));
    }
  }

  // A quantile read off any list, sorted or not, lies between the bounds of its entries.
  lemma QuantileWithin(s: seq<real>, lo: real, hi: real, f: real)
    requires s != [] && 0.0 <= f <= 1.0 && forall i :: 0 <= i < |s| ==> lo <= s[i] <= hi
    ensures lo <= QuantileOf(s, f) <= hi
  {
    PositionInRange(|s|, f);
    var x := Position(|s|, f);
    if x.Floor < |s| - 1 {
      MixWithin(s[x.Floor], s[x.Floor + 1], x - x.Floor as real, lo, hi);
    }
  }
}
