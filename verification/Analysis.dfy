/** The reported statistics of one measurement (statisticsAnalyse/calculate.go, analyse.go):
    22 numbers from the answered packets, and what they satisfy for every input. */
module Analysis {
  import opened Sorting
  import opened Statistics
  import opened EchoPeriod

  // ---------- filtering ----------

  // Positive values in order, or the single value -1 if there are none.
  function Positive(s: seq<real>): seq<real> {
    if s == [] then []
    else
      var front, x := Positive(s[..|s| - 1]), s[|s| - 1];
      if x > 0.0 then front + [x] else front
  }

  function PreSample(s: seq<real>): seq<real> {
    if Positive(s) == [] then [-1.0] else Positive(s)
  }

  method PreRtts(rtts1: seq<real>) returns (rtts2: seq<real>)
    ensures rtts2 == PreSample(rtts1)
  {
    rtts2 := [];
    for i := 0 to |rtts1|
      invariant rtts2 == Positive(rtts1[..i])
    {
      assert rtts1[..i + 1][..i] == rtts1[..i];
      if rtts1[i] > 0.0 {
        rtts2 := rtts2 + [rtts1[i]];
      }
    }
    assert rtts1[..|rtts1|] == rtts1;
    if |rtts2| == 0 {
      rtts2 := [-1.0];
    }
  }

  function Reals(s: seq<int>): seq<real> {
    seq(|s|, i requires 0 <= i < |s| => s[i] as real)
  }

  method PreTTLs(ttls1: seq<int>) returns (ttls2: seq<real>)
    ensures ttls2 == PreSample(Reals(ttls1))
  {
    ttls2 := [];
    ghost var all := Reals(ttls1);
    for i := 0 to |ttls1|
      invariant ttls2 == Positive(all[..i])
    {
      assert all[..i + 1][..i] == all[..i];
      if ttls1[i] > 0 {
        ttls2 := ttls2 + [ttls1[i] as real];
      }
    }
    assert all[..|all|] == all;
    if |ttls2| == 0 {
      ttls2 := [-1.0];
    }
  }

  lemma {:induction false} PositiveOrdered(s: seq<real>)
    requires Ordered(s)
    ensures Ordered(Positive(s))
    ensures forall i :: 0 <= i < |Positive(s)| ==> Positive(s)[i] <= s[|s| - 1]
  {
    if s == [] {
    } else {
      PositiveOrdered(s[..|s| - 1]);
    }
  }

  // Exactly the positive values stay, as often as they occur.
  lemma {:induction false} PositiveCount(s: seq<real>, x: real)
    ensures multiset(Positive(s))[x] == if x > 0.0 then multiset(s)[x] else 0
  {
    if s == [] {
    } else {
      PositiveCount(s[..|s| - 1], x);
      assert s == s[..|s| - 1] + [s[|s| - 1]];
    }
  }

  // The sample has no value but the positive ones, or -1 alone if there are none.
  lemma PreSampleCount(s: seq<real>, x: real)
    ensures (exists y :: y in s && y > 0.0) ==> multiset(PreSample(s))[x] == if x > 0.0 then multiset(s)[x] else 0
    ensures (forall y :: y in s ==> y <= 0.0) ==> PreSample(s) == [-1.0]
  {
    PositiveCount(s, x);
    if Positive(s) == [] {
      forall y | y in s
        ensures y <= 0.0
      {
        PositiveCount(s, y);
        assert multiset(s)[y] > 0;
      }
    } else {
      var y := Positive(s)[0];
      PositiveCount(s, y);
      assert y in multiset(Positive(s));
      assert y in s && y > 0.0;
    }
  }

  // ---------- the summary ----------

  // Mean, variance, first, last, and the three quartiles.
  function Seven(s: seq<real>): seq<real>
    requires s != []
  {
    [Avg(s), Var(s, Avg(s)), s[0], s[|s| - 1], QuantileOf(s, 0.25), QuantileOf(s, 0.5), QuantileOf(s, 0.75)]
  }

  function SortReals(s: seq<real>): seq<real> {
    Sort(s, Id)
  }

  function IntKey(x: int): real {
    x as real
  }

  // The sample the statistics are taken of: sorted, positive, never empty.
  function Sample(rtts: seq<real>): (p: seq<real>)
    ensures p != []
  {
    PreSample(SortReals(rtts))
  }

  function TtlSample(ttls: seq<int>): (p: seq<real>)
    ensures p != []
  {
    PreSample(Reals(Sort(ttls, IntKey)))
  }

  function RttSummary(rtts: seq<real>): seq<real> {
    var p := Sample(rtts);
    Seven(p) + Seven(Jitters(p, Avg(p)))
  }

  method SevenOf(s: seq<real>) returns (r: seq<real>)
    requires s != []
    ensures r == Seven(s)
  {
    var avg := Average(s);
    var variance := Variance(s, avg.r);
    var q25, q50, q75 := Quantile(s);
    r := [avg.r, variance.r, s[0], s[|s| - 1], q25, q50, q75];
  }

  // Sorts its input in place, like the library sort it stands in for.
  method SortFloats(a: array<real>)
    modifies a
    ensures a[..] == SortReals(old(a[..]))
  {
    var sorted := SortReals(a[..]);
    SortMembers(a[..], Id);
    forall i | 0 <= i < a.Length {
      a[i] := sorted[i];
    }
    assert a[..] == sorted;
  }

  method SortInts(a: array<int>)
    modifies a
    ensures a[..] == Sort(old(a[..]), IntKey)
  {
    var sorted := Sort(a[..], IntKey);
    SortMembers(a[..], IntKey);
    forall i | 0 <= i < a.Length {
      a[i] := sorted[i];
    }
    assert a[..] == sorted;
  }

  method RttToAllStatistics(rtts: array<real>) returns (res: seq<real>)
    modifies rtts
    ensures res == RttSummary(old(rtts[..])) && |res| == 14
    ensures rtts[..] == SortReals(old(rtts[..]))
  {
    SortFloats(rtts);
    var preRtts := PreRtts(rtts[..]);
    var rttAvg := Average(preRtts);
    var first := SevenOf(preRtts);
    var jitters := Jitter(preRtts, rttAvg.r);
    var second := SevenOf(jitters);
    res := first + second;
  }

  method TTLToStatistics(ttls: array<int>) returns (res: seq<real>)
    modifies ttls
    ensures res == Seven(TtlSample(old(ttls[..]))) && |res| == 7
    ensures ttls[..] == Sort(old(ttls[..]), IntKey)
  {
    SortInts(ttls);
    var pre := PreTTLs(ttls[..]);
    res := SevenOf(pre);
  }

  // ---------- what the numbers satisfy ----------

  lemma SampleOrdered(rtts: seq<real>)
    ensures Ordered(Sample(rtts))
  {
    SortCorrect(rtts, Id);
    assert forall i, j :: 0 <= i < j < |SortReals(rtts)| ==> Id(SortReals(rtts)[i]) <= Id(SortReals(rtts)[j]);
    PositiveOrdered(SortReals(rtts));
  }

  lemma TtlSampleOrdered(ttls: seq<int>)
    ensures Ordered(TtlSample(ttls))
  {
    var sorted := Sort(ttls, IntKey);
    SortCorrect(ttls, IntKey);
    assert forall i, j :: 0 <= i < j < |sorted| ==> IntKey(sorted[i]) <= IntKey(sorted[j]);
    PositiveOrdered(Reals(sorted));
  }

  // min <= q25 <= q50 <= q75 <= max and min <= avg <= max.
  lemma SevenOrdered(s: seq<real>)
    requires s != [] && Ordered(s)
    ensures var r := Seven(s); r[2] <= r[4] <= r[5] <= r[6] <= r[3] && r[2] <= r[0] <= r[3]
  {
    var n := |s|;
    AverageBetween(s);
    PositionInRange(n, 0.25);
    PositionInRange(n, 0.5);
    PositionInRange(n, 0.75);
    PositionMonotone(n, 0.25, 0.5);
    PositionMonotone(n, 0.5, 0.75);
    InterpolateMonotone(s, Position(n, 0.25), Position(n, 0.5));
    InterpolateMonotone(s, Position(n, 0.5), Position(n, 0.75));
    InterpolateNear(s, Position(n, 0.25));
    InterpolateNear(s, Position(n, 0.75));
  }

  lemma OrderStatistics(rtts: seq<real>, ttls: seq<int>)
    ensures var r, t := RttSummary(rtts), Seven(TtlSample(ttls));
            && r[2] <= r[4] <= r[5] <= r[6] <= r[3] && r[2] <= r[0] <= r[3]
            && t[2] <= t[4] <= t[5] <= t[6] <= t[3] && t[2] <= t[0] <= t[3]
  {
    SampleOrdered(rtts);
    TtlSampleOrdered(ttls);
    SevenOrdered(Sample(rtts));
    SevenOrdered(TtlSample(ttls));
  }

  lemma JitterEnds(p: seq<real>)
    requires p != [] && Ordered(p)
    ensures var j := Jitters(p, Avg(p)); j[0] == Avg(p) - p[0] && j[|j| - 1] == p[|p| - 1] - Avg(p)
  {
    AverageBetween(p);
  }

  lemma NonNegativeQuotient(a: real, n: real)
    requires 0.0 <= a && n > 0.0
    ensures 0.0 <= a / n
  {
  }

  lemma VarianceNonNegative(s: seq<real>)
    requires s != []
    ensures 0.0 <= Var(s, Avg(s))
  {
    SumSquaresNonNegative(s, Avg(s));
    NonNegativeQuotient(SumSquares(s, Avg(s)), |s| as real);
  }

  // The jitter variance is the variance less the squared mean jitter; the reported jitter ends
  // are avg - min and max - avg; and their product bounds the variance.
  predicate SpreadIdentities(avg: real, variance: real, min: real, max: real,
                             jitterAvg: real, jitterVariance: real, jitterMin: real, jitterMax: real) {
    && jitterVariance == variance - Square(jitterAvg) && Square(jitterAvg) <= variance
    && jitterMin == avg - min && jitterMax == max - avg && jitterMin + jitterMax == max - min
    && variance <= (avg - min) * (max - avg)
  }

  lemma SpreadOf(p: seq<real>)
    requires p != [] && Ordered(p)
    ensures var avg := Avg(p);
            var j := Jitters(p, avg);
            SpreadIdentities(avg, Var(p, avg), p[0], p[|p| - 1], Avg(j), Var(j, Avg(j)), j[0], j[|j| - 1])
  {
    JitterVariance(p);
    VarianceBound(p);
    JitterEnds(p);
    VarianceNonNegative(Jitters(p, Avg(p)));
  }

  lemma SummaryParts(rtts: seq<real>)
    ensures var r, p := RttSummary(rtts), Sample(rtts);
            var j := Jitters(p, Avg(p));
            && r[0] == Avg(p) && r[1] == Var(p, Avg(p)) && r[2] == p[0] && r[3] == p[|p| - 1]
            && r[7] == Avg(j) && r[8] == Var(j, Avg(j)) && r[9] == j[0] && r[10] == j[|j| - 1]
  {
  }

  // The identities hold of the reported numbers for every input.
  lemma StatisticsIdentities(rtts: seq<real>)
    ensures var r := RttSummary(rtts); SpreadIdentities(r[0], r[1], r[2], r[3], r[7], r[8], r[9], r[10])
  {
    SampleOrdered(rtts);
    SpreadOf(Sample(rtts));
    SummaryParts(rtts);
  }

  function Larger(a: real, b: real): real {
    if a < b then b else a
  }

  ghost predicate LargestDistance(p: seq<real>, c: real, most: real) {
    (forall x :: x in p ==> Abs(x - c) <= most) && (exists x :: x in p && Abs(x - c) == most)
  }

  lemma LargestOf(p: seq<real>)
    requires p != [] && Ordered(p)
    ensures LargestDistance(p, Avg(p), Larger(Avg(p) - p[0], p[|p| - 1] - Avg(p)))
  {
    AverageBetween(p);
    assert p[0] in p && p[|p| - 1] in p;
    assert Abs(p[0] - Avg(p)) == Avg(p) - p[0] && Abs(p[|p| - 1] - Avg(p)) == p[|p| - 1] - Avg(p);
    assert forall i :: 0 <= i < |p| ==> p[0] <= p[i] <= p[|p| - 1];
  }

  lemma LargestJitter(p: seq<real>)
    requires p != [] && Ordered(p)
    ensures var j := Jitters(p, Avg(p)); LargestDistance(p, Avg(p), Larger(j[0], j[|j| - 1]))
  {
    JitterEnds(p);
    LargestOf(p);
  }

  // The larger of the two reported jitter ends is the true largest deviation from the mean.
  lemma LargestDeviation(rtts: seq<real>)
    ensures var r := RttSummary(rtts); LargestDistance(Sample(rtts), r[0], Larger(r[9], r[10]))
  {
    SampleOrdered(rtts);
    LargestJitter(Sample(rtts));
    SummaryParts(rtts);
  }

  ghost predicate Within(p: seq<real>, c: real, most: real) {
    forall x :: x in p ==> Abs(x - c) <= most
  }

  lemma LastIsLargestIff(p: seq<real>)
    requires p != [] && Ordered(p)
    ensures Within(p, Avg(p), p[|p| - 1] - Avg(p)) <==> Avg(p) <= (p[0] + p[|p| - 1]) / 2.0
  {
    AverageBetween(p);
    LargestOf(p);
    assert p[0] in p && Abs(p[0] - Avg(p)) == Avg(p) - p[0];
  }

  // The reported jitterMax is the largest jitter exactly if the mean is at most the mid-range.
  lemma JitterMaxTrueIff(rtts: seq<real>)
    ensures var r := RttSummary(rtts); Within(Sample(rtts), r[0], r[10]) <==> r[0] <= (r[2] + r[3]) / 2.0
  {
    SampleOrdered(rtts);
    SummaryParts(rtts);
    JitterEnds(Sample(rtts));
    LastIsLargestIff(Sample(rtts));
  }

  // No value of the sample lies strictly between the smallest and its mirror image in the mean.
  ghost predicate NothingBelowMirror(p: seq<real>)
    requires p != []
  {
    forall x :: x in p ==> x == p[0] || x >= 2.0 * Avg(p) - p[0]
  }

  lemma MirrorOrders(p: seq<real>)
    requires p != [] && Ordered(p) && NothingBelowMirror(p)
    ensures Ordered(Jitters(p, Avg(p)))
  {
    var j := Jitters(p, Avg(p));
    AverageBetween(p);
    forall k, m | 0 <= k < m < |j|
      ensures j[k] <= j[m]
    {
      assert p[k] in p && p[m] in p && p[k] <= p[m] && p[0] <= p[k];
    }
  }

  lemma FirstLeastGivesMirror(p: seq<real>)
    requires p != [] && Ordered(p) && forall y :: y in Jitters(p, Avg(p)) ==> Jitters(p, Avg(p))[0] <= y
    ensures NothingBelowMirror(p)
  {
    var j := Jitters(p, Avg(p));
    AverageBetween(p);
    forall x | x in p
      ensures x == p[0] || x >= 2.0 * Avg(p) - p[0]
    {
      var i :| 0 <= i < |p| && p[i] == x;
      assert j[i] in j;
    }
  }

  lemma OrderedFirstLeast(j: seq<real>)
    requires j != [] && Ordered(j)
    ensures forall y :: y in j ==> j[0] <= y
  {
  }

  // The jitter list is not sorted before its first entry is reported as the minimum: the list is
  // in order, and that entry is the least, exactly if nothing lies below the mirror image.
  lemma JitterOrderIff(rtts: seq<real>)
    ensures var p := Sample(rtts);
            var j := Jitters(p, Avg(p));
            && (Ordered(j) <==> NothingBelowMirror(p))
            && ((forall y :: y in j ==> j[0] <= y) <==> NothingBelowMirror(p))
  {
    var p := Sample(rtts);
    var j := Jitters(p, Avg(p));
    SampleOrdered(rtts);
    if NothingBelowMirror(p) {
      MirrorOrders(p);
    }
    if Ordered(j) {
      OrderedFirstLeast(j);
    }
    if forall y :: y in j ==> j[0] <= y {
      FirstLeastGivesMirror(p);
    }
  }

  lemma SortRealsIs(s: seq<real>, out: seq<real>)
    requires multiset(out) == multiset(s) && Ordered(out)
    ensures SortReals(s) == out
  {
    SortUnique(s, out, Id);
  }

  lemma RotateMultiset(x: real, rest: seq<real>)
    ensures multiset([x] + rest) == multiset(rest + [x])
  {
  }

  lemma OrderedIsSorted(s: seq<real>)
    requires Ordered(s)
    ensures SortReals(s) == s
  {
    SortRealsIs(s, s);
  }

  lemma SortRealsOrdered(s: seq<real>)
    ensures Ordered(SortReals(s)) && |SortReals(s)| == |s|
  {
    var sorted := SortReals(s);
    SortCorrect(s, Id);
    SameLength(s, sorted);
    assert forall i, j :: 0 <= i < j < |sorted| ==> Id(sorted[i]) <= Id(sorted[j]);
  }

  // The f-quantile of s read off the sorted s.
  function TrueQuantile(s: seq<real>, f: real): real
    requires s != [] && 0.0 <= f <= 1.0
  {
    SortRealsOrdered(s);
    QuantileOf(SortReals(s), f)
  }

  // Reading every fraction off an unsorted list gives each of its entries, so it is right at every
  // fraction only if the list is sorted.
  lemma AllQuantilesIff(s: seq<real>)
    requires s != []
    ensures (forall f: real :: 0.0 <= f <= 1.0 ==> QuantileOf(s, f) == TrueQuantile(s, f)) <==> Ordered(s)
  {
    var sorted := SortReals(s);
    SortRealsOrdered(s);
    if Ordered(s) {
      OrderedIsSorted(s);
    }
    if forall f: real :: 0.0 <= f <= 1.0 ==> QuantileOf(s, f) == TrueQuantile(s, f) {
      forall i | 0 <= i < |s|
        ensures s[i] == sorted[i]
      {
        var f := FractionOf(|s|, i);
        QuantileAtEntry(s, i, f);
        QuantileAtEntry(sorted, i, f);
        assert QuantileOf(s, f) == TrueQuantile(s, f);
      }
    }
  }

  // The jitter quantiles are read off the unsorted jitters. Where nothing lies below the mirror
  // image the three reported ones are the true ones; and it is exactly there that reading any
  // quantile off that list is right.
  lemma JitterQuantiles(rtts: seq<real>)
    ensures var p, r := Sample(rtts), RttSummary(rtts);
            var j := Jitters(p, Avg(p));
            && (NothingBelowMirror(p) ==>
                  r[11] == TrueQuantile(j, 0.25) && r[12] == TrueQuantile(j, 0.5) && r[13] == TrueQuantile(j, 0.75))
            && ((forall f: real :: 0.0 <= f <= 1.0 ==> QuantileOf(j, f) == TrueQuantile(j, f))
                <==> NothingBelowMirror(p))
  {
    var p := Sample(rtts);
    JitterOrderIff(rtts);
    AllQuantilesIff(Jitters(p, Avg(p)));
    QuantileParts(rtts);
  }

  lemma QuantileParts(rtts: seq<real>)
    ensures var p, r := Sample(rtts), RttSummary(rtts);
            var j := Jitters(p, Avg(p));
            r[11] == QuantileOf(j, 0.25) && r[12] == QuantileOf(j, 0.5) && r[13] == QuantileOf(j, 0.75)
  {
  }

  // Sorted or not, each reported jitter quantile lies between 0 and the largest deviation.
  lemma JitterQuantilesWithin(rtts: seq<real>)
    ensures var r := RttSummary(rtts);
            forall k :: 11 <= k <= 13 ==> 0.0 <= r[k] <= Larger(r[9], r[10])
  {
    var p, r := Sample(rtts), RttSummary(rtts);
    var j := Jitters(p, Avg(p));
    LargestDeviation(rtts);
    SummaryParts(rtts);
    QuantileParts(rtts);
    forall i | 0 <= i < |j|
      ensures 0.0 <= j[i] <= Larger(r[9], r[10])
    {
      assert p[i] in p;
    }
    QuantileWithin(j, 0.0, Larger(r[9], r[10]), 0.25);
    QuantileWithin(j, 0.0, Larger(r[9], r[10]), 0.5);
    QuantileWithin(j, 0.0, Larger(r[9], r[10]), 0.75);
  }

  // One, two, three: the first jitter is the largest.
  lemma UnorderedJitterExample()
    ensures Jitters([1.0, 2.0, 3.0], Avg([1.0, 2.0, 3.0])) == [1.0, 0.0, 1.0]
  {
    var s := [1.0, 2.0, 3.0];
    assert s[..2] == [1.0, 2.0] && s[..2][..1] == [1.0] && s[..1][..0] == [];
    assert Sum(s[..1]) == 1.0;
    assert Sum(s[..2]) == 3.0;
    assert Sum(s) == 6.0;
  }

  lemma ZeroToTheFront(j: seq<real>, sorted: seq<real>)
    requires j == [1.0, 0.0, 1.0] && sorted == [0.0, 1.0, 1.0]
    ensures SortReals(j) == sorted
  {
    var rest := [0.0, 1.0];
    assert j == [1.0] + rest && sorted == rest + [1.0];
    RotateMultiset(1.0, rest);
    SortRealsIs(j, sorted);
  }

  // ... and the reported median jitter is 0, the true one 1.
  lemma WrongMedianExample()
    ensures RttSummary([1.0, 2.0, 3.0])[12] == 0.0
    ensures TrueQuantile(Jitters([1.0, 2.0, 3.0], Avg([1.0, 2.0, 3.0])), 0.5) == 1.0
  {
    var s := [1.0, 2.0, 3.0];
    UnorderedJitterExample();
    OrderedSample(s);
    var j := [1.0, 0.0, 1.0];
    ZeroToTheFront(j, [0.0, 1.0, 1.0]);
    QuantileParts(s);
    QuantileAtEntry(j, 1, 0.5);
    QuantileAtEntry([0.0, 1.0, 1.0], 1, 0.5);
  }

  lemma {:induction false} AllPositive(s: seq<real>)
    requires forall i :: 0 <= i < |s| ==> s[i] > 0.0
    ensures Positive(s) == s
  {
    if s == [] {
    } else {
      AllPositive(s[..|s| - 1]);
      assert s == s[..|s| - 1] + [s[|s| - 1]];
    }
  }

  lemma OrderedSample(s: seq<real>)
    requires s != [] && Ordered(s) && forall i :: 0 <= i < |s| ==> s[i] > 0.0
    ensures Sample(s) == s
  {
    OrderedIsSorted(s);
    AllPositive(s);
  }

  lemma MeanIsFive()
    ensures Avg([1.0, 6.0, 6.0, 6.0, 6.0]) == 5.0
  {
    SumSnoc([], 1.0);
    SumSnoc([1.0], 6.0);
    SumSnoc([1.0, 6.0], 6.0);
    SumSnoc([1.0, 6.0, 6.0], 6.0);
    SumSnoc([1.0, 6.0, 6.0, 6.0], 6.0);
    assert [] + [1.0] == [1.0] && [1.0] + [6.0] == [1.0, 6.0] && [1.0, 6.0] + [6.0] == [1.0, 6.0, 6.0];
    assert [1.0, 6.0, 6.0] + [6.0] == [1.0, 6.0, 6.0, 6.0];
    assert [1.0, 6.0, 6.0, 6.0] + [6.0] == [1.0, 6.0, 6.0, 6.0, 6.0];
  }

  lemma SumSnoc(s: seq<real>, x: real)
    ensures Sum(s + [x]) == Sum(s) + x
  {
    assert (s + [x])[..|s|] == s;
  }

  lemma OneToTheEnd(j: seq<real>, sorted: seq<real>)
    requires j == [4.0, 1.0, 1.0, 1.0, 1.0] && sorted == [1.0, 1.0, 1.0, 1.0, 4.0]
    ensures SortReals(j) == sorted
  {
    var ones := [1.0, 1.0, 1.0, 1.0];
    assert j == [4.0] + ones && sorted == ones + [4.0];
    RotateMultiset(4.0, ones);
    SortRealsIs(j, sorted);
  }

  lemma FiveQuartiles(s: seq<real>)
    requires |s| == 5
    ensures QuantileOf(s, 0.25) == s[1] && QuantileOf(s, 0.5) == s[2] && QuantileOf(s, 0.75) == s[3]
  {
    QuantileAtEntry(s, 1, 0.25);
    QuantileAtEntry(s, 2, 0.5);
    QuantileAtEntry(s, 3, 0.75);
  }

  // The condition is not needed for three quartiles alone: here the jitters are 4, 1, 1, 1, 1.
  lemma QuartilesAgreeByChance()
    ensures var s := [1.0, 6.0, 6.0, 6.0, 6.0];
            var j := Jitters(s, Avg(s));
            && Sample(s) == s && !NothingBelowMirror(s)
            && QuantileOf(j, 0.25) == TrueQuantile(j, 0.25) && QuantileOf(j, 0.5) == TrueQuantile(j, 0.5)
            && QuantileOf(j, 0.75) == TrueQuantile(j, 0.75)
  {
    var s := [1.0, 6.0, 6.0, 6.0, 6.0];
    OrderedSample(s);
    MeanIsFive();
    var j, sorted := [4.0, 1.0, 1.0, 1.0, 1.0], [1.0, 1.0, 1.0, 1.0, 4.0];
    assert Jitters(s, 5.0) == j;
    assert s[1] in s;
    OneToTheEnd(j, sorted);
    FiveQuartiles(j);
    FiveQuartiles(sorted);
  }

  // ---------- joining with the table ----------

  function Cents(x: real): real {
    (x * 100.0).Floor as real / 100.0
  }

  function RttOf(recv: map<nat, Entry>, k: nat): real {
    if k in recv then Cents(recv[k].rtt) else 0.0
  }

  function TtlOf(recv: map<nat, Entry>, k: nat): int {
    if k in recv then recv[k].ttl else 0
  }

  function LossRate(received: nat, sent: nat): real
    requires sent > 0
  {
    Cents(1.0 - received as real / sent as real)
  }

  function RttList(recv: map<nat, Entry>, seqs: seq<nat>): seq<real> {
    seq(|seqs|, i requires 0 <= i < |seqs| => RttOf(recv, seqs[i]))
  }

  function TtlList(recv: map<nat, Entry>, seqs: seq<nat>): seq<int> {
    seq(|seqs|, i requires 0 <= i < |seqs| => TtlOf(recv, seqs[i]))
  }

  // With no packet in the table the quotient is no number, and neither is its floor.
  function Loss(received: nat, sent: nat): Float {
    if sent == 0 then NotFinite else Finite(LossRate(received, sent))
  }

  function Finites(s: seq<real>): seq<Float> {
    seq(|s|, i requires 0 <= i < |s| => Finite(s[i]))
  }

  method GetResult(seqs: seq<nat>, recv: map<nat, Entry>) returns (res: seq<Float>)
    ensures res == Finites(RttSummary(RttList(recv, seqs)))
                   + [Loss(|seqs|, |recv|)]
                   + Finites(Seven(TtlSample(TtlList(recv, seqs))))
    ensures |res| == 22
  {
    var rtts, ttls := FillSamples(seqs, recv);
    var rttRes := RttToAllStatistics(rtts);
    var ttlRes := TTLToStatistics(ttls);
    res := Finites(rttRes) + [Loss(|seqs|, |recv|)] + Finites(ttlRes);
  }

  // The loop of GetResult: a packet without an entry keeps its zeros.
  method FillSamples(seqs: seq<nat>, recv: map<nat, Entry>) returns (rtts: array<real>, ttls: array<int>)
    ensures fresh(rtts) && rtts[..] == RttList(recv, seqs)
    ensures fresh(ttls) && ttls[..] == TtlList(recv, seqs)
  {
    rtts := new real[|seqs|](_ => 0.0);
    ttls := new int[|seqs|](_ => 0);
    for index := 0 to |seqs|
      invariant forall i :: 0 <= i < index ==> rtts[i] == RttOf(recv, seqs[i]) && ttls[i] == TtlOf(recv, seqs[i])
      invariant forall i :: index <= i < |seqs| ==> rtts[i] == 0.0 && ttls[i] == 0
    {
      if seqs[index] !in recv {
        continue;
      }
      var sta := recv[seqs[index]];
      rtts[index] := Cents(sta.rtt);
      ttls[index] := sta.ttl;
    }
  }

  lemma {:induction false} DistinctInKeys(seqs: seq<nat>, keys: set<nat>)
    requires (forall i, j :: 0 <= i < j < |seqs| ==> seqs[i] != seqs[j]) && forall k :: k in seqs ==> k in keys
    ensures |seqs| <= |keys|
  {
    if seqs == [] {
    } else {
      var front, last := seqs[..|seqs| - 1], seqs[|seqs| - 1];
      assert last in seqs && last !in front;
      DistinctInKeys(front, keys - {last});
    }
  }

  // The RTT taken for a packet is its own cut down to hundredths.
  lemma ReportedRtt(recv: map<nat, Entry>, k: nat)
    ensures (RttOf(recv, k) * 100.0).Floor as real == RttOf(recv, k) * 100.0
    ensures k in recv ==> recv[k].rtt - 0.01 < RttOf(recv, k) <= recv[k].rtt
    ensures k !in recv ==> RttOf(recv, k) == 0.0
  {
  }

  // A value that is not positive changes nothing in the sorted sample.
  lemma ExtraIgnored(s: seq<real>, x: real)
    requires x <= 0.0
    ensures Sample(s + [x]) == Sample(s)
  {
    var a, b := SortReals(s + [x]), SortReals(s);
    SortCorrect(s + [x], Id);
    SortCorrect(s, Id);
    SortRealsOrdered(s + [x]);
    SortRealsOrdered(s);
    PositiveOrdered(a);
    PositiveOrdered(b);
    forall y
      ensures multiset(Positive(a))[y] == multiset(Positive(b))[y]
    {
      PositiveCount(a, y);
      PositiveCount(b, y);
    }
    OrderedOnce(Positive(a), Positive(b));
  }

  lemma OrderedOnce(a: seq<real>, b: seq<real>)
    requires Ordered(a) && Ordered(b) && forall y :: multiset(a)[y] == multiset(b)[y]
    ensures a == b
  {
    assert multiset(a) == multiset(b);
    SortRealsIs(a, b);
    OrderedIsSorted(a);
  }

  // A packet without an entry adds nothing to the RTT sample.
  lemma MissingPacketIgnored(seqs: seq<nat>, recv: map<nat, Entry>, k: nat)
    requires k !in recv
    ensures RttSummary(RttList(recv, seqs + [k])) == RttSummary(RttList(recv, seqs))
    ensures TtlOf(recv, k) <= 0
  {
    assert RttList(recv, seqs + [k]) == RttList(recv, seqs) + [0.0];
    ExtraIgnored(RttList(recv, seqs), 0.0);
  }

  // For distinct packets of the table the loss rate lies in [0, 1), and at most a hundredth below the
  // fraction of the table that they leave out.
  lemma LossRateAccurate(seqs: seq<nat>, recv: map<nat, Entry>)
    requires seqs != [] && forall i, j :: 0 <= i < j < |seqs| ==> seqs[i] != seqs[j]
    requires forall k :: k in seqs ==> k in recv
    ensures |recv| > 0
    ensures var loss, lost := LossRate(|seqs|, |recv|), 1.0 - |seqs| as real / |recv| as real;
            0.0 <= loss < 1.0 && lost - 0.01 < loss <= lost
  {
    DistinctInKeys(seqs, recv.Keys);
    var n, m := |seqs| as real, |recv| as real;
    assert |recv.Keys| == |recv|;
    FractionBetween(n, m);
  }

  lemma FractionBetween(n: real, m: real)
    requires 0.0 < n <= m
    ensures 0.0 < n / m <= 1.0
  {
  }
}
