/** The last stage of the package-level Trace: sorting the hops and folding the trailing
    destination-only hops into one (traceroute/tracer.go). */
module TailCollapse {
  import opened Probes
  import opened Sorting
  import opened Hops

  function ByDistance(h: Hop): real {
    h.distance as real
  }

  function SortHops(hops: seq<Hop>): seq<Hop> {
    Sort(hops, ByDistance)
  }

  predicate DestinationOnly(h: Hop, ip: IP) {
    |h.nodes| == 1 && h.nodes[0].ip == ip
  }

  // Where the maximal suffix of destination-only hops begins.
  function TailStart(hops: seq<Hop>, ip: IP): (k: nat)
    ensures k <= |hops|
    ensures forall i :: k <= i < |hops| ==> DestinationOnly(hops[i], ip)
    ensures k > 0 ==> !DestinationOnly(hops[k - 1], ip)
  {
    if hops == [] then 0
    else if DestinationOnly(hops[|hops| - 1], ip) then TailStart(hops[..|hops| - 1], ip)
    else |hops|
  }

  function FirstRtts(h: Hop): seq<int> {
    if h.nodes == [] then [] else h.nodes[0].rtts
  }

  function TailRtts(hops: seq<Hop>): seq<int> {
    if hops == [] then [] else TailRtts(hops[..|hops| - 1]) + FirstRtts(hops[|hops| - 1])
  }

  function Collapse(hops: seq<Hop>, ip: IP): seq<Hop> {
    var k := TailStart(hops, ip);
    if 0 < k < |hops| then hops[..k] + [Hop(hops[k].distance, [Node(ip, TailRtts(hops[k..]))])] else hops
  }

  function TraceResult(rs: seq<Reply>, ip: IP): seq<Hop> {
    Collapse(SortHops(Collected(rs)), ip)
  }

  // ---------- the sort ----------

  ghost predicate StrictlyIncreasing(hops: seq<Hop>) {
    forall i, j :: 0 <= i < j < |hops| ==> hops[i].distance < hops[j].distance
  }

  lemma {:induction false} HopsOnce(hops: seq<Hop>, h: Hop)
    requires HopsOk(hops)
    ensures multiset(hops)[h] <= 1
  {
    if hops == [] {
    } else {
      var front := hops[..|hops| - 1];
      HopsOnce(front, h);
      assert hops == front + [hops[|hops| - 1]];
      assert hops[|hops| - 1] !in front;
    }
  }

  lemma SameDistanceSameHop(hops: seq<Hop>)
    requires HopsOk(hops)
    ensures KeyInjective(multiset(hops), ByDistance)
  {
  }

  lemma SortHopsMembers(hops: seq<Hop>)
    ensures multiset(SortHops(hops)) == multiset(hops)
    ensures forall h :: h in SortHops(hops) ==> h in hops
  {
    SortCorrect(hops, ByDistance);
    forall h | h in SortHops(hops)
      ensures h in hops
    {
      assert h in multiset(SortHops(hops));
    }
  }

  // Sorting makes the distances strictly increasing and keeps every hop.
  lemma SortHopsOk(hops: seq<Hop>)
    requires HopsOk(hops)
    ensures HopsOk(SortHops(hops)) && StrictlyIncreasing(SortHops(hops))
    ensures multiset(SortHops(hops)) == multiset(hops)
  {
    var out := SortHops(hops);
    SortHopsMembers(hops);
    SortCorrect(hops, ByDistance);
    forall i, j | 0 <= i < j < |out|
      ensures out[i].distance < out[j].distance
    {
      HopsOnce(hops, out[i]);
      assert out[i] in hops && out[j] in hops;
      assert ByDistance(out[i]) <= ByDistance(out[j]);
      if out[i] == out[j] {
        Repeated(out, i, j);
      }
    }
    forall i | 0 <= i < |out|
      ensures NodesOk(out[i].nodes)
    {
      assert out[i] in hops;
    }
  }

  // Any library sort of the collected hops gives this very list.
  lemma AnySortAgrees(rs: seq<Reply>, out: seq<Hop>)
    requires multiset(out) == multiset(Collected(rs)) && Sorted(out, ByDistance)
    ensures out == SortHops(Collected(rs))
  {
    CollectedCorrect(rs);
    SameDistanceSameHop(Collected(rs));
    SortUnique(Collected(rs), out, ByDistance);
  }

  // ---------- the collapse ----------

  lemma CollapseKeepsOrder(hops: seq<Hop>, ip: IP)
    requires StrictlyIncreasing(hops)
    ensures StrictlyIncreasing(Collapse(hops, ip))
    ensures hops != [] ==> Collapse(hops, ip) != [] && Collapse(hops, ip)[0].distance == hops[0].distance
    ensures hops != [] ==> Collapse(hops, ip)[|Collapse(hops, ip)| - 1].distance <= hops[|hops| - 1].distance
  {
    var k := TailStart(hops, ip);
    if 0 < k < |hops| {
      var out := Collapse(hops, ip);
      assert forall i :: 0 <= i < |out| ==> out[i].distance == hops[i].distance;
    }
  }

  lemma CollapseKeepsOk(hops: seq<Hop>, ip: IP)
    requires StrictlyIncreasing(hops) && HopsOk(hops)
    ensures HopsOk(Collapse(hops, ip))
  {
    var k := TailStart(hops, ip);
    CollapseKeepsOrder(hops, ip);
    if 0 < k < |hops| {
      TailRttsNonEmpty(hops[k..]);
    }
  }

  lemma {:induction false} TailRttsNonEmpty(hops: seq<Hop>)
    requires hops != [] && forall i :: 0 <= i < |hops| ==> NodesOk(hops[i].nodes)
    ensures TailRtts(hops) != []
  {
    assert NodesOk(hops[|hops| - 1].nodes);
  }

  // A second pass finds nothing left to fold.
  lemma CollapseIdempotent(hops: seq<Hop>, ip: IP)
    ensures Collapse(Collapse(hops, ip), ip) == Collapse(hops, ip)
  {
    var k, out := TailStart(hops, ip), Collapse(hops, ip);
    if 0 < k < |hops| {
      assert out[..|out| - 1] == hops[..k];
      assert TailStart(hops[..k], ip) == k;
      assert TailStart(out, ip) == k;
      var tail := out[k..];
      assert tail == [out[k]] && tail[..0] == [];
      assert TailRtts(tail[..0]) == [];
      assert TailRtts(tail) == FirstRtts(out[k]);
    }
  }

  // The destination is left in one last hop, unless every hop is destination-only: then the
  // loop runs off the front and a list of two or more such hops stays as it is.
  lemma OneDestinationHopIff(hops: seq<Hop>, ip: IP)
    ensures var out := Collapse(hops, ip);
            (|out| < 2 || !DestinationOnly(out[|out| - 2], ip) || !DestinationOnly(out[|out| - 1], ip))
            <==> !(|hops| >= 2 && forall i :: 0 <= i < |hops| ==> DestinationOnly(hops[i], ip))
  {
  }

  // ---------- conservation ----------

  // All samples with their address, the distance forgotten.
  function Samples(hops: seq<Hop>): multiset<Reply> {
    if hops == [] then multiset{} else Samples(hops[..|hops| - 1]) + NodesReplies(hops[|hops| - 1].nodes, 0)
  }

  lemma {:induction false} SamplesConcat(a: seq<Hop>, b: seq<Hop>)
    ensures Samples(a + b) == Samples(a) + Samples(b)
  {
    if b == [] {
      assert a + b == a;
    } else {
      assert (a + b)[..|a + b| - 1] == a + b[..|b| - 1];
      SamplesConcat(a, b[..|b| - 1]);
    }
  }

  lemma NodeRepliesConcat(ip: IP, a: seq<int>, b: seq<int>)
    ensures NodeReplies(Node(ip, a + b), 0) == NodeReplies(Node(ip, a), 0) + NodeReplies(Node(ip, b), 0)
  {
    LabelledConcat(ip, a, b, 0);
  }

  lemma OneNode(n: Node)
    ensures NodesReplies([n], 0) == NodeReplies(n, 0)
  {
    assert [n][1..] == [];
  }

  lemma {:induction false} TailSamples(hops: seq<Hop>, ip: IP)
    requires forall i :: 0 <= i < |hops| ==> DestinationOnly(hops[i], ip)
    ensures Samples(hops) == NodeReplies(Node(ip, TailRtts(hops)), 0)
  {
    if hops == [] {
    } else {
      var h := hops[|hops| - 1];
      TailSamples(hops[..|hops| - 1], ip);
      assert h.nodes == [h.nodes[0]];
      OneNode(h.nodes[0]);
      NodeRepliesConcat(ip, TailRtts(hops[..|hops| - 1]), FirstRtts(h));
    }
  }

  // Folding the tail loses no RTT sample and moves none to another address.
  lemma CollapseConserves(hops: seq<Hop>, ip: IP)
    ensures Samples(Collapse(hops, ip)) == Samples(hops)
  {
    var k := TailStart(hops, ip);
    if 0 < k < |hops| {
      var front, tail := hops[..k], hops[k..];
      var c := Hop(hops[k].distance, [Node(ip, TailRtts(tail))]);
      assert hops == front + tail;
      SamplesConcat(front, tail);
      SamplesConcat(front, [c]);
      TailSamples(tail, ip);
      OneNode(c.nodes[0]);
      OneHop(c);
    }
  }

  // ---------- the whole of Trace ----------

  function Erased(rs: seq<Reply>): multiset<Reply> {
    if rs == [] then multiset{} else Erased(rs[..|rs| - 1]) + multiset{rs[|rs| - 1].(hops := 0)}
  }

  lemma {:induction false} AddToSamples(nodes: seq<Node>, r: Reply)
    ensures NodesReplies(AddTo(nodes, r), 0) == NodesReplies(nodes, 0) + multiset{r.(hops := 0)}
  {
    AddToIgnoresHops(nodes, r);
    AddToReplies(nodes, r.(hops := 0));
  }

  lemma {:induction false} AddToIgnoresHops(nodes: seq<Node>, r: Reply)
    ensures AddTo(nodes, r.(hops := 0)) == AddTo(nodes, r)
  {
    if nodes == [] {
    } else {
      AddToIgnoresHops(nodes[1..], r);
    }
  }

  lemma {:induction false} RecordSamples(hops: seq<Hop>, r: Reply)
    ensures Samples(Record(hops, r)) == Samples(hops) + multiset{r.(hops := 0)}
  {
    if hops == [] {
      var h := Hop(r.hops, AddTo([], r));
      AddToSamples([], r);
      assert [h][..0] == [];
    } else {
      var h, rest := hops[0], hops[1..];
      assert hops == [h] + rest;
      SamplesConcat([h], rest);
      assert [h][..0] == [];
      if h.distance == r.hops {
        var h' := h.(nodes := AddTo(h.nodes, r));
        AddToSamples(h.nodes, r);
        SamplesConcat([h'], rest);
        assert [h'][..0] == [];
      } else {
        RecordSamples(rest, r);
        SamplesConcat([h], Record(rest, r));
      }
    }
  }

  lemma {:induction false} CollectedSamples(rs: seq<Reply>)
    ensures Samples(Collected(rs)) == Erased(rs)
  {
    if rs == [] {
    } else {
      CollectedSamples(rs[..|rs| - 1]);
      RecordSamples(Collected(rs[..|rs| - 1]), rs[|rs| - 1]);
    }
  }

  lemma OneHop(h: Hop)
    ensures Samples([h]) == NodesReplies(h.nodes, 0)
  {
    assert [h][..0] == [];
  }

  lemma SamplesWithout(x: seq<Hop>, h: Hop, z: seq<Hop>)
    ensures Samples(x + [h] + z) == Samples(x + z) + NodesReplies(h.nodes, 0)
  {
    SamplesConcat(x + [h], z);
    SamplesConcat(x, [h]);
    SamplesConcat(x, z);
    OneHop(h);
  }

  lemma {:induction false} SamplesPermuted(a: seq<Hop>, b: seq<Hop>)
    requires multiset(a) == multiset(b)
    ensures Samples(a) == Samples(b)
  {
    SameLength(a, b);
    if a == [] {
    } else {
      var n := |a| - 1;
      assert a[n] in multiset(b);
      var i :| 0 <= i < |b| && b[i] == a[n];
      var front, rest := a[..n], b[..i] + b[i + 1..];
      CancelOne(a, n, b, i);
      assert a[..n] + a[n + 1..] == front;
      SamplesPermuted(front, rest);
      SamplesWithout(b[..i], b[i], b[i + 1..]);
      SplitAt(b, i);
    }
  }

  // Trace returns every RTT of every reply under the address that sent it, once; its hops are
  // non-empty, with distinct addresses, in strictly increasing distance.
  lemma TraceResultCorrect(rs: seq<Reply>, ip: IP)
    ensures Samples(TraceResult(rs, ip)) == Erased(rs)
    ensures HopsOk(TraceResult(rs, ip)) && StrictlyIncreasing(TraceResult(rs, ip))
  {
    var hops := Collected(rs);
    CollectedCorrect(rs);
    SortHopsOk(hops);
    CollapseKeepsOrder(SortHops(hops), ip);
    CollapseKeepsOk(SortHops(hops), ip);
    CollapseConserves(SortHops(hops), ip);
    SamplesPermuted(SortHops(hops), hops);
    CollectedSamples(rs);
  }

  // ---------- what each hop of the result holds ----------

  lemma {:induction false} FoundAt(hops: seq<Hop>, i: nat, ip: IP)
    requires HopsOk(hops) && i < |hops|
    ensures Found(hops, hops[i].distance, ip) == RttsAt(hops[i].nodes, ip)
  {
    if i == 0 {
    } else {
      assert hops[1..][i - 1] == hops[i];
      FoundAt(hops[1..], i - 1, ip);
    }
  }

  lemma {:induction false} FoundNowhere(hops: seq<Hop>, d: int, ip: IP)
    requires forall i :: 0 <= i < |hops| ==> hops[i].distance != d
    ensures Found(hops, d, ip) == []
  {
    if hops == [] {
    } else {
      FoundNowhere(hops[1..], d, ip);
    }
  }

  // Sorting moves hops but changes nothing that is found at a distance.
  lemma SortKeepsFound(hops: seq<Hop>, d: int, ip: IP)
    requires HopsOk(hops)
    ensures Found(SortHops(hops), d, ip) == Found(hops, d, ip)
  {
    var out := SortHops(hops);
    SortHopsOk(hops);
    if i :| 0 <= i < |out| && out[i].distance == d {
      assert out[i] in multiset(hops);
      var j :| 0 <= j < |hops| && hops[j] == out[i];
      FoundAt(out, i, ip);
      FoundAt(hops, j, ip);
    } else {
      forall j | 0 <= j < |hops|
        ensures hops[j].distance != d
      {
        assert hops[j] in multiset(out);
      }
      FoundNowhere(out, d, ip);
      FoundNowhere(hops, d, ip);
    }
  }

  // The RTTs of one address over a range of distances, nearest first.
  function RttsBetween(rs: seq<Reply>, ip: IP, lo: int, hi: int): seq<int>
    decreases hi - lo
  {
    if hi < lo then [] else RttsBetween(rs, ip, lo, hi - 1) + RttsOf(rs, hi, ip)
  }

  lemma {:induction false} NothingBetween(rs: seq<Reply>, ip: IP, lo: int, mid: int, hi: int)
    requires lo - 1 <= mid <= hi && forall d :: mid < d <= hi ==> RttsOf(rs, d, ip) == []
    ensures RttsBetween(rs, ip, lo, hi) == RttsBetween(rs, ip, lo, mid)
    decreases hi - mid
  {
    if mid < hi {
      NothingBetween(rs, ip, lo, mid, hi - 1);
      assert RttsOf(rs, hi, ip) == [];
    }
  }

  lemma FoundBetween(hops: seq<Hop>, i: nat, d: int, ip: IP)
    requires StrictlyIncreasing(hops) && i + 1 < |hops| && hops[i].distance < d < hops[i + 1].distance
    ensures Found(hops, d, ip) == []
  {
    forall j | 0 <= j < |hops|
      ensures hops[j].distance != d
    {
      assert j < i || j == i || j == i + 1 || i + 1 < j;
    }
    FoundNowhere(hops, d, ip);
  }

  // Each hop holds its distance's RTTs, and the distances in between have none.
  ghost predicate HoldsExactly(hops: seq<Hop>, rs: seq<Reply>, ip: IP) {
    && (forall i :: 0 <= i < |hops| ==> FirstRtts(hops[i]) == RttsOf(rs, hops[i].distance, ip))
    && (forall i, d :: 0 <= i < |hops| - 1 && hops[i].distance < d < hops[i + 1].distance ==> RttsOf(rs, d, ip) == [])
  }

  lemma TailRttsStep(hops: seq<Hop>, n: nat)
    requires 1 <= n <= |hops|
    ensures TailRtts(hops[..n]) == TailRtts(hops[..n - 1]) + FirstRtts(hops[n - 1])
  {
    assert hops[..n][..n - 1] == hops[..n - 1];
  }

  lemma OneHolds(hops: seq<Hop>, rs: seq<Reply>, ip: IP)
    requires hops != [] && FirstRtts(hops[0]) == RttsOf(rs, hops[0].distance, ip)
    ensures TailRtts(hops[..1]) == RttsBetween(rs, ip, hops[0].distance, hops[0].distance)
  {
    var lo := hops[0].distance;
    TailRttsStep(hops, 1);
    assert hops[..0] == [];
    assert RttsBetween(rs, ip, lo, lo - 1) == [];
  }

  // The next hop adds its distance's RTTs; the distances skipped have none.
  lemma BetweenStep(rs: seq<Reply>, ip: IP, lo: int, mid: int, hi: int)
    requires lo <= mid < hi && forall d :: mid < d < hi ==> RttsOf(rs, d, ip) == []
    ensures RttsBetween(rs, ip, lo, hi) == RttsBetween(rs, ip, lo, mid) + RttsOf(rs, hi, ip)
  {
    NothingBetween(rs, ip, lo, mid, hi - 1);
  }

  lemma TailHoldsStep(hops: seq<Hop>, n: nat, rs: seq<Reply>, ip: IP)
    requires HoldsExactly(hops, rs, ip) && StrictlyIncreasing(hops) && 2 <= n <= |hops|
    requires hops[0].distance <= hops[n - 2].distance
    requires TailRtts(hops[..n - 1]) == RttsBetween(rs, ip, hops[0].distance, hops[n - 2].distance)
    ensures TailRtts(hops[..n]) == RttsBetween(rs, ip, hops[0].distance, hops[n - 1].distance)
  {
    TailRttsStep(hops, n);
    forall d | hops[n - 2].distance < d < hops[n - 1].distance
      ensures RttsOf(rs, d, ip) == []
    {
      assert hops[n - 2].distance < d < hops[(n - 2) + 1].distance;
    }
    BetweenStep(rs, ip, hops[0].distance, hops[n - 2].distance, hops[n - 1].distance);
  }

  lemma {:induction false} TailHolds(hops: seq<Hop>, n: nat, rs: seq<Reply>, ip: IP)
    requires HoldsExactly(hops, rs, ip) && StrictlyIncreasing(hops) && 1 <= n <= |hops|
    ensures hops[0].distance <= hops[n - 1].distance
    ensures TailRtts(hops[..n]) == RttsBetween(rs, ip, hops[0].distance, hops[n - 1].distance)
  {
    if n == 1 {
      OneHolds(hops, rs, ip);
    } else {
      TailHolds(hops, n - 1, rs, ip);
      TailHoldsStep(hops, n, rs, ip);
    }
  }

  lemma WholeTailHolds(tail: seq<Hop>, rs: seq<Reply>, ip: IP)
    requires HoldsExactly(tail, rs, ip) && StrictlyIncreasing(tail) && tail != []
    ensures TailRtts(tail) == RttsBetween(rs, ip, tail[0].distance, tail[|tail| - 1].distance)
  {
    TailHolds(tail, |tail|, rs, ip);
    assert tail[..|tail|] == tail;
  }

  lemma SuffixHolds(hops: seq<Hop>, k: nat, rs: seq<Reply>, ip: IP)
    requires HopsOk(hops) && StrictlyIncreasing(hops) && k < |hops|
    requires forall i :: k <= i < |hops| ==> DestinationOnly(hops[i], ip)
    requires forall d :: Found(hops, d, ip) == RttsOf(rs, d, ip)
    ensures HoldsExactly(hops[k..], rs, ip)
  {
    var tail := hops[k..];
    forall i | 0 <= i < |tail|
      ensures FirstRtts(tail[i]) == RttsOf(rs, tail[i].distance, ip)
    {
      FoundAt(hops, k + i, ip);
    }
    forall i, d | 0 <= i < |tail| - 1 && tail[i].distance < d < tail[i + 1].distance
      ensures RttsOf(rs, d, ip) == []
    {
      FoundBetween(hops, k + i, d, ip);
    }
  }

  lemma CollapseHolds(hops: seq<Hop>, rs: seq<Reply>, ip: IP)
    requires HopsOk(hops) && StrictlyIncreasing(hops)
    requires forall d :: Found(hops, d, ip) == RttsOf(rs, d, ip)
    ensures var k := TailStart(hops, ip);
            0 < k < |hops| ==>
              TailRtts(hops[k..]) == RttsBetween(rs, ip, hops[k].distance, hops[|hops| - 1].distance)
  {
    var k := TailStart(hops, ip);
    if 0 < k < |hops| {
      SuffixHolds(hops, k, rs, ip);
      WholeTailHolds(hops[k..], rs, ip);
    }
  }

  // Sorted, every hop holds exactly the replies from its distance, and nothing else is held.
  lemma SortedHolds(rs: seq<Reply>)
    ensures forall d, a :: Found(SortHops(Collected(rs)), d, a) == RttsOf(rs, d, a)
  {
    CollectedCorrect(rs);
    forall d, a
      ensures Found(SortHops(Collected(rs)), d, a) == RttsOf(rs, d, a)
    {
      SortKeepsFound(Collected(rs), d, a);
    }
  }

  // The folded hop holds all of the destination's RTTs from its own distance to the last one,
  // nearest first; the hops before it are as they were.
  lemma TraceResultHolds(rs: seq<Reply>, ip: IP)
    ensures var hops := SortHops(Collected(rs));
            var k := TailStart(hops, ip);
            TraceResult(rs, ip) ==
              if 0 < k < |hops| then
                hops[..k] + [Hop(hops[k].distance,
                                 [Node(ip, RttsBetween(rs, ip, hops[k].distance, hops[|hops| - 1].distance))])]
              else hops
  {
    CollectedCorrect(rs);
    SortHopsOk(Collected(rs));
    SortedHolds(rs);
    CollapseHolds(SortHops(Collected(rs)), rs, ip);
  }
}
