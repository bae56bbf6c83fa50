/** The per-distance result array of traceIP (measure/trace.go), and why every reply sequence
    the tracer can emit is rendered without an index or division fault. */
module Render {
  import opened Probes
  import opened Hops
  import opened TailCollapse
  import opened Wrappers
  import TraceRun
  import TraceTheorems

  // A line of the report: no answer, or the last node listed at that distance with its mean RTT in ms.
  datatype Slot = Star(distance: int) | Shown(distance: int, ip: IP, rtt: real)

  function Total(rtts: seq<int>): int {
    if rtts == [] then 0 else Total(rtts[..|rtts| - 1]) + rtts[|rtts| - 1]
  }

  // Nanoseconds to milliseconds, averaged.
  function MeanMs(rtts: seq<int>): real
    requires rtts != []
  {
    Total(rtts) as real / 1000000.0 / |rtts| as real
  }

  lemma {:induction false} TotalConcat(a: seq<int>, b: seq<int>)
    ensures Total(a + b) == Total(a) + Total(b)
  {
    if b == [] {
      assert a + b == a;
    } else {
      TotalConcat(a, b[..|b| - 1]);
      assert (a + b)[..|a + b| - 1] == a + b[..|b| - 1];
    }
  }

  // A million nanoseconds are a millisecond, and a mean weighs its parts by their lengths.
  lemma MeanLaws(a: seq<int>, b: seq<int>, x: int)
    requires a != [] && b != []
    ensures MeanMs([x]) * 1000000.0 == x as real
    ensures MeanMs(a + b) * |a + b| as real == MeanMs(a) * |a| as real + MeanMs(b) * |b| as real
  {
    assert Total([x][..0]) == 0 && Total([x]) == x;
    MeanTimesCount([x]);
    TotalConcat(a, b);
    MeanTimesCount(a);
    MeanTimesCount(b);
    MeanTimesCount(a + b);
  }

  lemma MeanTimesCount(a: seq<int>)
    requires a != []
    ensures MeanMs(a) * |a| as real == Total(a) as real / 1000000.0
  {
  }

  method Mean(rtts: seq<int>) returns (rtt: real)
    requires rtts != []
    ensures rtt == MeanMs(rtts)
  {
    rtt := 0.0;
    for i := 0 to |rtts|
      invariant rtt == Total(rtts[..i]) as real / 1000000.0
    {
      assert rtts[..i + 1][..i] == rtts[..i];
      rtt := rtt + rtts[i] as real / 1000000.0;
    }
    assert rtts[..|rtts|] == rtts;
    rtt := rtt / |rtts| as real;
  }

  // What traceIP needs of the hop list it is given.
  ghost predicate Renderable(output: seq<Hop>) {
    HopsOk(output) && StrictlyIncreasing(output) && (output != [] ==> 1 <= output[0].distance)
  }

  ghost predicate ShowsLast(slot: Slot, h: Hop)
    requires NodesOk(h.nodes)
  {
    var n := h.nodes[|h.nodes| - 1];
    slot == Shown(h.distance, n.ip, MeanMs(n.rtts))
  }

  ghost predicate ShowsAll(slots: seq<Slot>, hops: seq<Hop>) {
    forall i :: 0 <= i < |hops| ==>
      NodesOk(hops[i].nodes) && 1 <= hops[i].distance <= |slots| && ShowsLast(slots[hops[i].distance - 1], hops[i])
  }

  ghost predicate StarsElsewhere(slots: seq<Slot>, hops: seq<Hop>) {
    forall d :: 1 <= d <= |slots| && (forall i :: 0 <= i < |hops| ==> hops[i].distance != d) ==> slots[d - 1] == Star(d)
  }

  ghost predicate StarsExactlyElsewhere(slots: seq<Slot>, hops: seq<Hop>) {
    forall d :: 1 <= d <= |slots| ==>
      (slots[d - 1] == Star(d) <==> forall i :: 0 <= i < |hops| ==> hops[i].distance != d)
  }

  // A slot stays a star exactly when no hop has its distance; otherwise it shows the hop's last node.
  method Render(output: seq<Hop>) returns (result: Option<array<Slot>>)
    requires Renderable(output)
    ensures result.None? <==> output == []
    ensures result.Some? ==>
      && result.value.Length == output[|output| - 1].distance
      && ShowsAll(result.value[..], output)
      && StarsExactlyElsewhere(result.value[..], output)
  {
    if output == [] {
      return None;
    }
    var last := output[|output| - 1];
    var a := new Slot[last.distance](k => Star(k + 1));
    RenderAll(a, output);
    ShownNotStar(a[..], output);
    result := Some(a);
  }

  // The loop over the hops.
  method RenderAll(a: array<Slot>, output: seq<Hop>)
    requires Renderable(output) && output != [] && a.Length == output[|output| - 1].distance
    requires forall k :: 0 <= k < a.Length ==> a[k] == Star(k + 1)
    modifies a
    ensures ShowsAll(a[..], output) && StarsElsewhere(a[..], output)
  {
    for i := 0 to |output|
      invariant ShowsAll(a[..], output[..i])
      invariant StarsElsewhere(a[..], output[..i])
    {
      ghost var was := a[..];
      assert 1 <= output[i].distance <= a.Length;
      RenderHop(a, output[i]);
      OneMoreHop(was, a[..], output, i);
    }
    assert output[..|output|] == output;
  }

  lemma ShownNotStar(slots: seq<Slot>, hops: seq<Hop>)
    requires ShowsAll(slots, hops) && StarsElsewhere(slots, hops)
    ensures StarsExactlyElsewhere(slots, hops)
  {
  }

  lemma OneMoreHop(was: seq<Slot>, slots: seq<Slot>, output: seq<Hop>, i: nat)
    requires StrictlyIncreasing(output) && i < |output| && NodesOk(output[i].nodes)
    requires |was| == |slots| && 1 <= output[i].distance <= |slots|
    requires ShowsAll(was, output[..i]) && StarsElsewhere(was, output[..i])
    requires ShowsLast(slots[output[i].distance - 1], output[i])
    requires forall k :: 0 <= k < |slots| && k != output[i].distance - 1 ==> slots[k] == was[k]
    ensures ShowsAll(slots, output[..i + 1]) && StarsElsewhere(slots, output[..i + 1])
  {
    var hops := output[..i + 1];
    forall k | 0 <= k < |hops|
      ensures NodesOk(hops[k].nodes) && 1 <= hops[k].distance <= |slots|
      ensures ShowsLast(slots[hops[k].distance - 1], hops[k])
    {
      if k < i {
        assert output[..i][k] == hops[k] && hops[k].distance < output[i].distance;
      }
    }
    forall d | 1 <= d <= |slots| && forall k :: 0 <= k < |hops| ==> hops[k].distance != d
      ensures slots[d - 1] == Star(d)
    {
      assert hops[i].distance != d;
      assert forall k :: 0 <= k < i ==> output[..i][k] == hops[k];
    }
  }

  // The inner loops: each node of the hop overwrites the one before it.
  method RenderHop(a: array<Slot>, h: Hop)
    requires NodesOk(h.nodes) && 1 <= h.distance <= a.Length
    modifies a
    ensures ShowsLast(a[h.distance - 1], h)
    ensures forall k :: 0 <= k < a.Length && k != h.distance - 1 ==> a[k] == old(a[k])
  {
    for j := 0 to |h.nodes|
      invariant j > 0 ==> a[h.distance - 1] == Shown(h.distance, h.nodes[j - 1].ip, MeanMs(h.nodes[j - 1].rtts))
      invariant forall k :: 0 <= k < a.Length && k != h.distance - 1 ==> a[k] == old(a[k])
    {
      var rtt := Mean(h.nodes[j].rtts);
      a[h.distance - 1] := Shown(h.distance, h.nodes[j].ip, rtt);
    }
  }

  lemma {:induction false} CollectedDistances(rs: seq<Reply>, h: Hop)
    requires h in Collected(rs)
    ensures exists r :: r in rs && r.hops == h.distance
  {
    var front, r := rs[..|rs| - 1], rs[|rs| - 1];
    CollectedCorrect(front);
    RecordOk(Collected(front), r);
    if h.distance == r.hops {
      assert r in rs;
    } else {
      CollectedDistances(front, h);
    }
  }

  lemma DistancesWithin(rs: seq<Reply>, lo: int, hi: int)
    requires forall r :: r in rs ==> lo <= r.hops <= hi
    ensures forall h :: h in SortHops(Collected(rs)) ==> lo <= h.distance <= hi
  {
    SortHopsMembers(Collected(rs));
    forall h | h in SortHops(Collected(rs))
      ensures lo <= h.distance <= hi
    {
      CollectedDistances(rs, h);
    }
  }

  // Whatever replies with hop counts between 1 and hi arrive, the result can be rendered.
  lemma ResultRenderable(rs: seq<Reply>, ip: IP, hi: int)
    requires forall r :: r in rs ==> 1 <= r.hops <= hi
    ensures Renderable(TraceResult(rs, ip))
    ensures TraceResult(rs, ip) != [] ==> TraceResult(rs, ip)[|TraceResult(rs, ip)| - 1].distance <= hi
  {
    var hops := SortHops(Collected(rs));
    CollectedCorrect(rs);
    SortHopsOk(Collected(rs));
    DistancesWithin(rs, 1, hi);
    CollapseKeepsOrder(hops, ip);
    CollapseKeepsOk(hops, ip);
    assert hops == [] ==> TailStart(hops, ip) == 0;
  }

  // At every moment of every run of a session, the replies handed on so far render, in an array
  // of at most MaxHops + 1 slots.
  lemma PipelineTotal(cfg: TraceRun.Config, l: TraceRun.Local)
    requires TraceRun.Reachable(cfg, l)
    ensures var out := TraceResult(l.s.delivered, l.ip);
            Renderable(out) && (out != [] ==> out[|out| - 1].distance <= cfg.maxHops + 1)
  {
    forall r | r in l.s.delivered
      ensures 1 <= r.hops <= cfg.maxHops + 1
    {
      TraceTheorems.DeliveredHops(cfg, l, r);
    }
    ResultRenderable(l.s.delivered, l.ip, cfg.maxHops + 1);
  }
}
