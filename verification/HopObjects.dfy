/** Hops as the objects that Trace mutates in place (traceroute/tracer.go): Hop.Add appends to
    a node found by a scan, the callback appends to the hop list, and the tail collapse
    appends to the first hop of the tail. */
module HopObjects {
  import opened Probes
  import opened Sorting
  import opened Wrappers
  import V = Hops
  import TailCollapse

  class Hop {
    const distance: int
    var nodes: seq<V.Node>

    constructor (distance: int)
      ensures this.distance == distance && nodes == []
    {
      this.distance := distance;
      nodes := [];
    }

    function View(): V.Hop
      reads this
    {
      V.Hop(distance, nodes)
    }

    // Returns where the reply went: the first node with its address.
    method Add(r: Reply) returns (i: nat)
      modifies this`nodes
      ensures View() == V.Hop(distance, V.AddTo(old(nodes), r))
      ensures i < |nodes| && nodes[i].ip == r.ip && nodes[i].rtts != [] && nodes[i].rtts[|nodes[i].rtts| - 1] == r.rtt
      ensures forall k :: 0 <= k < i ==> nodes[k].ip != r.ip
    {
      i := 0;
      while i < |nodes| && nodes[i].ip != r.ip
        invariant 0 <= i <= |nodes|
        invariant forall k :: 0 <= k < i ==> nodes[k].ip != r.ip
      {
        i := i + 1;
      }
      AddAt(nodes, i, r);
      if i == |nodes| {
        nodes := nodes + [V.Node(r.ip, [])];
      }
      assert [] + [r.rtt] == [r.rtt];
      nodes := nodes[i := V.Node(r.ip, nodes[i].rtts + [r.rtt])];
    }
  }

  // The scan that stops at i touches just that entry, or adds one at the end.
  lemma {:induction false} AddAt(nodes: seq<V.Node>, i: nat, r: Reply)
    requires i <= |nodes| && (forall k :: 0 <= k < i ==> nodes[k].ip != r.ip)
    requires i < |nodes| ==> nodes[i].ip == r.ip
    ensures V.AddTo(nodes, r) ==
            if i == |nodes| then nodes + [V.Node(r.ip, [r.rtt])]
            else nodes[i := V.Node(r.ip, nodes[i].rtts + [r.rtt])]
  {
    if i == 0 {
    } else {
      AddAt(nodes[1..], i - 1, r);
    }
  }

  lemma {:induction false} RecordAt(hops: seq<V.Hop>, i: nat, r: Reply)
    requires i <= |hops| && (forall k :: 0 <= k < i ==> hops[k].distance != r.hops)
    requires i < |hops| ==> hops[i].distance == r.hops
    ensures V.Record(hops, r) ==
            if i == |hops| then hops + [V.Hop(r.hops, V.AddTo([], r))]
            else hops[i := V.Hop(r.hops, V.AddTo(hops[i].nodes, r))]
  {
    if i == 0 {
    } else {
      RecordAt(hops[1..], i - 1, r);
    }
  }

  ghost predicate NoRepeats<T>(s: seq<T>) {
    forall i, j :: 0 <= i < j < |s| ==> s[i] != s[j]
  }

  ghost function Views(hs: seq<Hop>): (v: seq<V.Hop>)
    reads hs
    ensures |v| == |hs|
    ensures forall i :: 0 <= i < |hs| ==> v[i] == hs[i].View()
  {
    seq(|hs|, i requires 0 <= i < |hs| reads hs => hs[i].View())
  }

  // The hop list of one call of Trace.
  class Trail {
    var hops: seq<Hop>

    constructor ()
      ensures hops == []
    {
      hops := [];
    }

    ghost predicate Valid()
      reads this
    {
      NoRepeats(hops)
    }

    ghost function View(): (v: seq<V.Hop>)
      reads this, hops
      ensures |v| == |hops| && forall i :: 0 <= i < |hops| ==> v[i] == hops[i].View()
    {
      Views(hops)
    }

    // The scan for the hop at a distance.
    method Find(dist: int) returns (i: nat)
      ensures i <= |hops| && (i < |hops| ==> hops[i].distance == dist)
      ensures forall k :: 0 <= k < i ==> hops[k].distance != dist
    {
      i := 0;
      while i < |hops| && hops[i].distance != dist
        invariant i <= |hops|
        invariant forall k :: 0 <= k < i ==> hops[k].distance != dist
      {
        i := i + 1;
      }
    }

    // The callback Trace passes to Tracer.Trace: find or make the hop, then add to it.
    method Record(r: Reply)
      requires Valid()
      modifies this, hops
      ensures Valid() && View() == V.Record(old(View()), r)
      ensures forall i :: 0 <= i < |hops| ==> hops[i] in old(hops) || fresh(hops[i])
    {
      ghost var was := View();
      var i := Find(r.hops);
      RecordAt(was, i, r);
      if i == |hops| {
        var h := new Hop(r.hops);
        hops := hops + [h];
      }
      var h := hops[i];
      var _ := h.Add(r);
      assert forall k :: 0 <= k < |was| && k != i ==> hops[k] != h && hops[k].View() == was[k];
    }

    // The library sort moves the pointers.
    method SortByDistance()
      requires Valid()
      modifies this
      ensures Valid() && View() == TailCollapse.SortHops(old(View()))
      ensures forall i :: 0 <= i < |hops| ==> hops[i] in old(hops)
    {
      SortViews(hops);
      SortCorrect(hops, ObjectDistance);
      SameMembers(hops, Sort(hops, ObjectDistance));
      hops := Sort(hops, ObjectDistance);
    }

    // The scan from the back: where the destination-only tail begins.
    method FindTail(ip: IP) returns (k: nat)
      ensures k == TailCollapse.TailStart(View(), ip)
    {
      ghost var view := View();
      k := |hops|;
      while k > 0 && |hops[k - 1].nodes| == 1 && hops[k - 1].nodes[0].ip == ip
        invariant k <= |hops|
        invariant forall m :: k <= m < |hops| ==> TailCollapse.DestinationOnly(view[m], ip)
      {
        k := k - 1;
      }
      assert k > 0 ==> !TailCollapse.DestinationOnly(view[k - 1], ip);
    }

    // The RTTs of the first nodes from hop k on, in order.
    method GatherTail(k: nat) returns (rtts: seq<int>)
      requires k < |hops| && forall m :: k <= m < |hops| ==> hops[m].nodes != []
      ensures rtts == Gathered(View(), k, |hops|)
    {
      ghost var view := View();
      assert forall j :: k <= j < |hops| ==> TailCollapse.FirstRtts(view[j]) == hops[j].nodes[0].rtts;
      rtts := hops[k].nodes[0].rtts;
      GatheredFirst(view, k);
      for j := k + 1 to |hops|
        invariant rtts == Gathered(view, k, j)
      {
        rtts := rtts + hops[j].nodes[0].rtts;
      }
    }

    // Gives hop k its new node and drops the hops after it.
    method ReplaceAndCut(k: nat, node: V.Node)
      requires Valid() && k < |hops|
      modifies this, hops[k]
      ensures Valid() && View() == old(View())[..k] + [V.Hop(old(View())[k].distance, [node])]
    {
      ghost var was, hs := View(), hops;
      hops[k].nodes := [node];
      forall m | 0 <= m < k
        ensures hs[m].View() == was[m]
      {
        assert hs[m] != hs[k];
      }
      hops := hops[..k + 1];
    }

    // Folds the trailing destination-only hops into the first of them, in place.
    method CollapseTail(ip: IP)
      requires Valid()
      modifies this, hops
      ensures Valid() && View() == TailCollapse.Collapse(old(View()), ip)
    {
      ghost var was := View();
      var k := FindTail(ip);
      if 0 < k < |hops| {
        assert forall m :: k <= m < |hops| ==> TailCollapse.DestinationOnly(was[m], ip);
        var rtts := GatherTail(k);
        WholeTail(was, k);
        ReplaceAndCut(k, V.Node(hops[k].nodes[0].ip, rtts));
      }
    }
  }

  function Gathered(hops: seq<V.Hop>, k: nat, j: nat): seq<int>
    requires k <= j <= |hops|
  {
    if j == k then [] else Gathered(hops, k, j - 1) + TailCollapse.FirstRtts(hops[j - 1])
  }

  lemma GatheredFirst(hops: seq<V.Hop>, k: nat)
    requires k < |hops|
    ensures Gathered(hops, k, k + 1) == TailCollapse.FirstRtts(hops[k])
  {
    assert [] + TailCollapse.FirstRtts(hops[k]) == TailCollapse.FirstRtts(hops[k]);
  }

  lemma TailRttsStep(hops: seq<V.Hop>, k: nat, j: nat)
    requires k < j <= |hops|
    ensures TailCollapse.TailRtts(hops[k..j])
            == TailCollapse.TailRtts(hops[k..j - 1]) + TailCollapse.FirstRtts(hops[j - 1])
  {
    assert hops[k..j][..j - k - 1] == hops[k..j - 1];
  }

  lemma EmptyPart(hops: seq<V.Hop>, k: nat)
    requires k <= |hops|
    ensures TailCollapse.TailRtts(hops[k..k]) == []
  {
  }

  lemma GatheredStep(hops: seq<V.Hop>, k: nat, j: nat)
    requires k < j <= |hops| && Gathered(hops, k, j - 1) == TailCollapse.TailRtts(hops[k..j - 1])
    ensures Gathered(hops, k, j) == TailCollapse.TailRtts(hops[k..j])
  {
    TailRttsStep(hops, k, j);
  }

  lemma {:induction false} GatheredIsTail(hops: seq<V.Hop>, k: nat, j: nat)
    requires k <= j <= |hops|
    ensures Gathered(hops, k, j) == TailCollapse.TailRtts(hops[k..j])
  {
    if k == j {
      EmptyPart(hops, k);
    } else {
      GatheredIsTail(hops, k, j - 1);
      GatheredStep(hops, k, j);
    }
  }

  lemma WholeTail(hops: seq<V.Hop>, k: nat)
    requires k <= |hops|
    ensures Gathered(hops, k, |hops|) == TailCollapse.TailRtts(hops[k..])
  {
    assert hops[k..] == hops[k..|hops|];
    GatheredIsTail(hops, k, |hops|);
  }

  function ObjectDistance(h: Hop): real {
    h.distance as real
  }

  // Insertion moves the objects just as it moves what they stand for.
  lemma {:induction false} InsertViews(x: Hop, hs: seq<Hop>)
    ensures Views(Insert(x, hs, ObjectDistance)) == Insert(x.View(), Views(hs), TailCollapse.ByDistance)
  {
    if hs == [] || ObjectDistance(x) <= ObjectDistance(hs[0]) {
      assert Views([x] + hs) == [x.View()] + Views(hs);
    } else {
      var rest := Insert(x, hs[1..], ObjectDistance);
      InsertViews(x, hs[1..]);
      assert Views(hs[1..]) == Views(hs)[1..];
      assert Views([hs[0]] + rest) == [hs[0].View()] + Views(rest);
    }
  }

  lemma {:induction false} SortViews(hs: seq<Hop>)
    ensures Views(Sort(hs, ObjectDistance)) == TailCollapse.SortHops(Views(hs))
  {
    if hs == [] {
    } else {
      SortViews(hs[1..]);
      InsertViews(hs[0], Sort(hs[1..], ObjectDistance));
      assert Views(hs[1..]) == Views(hs)[1..];
    }
  }

  lemma {:induction false} RepeatsCount<T>(s: seq<T>, x: T)
    requires NoRepeats(s)
    ensures multiset(s)[x] <= 1
  {
    if s == [] {
    } else {
      RepeatsCount(s[1..], x);
      TailMultiset(s);
    }
  }

  // A permutation has the same members and repeats none either.
  lemma SameMembers<T>(s: seq<T>, t: seq<T>)
    requires multiset(s) == multiset(t) && NoRepeats(s)
    ensures NoRepeats(t) && forall x :: x in t <==> x in s
  {
    forall x
      ensures x in t <==> x in s
    {
      assert x in multiset(s) <==> x in multiset(t);
    }
    forall i, j | 0 <= i < j < |t|
      ensures t[i] != t[j]
    {
      RepeatsCount(s, t[i]);
      assert t == t[..i] + [t[i]] + t[i + 1..j] + [t[j]] + t[j + 1..];
    }
  }

  datatype TraceError = DeadlineExceeded | OtherError

  // The package-level Trace, given the replies its callback received and the error Tracer.Trace
  // ended with: any error but a deadline means that no hops are returned.
  method Trace(ip: IP, replies: seq<Reply>, err: Option<TraceError>) returns (result: Option<Trail>)
    ensures result.None? <==> err == Some(OtherError)
    ensures result.Some? ==> fresh(result.value) && result.value.Valid()
    ensures result.Some? ==> result.value.View() == TailCollapse.TraceResult(replies, ip)
  {
    var trail := new Trail();
    for i := 0 to |replies|
      invariant fresh(trail) && trail.Valid()
      invariant forall k :: 0 <= k < |trail.hops| ==> fresh(trail.hops[k])
      invariant trail.View() == V.Collected(replies[..i])
    {
      assert replies[..i + 1][..i] == replies[..i];
      trail.Record(replies[i]);
    }
    assert replies[..|replies|] == replies;
    if err == Some(OtherError) {
      return None;
    }
    trail.SortByDistance();
    trail.CollapseTail(ip);
    result := Some(trail);
  }
}
