/** Replies grouped into hops, sorted, and the destination's tail collapsed: the values that
    the package-level Trace computes (traceroute/tracer.go), and what they mean. */
module Hops {
  import opened Probes
  import opened Sorting

  datatype Node = Node(ip: IP, rtts: seq<int>)

  datatype Hop = Hop(distance: int, nodes: seq<Node>)

  // Hop.Add: the first node with the reply's address, or a new one at the end.
  function AddTo(nodes: seq<Node>, r: Reply): seq<Node> {
    if nodes == [] then [Node(r.ip, [r.rtt])]
    else if nodes[0].ip == r.ip then [nodes[0].(rtts := nodes[0].rtts + [r.rtt])] + nodes[1..]
    else [nodes[0]] + AddTo(nodes[1..], r)
  }

  // Trace's callback: the first hop at the reply's distance, or a new one at the end.
  function Record(hops: seq<Hop>, r: Reply): seq<Hop> {
    if hops == [] then [Hop(r.hops, AddTo([], r))]
    else if hops[0].distance == r.hops then [hops[0].(nodes := AddTo(hops[0].nodes, r))] + hops[1..]
    else [hops[0]] + Record(hops[1..], r)
  }

  function Collected(rs: seq<Reply>): seq<Hop> {
    if rs == [] then [] else Record(Collected(rs[..|rs| - 1]), rs[|rs| - 1])
  }

  // ---------- what a hop list says ----------

  function RttsAt(nodes: seq<Node>, ip: IP): seq<int> {
    if nodes == [] then []
    else if nodes[0].ip == ip then nodes[0].rtts
    else RttsAt(nodes[1..], ip)
  }

  function Found(hops: seq<Hop>, d: int, ip: IP): seq<int> {
    if hops == [] then []
    else if hops[0].distance == d then RttsAt(hops[0].nodes, ip)
    else Found(hops[1..], d, ip)
  }

  // The reference: the RTTs of the replies from an address at a distance, in arrival order.
  function RttsOf(rs: seq<Reply>, d: int, ip: IP): seq<int> {
    if rs == [] then []
    else
      var front, r := RttsOf(rs[..|rs| - 1], d, ip), rs[|rs| - 1];
      if r.hops == d && r.ip == ip then front + [r.rtt] else front
  }

  ghost predicate NodesOk(nodes: seq<Node>) {
    && nodes != []
    && (forall i :: 0 <= i < |nodes| ==> nodes[i].rtts != [])
    && (forall i, j :: 0 <= i < j < |nodes| ==> nodes[i].ip != nodes[j].ip)
  }

  ghost predicate HopsOk(hops: seq<Hop>) {
    && (forall i :: 0 <= i < |hops| ==> NodesOk(hops[i].nodes))
    && (forall i, j :: 0 <= i < j < |hops| ==> hops[i].distance != hops[j].distance)
  }

  lemma {:induction false} AddToRtts(nodes: seq<Node>, r: Reply, ip: IP)
    ensures RttsAt(AddTo(nodes, r), ip) == RttsAt(nodes, ip) + if ip == r.ip then [r.rtt] else []
  {
    if nodes == [] {
      assert AddTo(nodes, r)[1..] == [];
    } else if nodes[0].ip == r.ip {
      assert AddTo(nodes, r)[1..] == nodes[1..];
    } else {
      AddToRtts(nodes[1..], r, ip);
      assert ([nodes[0]] + AddTo(nodes[1..], r))[1..] == AddTo(nodes[1..], r);
    }
  }

  lemma {:induction false} AddToOk(nodes: seq<Node>, r: Reply)
    requires nodes == [] || NodesOk(nodes)
    ensures NodesOk(AddTo(nodes, r))
    ensures forall n :: n in AddTo(nodes, r) ==> n.ip == r.ip || n in nodes
    ensures forall ip :: RttsAt(AddTo(nodes, r), ip) == RttsAt(nodes, ip) + if ip == r.ip then [r.rtt] else []
  {
    forall ip
      ensures RttsAt(AddTo(nodes, r), ip) == RttsAt(nodes, ip) + if ip == r.ip then [r.rtt] else []
    {
      AddToRtts(nodes, r, ip);
    }
    if nodes != [] && nodes[0].ip != r.ip {
      var rest := AddTo(nodes[1..], r);
      AddToOk(nodes[1..], r);
      forall i | 0 <= i < |rest|
        ensures rest[i].ip != nodes[0].ip
      {
        assert rest[i] in rest;
      }
    }
  }

  lemma {:induction false} RecordOk(hops: seq<Hop>, r: Reply)
    requires HopsOk(hops)
    ensures HopsOk(Record(hops, r))
    ensures forall h :: h in Record(hops, r) ==> h.distance == r.hops || h in hops
  {
    if hops == [] {
      AddToOk([], r);
    } else if hops[0].distance == r.hops {
      AddToOk(hops[0].nodes, r);
    } else {
      var rest := Record(hops[1..], r);
      RecordOk(hops[1..], r);
      forall i | 0 <= i < |rest|
        ensures rest[i].distance != hops[0].distance
      {
        assert rest[i] in rest;
      }
    }
  }

  lemma {:induction false} RecordFound(hops: seq<Hop>, r: Reply, d: int, ip: IP)
    requires HopsOk(hops)
    ensures Found(Record(hops, r), d, ip) == Found(hops, d, ip) + if d == r.hops && ip == r.ip then [r.rtt] else []
  {
    var out := Record(hops, r);
    if hops == [] {
      AddToOk([], r);
      assert out[1..] == [];
    } else if hops[0].distance == r.hops {
      AddToOk(hops[0].nodes, r);
      assert out[1..] == hops[1..];
      assert Found(hops, d, ip) == Found(hops, d, ip) + [];
    } else {
      assert out[1..] == Record(hops[1..], r);
      RecordFound(hops[1..], r, d, ip);
      assert Found(hops, d, ip) == Found(hops, d, ip) + [];
    }
  }

  // Each node holds exactly its own replies, in arrival order.
  lemma {:induction false} CollectedCorrect(rs: seq<Reply>)
    ensures HopsOk(Collected(rs))
    ensures forall d, ip :: Found(Collected(rs), d, ip) == RttsOf(rs, d, ip)
  {
    if rs == [] {
    } else {
      var front, r := rs[..|rs| - 1], rs[|rs| - 1];
      CollectedCorrect(front);
      RecordOk(Collected(front), r);
      forall d, ip
        ensures Found(Collected(rs), d, ip) == RttsOf(rs, d, ip)
      {
        RecordFound(Collected(front), r, d, ip);
      }
    }
  }

  // ---------- conservation ----------

  function Labelled(ip: IP, rtts: seq<int>, d: int): seq<Reply> {
    seq(|rtts|, i requires 0 <= i < |rtts| => Reply(ip, rtts[i], d))
  }

  lemma LabelledConcat(ip: IP, a: seq<int>, b: seq<int>, d: int)
    ensures Labelled(ip, a + b, d) == Labelled(ip, a, d) + Labelled(ip, b, d)
  {
  }

  function NodeReplies(n: Node, d: int): multiset<Reply> {
    multiset(Labelled(n.ip, n.rtts, d))
  }

  function NodesReplies(nodes: seq<Node>, d: int): multiset<Reply> {
    if nodes == [] then multiset{} else NodeReplies(nodes[0], d) + NodesReplies(nodes[1..], d)
  }

  function Flatten(hops: seq<Hop>): multiset<Reply> {
    if hops == [] then multiset{} else NodesReplies(hops[0].nodes, hops[0].distance) + Flatten(hops[1..])
  }

  lemma NodeRepliesGrow(n: Node, rtt: int, d: int)
    ensures NodeReplies(n.(rtts := n.rtts + [rtt]), d) == NodeReplies(n, d) + multiset{Reply(n.ip, rtt, d)}
  {
    LabelledConcat(n.ip, n.rtts, [rtt], d);
    assert Labelled(n.ip, [rtt], d) == [Reply(n.ip, rtt, d)];
  }

  lemma {:induction false} AddToReplies(nodes: seq<Node>, r: Reply)
    ensures NodesReplies(AddTo(nodes, r), r.hops) == NodesReplies(nodes, r.hops) + multiset{r}
  {
    var out := AddTo(nodes, r);
    if nodes == [] {
      NodeRepliesGrow(Node(r.ip, []), r.rtt, r.hops);
      assert [] + [r.rtt] == [r.rtt];
      assert out[1..] == [];
    } else if nodes[0].ip == r.ip {
      NodeRepliesGrow(nodes[0], r.rtt, r.hops);
      assert out[1..] == nodes[1..];
    } else {
      AddToReplies(nodes[1..], r);
      assert out[1..] == AddTo(nodes[1..], r);
    }
  }

  lemma {:induction false} RecordReplies(hops: seq<Hop>, r: Reply)
    ensures Flatten(Record(hops, r)) == Flatten(hops) + multiset{r}
  {
    var out := Record(hops, r);
    if hops == [] {
      AddToReplies([], r);
      assert out[1..] == [];
    } else if hops[0].distance == r.hops {
      AddToReplies(hops[0].nodes, r);
      assert out[1..] == hops[1..];
    } else {
      RecordReplies(hops[1..], r);
      assert out[1..] == Record(hops[1..], r);
    }
  }

  // No reply is lost, duplicated or moved.
  lemma {:induction false} CollectedConserves(rs: seq<Reply>)
    ensures Flatten(Collected(rs)) == multiset(rs)
  {
    if rs == [] {
    } else {
      var front, r := rs[..|rs| - 1], rs[|rs| - 1];
      assert rs == front + [r];
      CollectedConserves(front);
      RecordReplies(Collected(front), r);
    }
  }

  // ---------- arrival order ----------

  lemma {:induction false} RttsCount(rs: seq<Reply>, d: int, ip: IP, t: int)
    ensures multiset(RttsOf(rs, d, ip))[t] == multiset(rs)[Reply(ip, t, d)]
  {
    if rs == [] {
    } else {
      RttsCount(rs[..|rs| - 1], d, ip, t);
      assert rs == rs[..|rs| - 1] + [rs[|rs| - 1]];
    }
  }

  // distance -> address -> multiset of RTTs does not depend on the order of arrival.
  lemma ArrivalOrderIrrelevant(rs: seq<Reply>, qs: seq<Reply>, d: int, ip: IP)
    requires multiset(rs) == multiset(qs)
    ensures multiset(Found(Collected(rs), d, ip)) == multiset(Found(Collected(qs), d, ip))
  {
    CollectedCorrect(rs);
    CollectedCorrect(qs);
    forall t
      ensures multiset(RttsOf(rs, d, ip))[t] == multiset(RttsOf(qs, d, ip))[t]
    {
      RttsCount(rs, d, ip, t);
      RttsCount(qs, d, ip, t);
    }
  }
}
