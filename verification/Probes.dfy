/** Packets, replies and the selection that `Session.handle` makes among the outstanding
    probes (traceroute/tracer.go). */
module Probes {
  import opened Wrappers

  // An address in the short form that shortIP produces, so that IP.Equal is equality.
  type IP = nat

  // An outstanding request. Go compares probes by pointer; serial plays that part.
  datatype Probe = Probe(serial: nat, dst: IP, id: nat, ttl: int, time: int)

  // A parsed response: the address that answered, the ID and remaining TTL it quotes, its arrival time.
  datatype Answer = Answer(ip: IP, id: nat, ttl: int, time: int)

  datatype Reply = Reply(ip: IP, rtt: int, hops: int)

  // What one pass of handle does with a probe: the time test comes first.
  datatype Fate = Purge | Hit | Keep

  const CHANNEL_CAPACITY: nat := 64

  // The request counter is a uint32, an ID a uint16.
  const COUNTER_SIZE: nat := 0x1_0000_0000
  const ID_SIZE: nat := 0x1_0000

  function FateOf(p: Probe, res: Answer, timeout: int): Fate {
    if res.time - p.time > timeout then Purge
    else if p.id == res.id then Hit
    else Keep
  }

  // The probes that meet the given fate, in their original order.
  function Select(ps: seq<Probe>, res: Answer, timeout: int, fate: Fate): seq<Probe> {
    if ps == [] then []
    else
      var front := Select(ps[..|ps| - 1], res, timeout, fate);
      var p := ps[|ps| - 1];
      if FateOf(p, res, timeout) == fate then front + [p] else front
  }

  function Last(ps: seq<Probe>): Option<Probe> {
    if ps == [] then None else Some(ps[|ps| - 1])
  }

  // The hop count is clamped from below and never exceeds ttl + 1.
  function MakeReply(req: Probe, res: Answer): Reply {
    var hops := req.ttl - res.ttl + 1;
    Reply(res.ip, res.time - req.time, if hops < 1 then 1 else hops)
  }

  // The non-blocking send: a full channel discards the reply.
  function Offer(ch: seq<Reply>, r: Reply): seq<Reply> {
    if |ch| < CHANNEL_CAPACITY then ch + [r] else ch
  }

  // A reply that belongs to a probe and the response to it: the address that responded, the time
  // between the two, in time, and the TTL used up on the way plus one.
  ghost predicate Answers(r: Reply, p: Probe, res: Answer, timeout: int) {
    && p.id == res.id && r.ip == res.ip
    && p.time + r.rtt == res.time && r.rtt <= timeout
    && 0 <= res.ttl && if res.ttl <= p.ttl then r.hops + res.ttl == p.ttl + 1 else r.hops == 1
  }

  lemma {:induction false} SelectMember(ps: seq<Probe>, res: Answer, timeout: int, fate: Fate, p: Probe)
    ensures p in Select(ps, res, timeout, fate) <==> p in ps && FateOf(p, res, timeout) == fate
  {
    if ps == [] {
    } else {
      SelectMember(ps[..|ps| - 1], res, timeout, fate, p);
      assert ps == ps[..|ps| - 1] + [ps[|ps| - 1]];
    }
  }

  // What a pass purges has expired; what it hits is in time and has the response's ID; what it
  // keeps is in time and has another ID.
  lemma SelectMeans(ps: seq<Probe>, res: Answer, timeout: int, p: Probe)
    ensures p in Select(ps, res, timeout, Purge) <==> p in ps && res.time - p.time > timeout
    ensures p in Select(ps, res, timeout, Hit) <==> p in ps && res.time - p.time <= timeout && p.id == res.id
    ensures p in Select(ps, res, timeout, Keep) <==> p in ps && res.time - p.time <= timeout && p.id != res.id
  {
    SelectMember(ps, res, timeout, Purge, p);
    SelectMember(ps, res, timeout, Hit, p);
    SelectMember(ps, res, timeout, Keep, p);
  }

  // The response quotes the probe's ID and comes in time.
  predicate Responds(res: Answer, p: Probe, timeout: int) {
    p.id == res.id && res.time - p.time <= timeout
  }

  // The request that a pass finds is the last one that the response responds to, if there is one.
  ghost predicate LastInTime(ps: seq<Probe>, res: Answer, timeout: int, req: Option<Probe>) {
    match req
    case None => forall i :: 0 <= i < |ps| ==> !Responds(res, ps[i], timeout)
    case Some(p) => exists i :: LastInTimeAt(ps, res, timeout, p, i)
  }

  ghost predicate LastInTimeAt(ps: seq<Probe>, res: Answer, timeout: int, p: Probe, i: int) {
    && 0 <= i < |ps| && ps[i] == p && Responds(res, p, timeout)
    && forall j :: i < j < |ps| ==> !Responds(res, ps[j], timeout)
  }

  // A hit before the last probe stays the last hit if the last probe is none.
  lemma LastInTimeStep(ps: seq<Probe>, res: Answer, timeout: int, req: Option<Probe>)
    requires ps != [] && LastInTime(ps[..|ps| - 1], res, timeout, req)
    requires !Responds(res, ps[|ps| - 1], timeout)
    ensures LastInTime(ps, res, timeout, req)
  {
    var front := ps[..|ps| - 1];
    assert forall j :: 0 <= j < |front| ==> ps[j] == front[j];
    if req.Some? {
      var i :| LastInTimeAt(front, res, timeout, req.value, i);
      assert LastInTimeAt(ps, res, timeout, req.value, i);
    }
  }

  lemma {:induction false} LastHit(ps: seq<Probe>, res: Answer, timeout: int)
    ensures LastInTime(ps, res, timeout, Last(Select(ps, res, timeout, Hit)))
  {
    if ps == [] {
    } else {
      var front, last := ps[..|ps| - 1], ps[|ps| - 1];
      LastHit(front, res, timeout);
      if Responds(res, last, timeout) {
        assert LastInTimeAt(ps, res, timeout, last, |ps| - 1);
      } else {
        LastInTimeStep(ps, res, timeout, Last(Select(front, res, timeout, Hit)));
      }
    }
  }

  // One pass splits the outstanding probes three ways and loses none.
  lemma {:induction false} SelectPartition(ps: seq<Probe>, res: Answer, timeout: int)
    ensures multiset(ps) == multiset(Select(ps, res, timeout, Keep))
                            + multiset(Select(ps, res, timeout, Purge))
                            + multiset(Select(ps, res, timeout, Hit))
  {
    if ps == [] {
    } else {
      SelectPartition(ps[..|ps| - 1], res, timeout);
      assert ps == ps[..|ps| - 1] + [ps[|ps| - 1]];
    }
  }

  lemma {:induction false} SelectCard(ps: seq<Probe>, res: Answer, timeout: int)
    ensures |ps| == |Select(ps, res, timeout, Keep)|
                    + |Select(ps, res, timeout, Purge)|
                    + |Select(ps, res, timeout, Hit)|
  {
    if ps == [] {
    } else {
      SelectCard(ps[..|ps| - 1], res, timeout);
    }
  }

  // Probes keep their relative order, so increasing serials stay increasing.
  ghost predicate Increasing(ps: seq<Probe>) {
    forall i, j :: 0 <= i < j < |ps| ==> ps[i].serial < ps[j].serial
  }

  lemma {:induction false} SelectIncreasing(ps: seq<Probe>, res: Answer, timeout: int, fate: Fate)
    requires Increasing(ps)
    ensures Increasing(Select(ps, res, timeout, fate))
  {
    if ps == [] {
    } else {
      var front := ps[..|ps| - 1];
      SelectIncreasing(front, res, timeout, fate);
      forall p | p in Select(front, res, timeout, fate)
        ensures p.serial < ps[|ps| - 1].serial
      {
        SelectMember(front, res, timeout, fate, p);
      }
    }
  }

  // IDs of the outstanding probes are pairwise distinct.
  ghost predicate DistinctIds(ps: seq<Probe>) {
    forall i, j :: 0 <= i < j < |ps| ==> ps[i].id != ps[j].id
  }

  lemma {:induction false} DistinctIdsOneHit(ps: seq<Probe>, res: Answer, timeout: int)
    requires DistinctIds(ps)
    ensures |Select(ps, res, timeout, Hit)| <= 1
  {
    if ps == [] {
    } else {
      var front := ps[..|ps| - 1];
      DistinctIdsOneHit(front, res, timeout);
      var hits := Select(front, res, timeout, Hit);
      if hits != [] {
        SelectMember(front, res, timeout, Hit, hits[0]);
      }
    }
  }

  lemma ReplyAnswers(p: Probe, res: Answer, timeout: int)
    requires FateOf(p, res, timeout) == Hit && 0 <= res.ttl
    ensures Answers(MakeReply(p, res), p, res, timeout)
  {
  }
}
