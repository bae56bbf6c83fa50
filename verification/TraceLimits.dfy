/** Exact limits of one traceroute call (traceroute/tracer.go): when the reply channel can
    overflow, when the exit through isDone can lose a reply, and which MaxHops is the live one.
    All come from one family of runs: a network that stays silent while the ladder sends. */
module TraceLimits {
  import opened Probes
  import opened TraceRun
  import opened TraceTheorems
  import L = SessionLog

  // After k sends into a silent network, with consecutive IDs and the clock at 0.
  ghost predicate Silent(cfg: Config, l: Local, k: nat) {
    && l.phase == Ladder && l.bound == cfg.maxHops
    && l.s == L.EMPTY.(probes := l.s.probes, registered := l.s.probes)
    && |l.s.probes| == k
    && (forall i :: 0 <= i < k ==>
          var p := l.s.probes[i]; p.serial == i + 1 && p.dst == l.ip && p.id == (i + 1) % ID_SIZE && p.time == 0)
    && 1 <= l.ttl && l.ttl - 1 <= Pos(cfg.maxHops)
    && |l.past| * Pos(cfg.maxHops) + (l.ttl - 1) == k
  }

  // ... and the last of them has just been sent, with the TTL before the current one.
  ghost predicate JustSent(cfg: Config, l: Local, k: nat) {
    Silent(cfg, l, k) && (k > 0 ==> l.ttl >= 2 && l.s.probes[k - 1].ttl == l.ttl - 1)
  }

  lemma SilentSend(cfg: Config, l: Local, k: nat) returns (m: Local)
    requires Reachable(cfg, l) && Silent(cfg, l, k) && MaySend(cfg, l)
    ensures m.ip == l.ip && Reachable(cfg, m) && JustSent(cfg, m, k + 1)
  {
    var p := Probe(k + 1, l.ip, (k + 1) % ID_SIZE, l.ttl, 0);
    ReachableNext(cfg, l, Send(p));
    var l1 := Next(cfg, l, Send(p));
    ReachableNext(cfg, l1, Append);
    var l2 := Next(cfg, l1, Append);
    ReachableNext(cfg, l2, DelayFires);
    m := Next(cfg, l2, DelayFires);
    assert m.s.probes == l.s.probes + [p];
  }

  lemma SilentStep(cfg: Config, l: Local, k: nat) returns (m: Local)
    requires Reachable(cfg, l) && Silent(cfg, l, k) && k < Budget(cfg)
    ensures m.ip == l.ip && Reachable(cfg, m) && JustSent(cfg, m, k + 1)
  {
    var h, c := Pos(cfg.maxHops), Pos(cfg.count);
    if |l.past| >= c {
      MulMono(c, |l.past|, h);
    }
    if MaySend(cfg, l) {
      m := SilentSend(cfg, l, k);
    } else {
      assert l.ttl - 1 == h;
      assert (|l.past| + 1) * h == |l.past| * h + h;
      var n := |l.past| + 1;
      if n >= c {
        MulMono(c, n, h);
      }
      ReachableNext(cfg, l, NextRound);
      m := SilentSend(cfg, Next(cfg, l, NextRound), k);
    }
  }

  // The silent network lets the ladder reach every number of probes within the budget.
  lemma {:induction false} SilentRun(cfg: Config, ip: IP, k: nat) returns (l: Local)
    requires k <= Budget(cfg)
    ensures l.ip == ip && Reachable(cfg, l) && JustSent(cfg, l, k)
  {
    if k == 0 {
      l := Init(cfg, ip);
      assert Legal(cfg, l, []);
    } else {
      var m := SilentRun(cfg, ip, k - 1);
      l := SilentStep(cfg, m, k - 1);
    }
  }

  // ---------- the live hop bound ----------

  lemma EmptyBudget(cfg: Config)
    ensures cfg.count <= 0 || cfg.maxHops <= 0 ==> Budget(cfg) == 0
  {
  }

  // Trace(ip, requested) writes requested.maxHops into DefaultConfig, but the ladder reads the
  // tracer's own copy: the requested bound holds in every run exactly if the copy is within it.
  lemma RequestedBoundIff(requested: Config, tracer: Config, ip: IP)
    ensures (forall l, p :: Reachable(tracer, l) && l.ip == ip && p in l.s.registered ==> p.ttl <= requested.maxHops)
            <==> tracer.count <= 0 || tracer.maxHops <= 0 || tracer.maxHops <= requested.maxHops
  {
    if tracer.count > 0 && tracer.maxHops > 0 && tracer.maxHops > requested.maxHops {
      MulMono(1, tracer.count, tracer.maxHops);
      var l := SilentRun(tracer, ip, tracer.maxHops);
      var h := tracer.maxHops;
      if |l.past| >= 1 {
        MulMono(1, |l.past|, h);
      }
      assert l.s.probes[h - 1] in l.s.registered && l.s.probes[h - 1].ttl == h;
    } else {
      EmptyBudget(tracer);
      forall l, p | Reachable(tracer, l) && l.ip == ip && p in l.s.registered
        ensures p.ttl <= requested.maxHops
      {
        ReachableInv(tracer, l);
        RegisteredWithinBudget(tracer, l);
        RegisteredTtl(tracer, l, p);
      }
    }
  }

  // ---------- when isDone may speak too early ----------

  // c rounds of h probes are n rounds and t probes: the t are the last round.
  lemma OneRoundLeft(c: nat, n: nat, h: nat, t: nat)
    requires c * h == n * h + t && 1 <= t <= h + 1 && (t == h + 1 ==> h >= 2)
    ensures c == n + 1 && t == h
  {
    if c <= n {
      MulMono(c, n, h);
    }
    if c >= n + 2 {
      MulMono(n + 2, c, h);
    }
    assert (n + 1) * h == n * h + h && (n + 2) * h == n * h + h + h;
  }

  // The ladder is over with a silent network behind it: everything sent is outstanding.
  lemma SilentLadder(cfg: Config, ip: IP) returns (l: Local)
    requires Budget(cfg) > 0
    ensures l.ip == ip && Reachable(cfg, l) && l.phase == Checking
    ensures l.s == L.EMPTY.(probes := l.s.probes, registered := l.s.probes) && l.s.probes != []
    ensures forall p :: p in l.s.probes ==> p.time == 0
  {
    EmptyBudget(cfg);
    var m := SilentRun(cfg, ip, Budget(cfg));
    OneRoundLeft(cfg.count, |m.past|, cfg.maxHops, m.ttl - 1);
    ReachableNext(cfg, m, NextRound);
    ReachableNext(cfg, Next(cfg, m, NextRound), LadderEnd);
    l := Next(cfg, Next(cfg, m, NextRound), LadderEnd);
  }

  lemma {:induction false} AllLate(ps: seq<Probe>, res: Answer, timeout: int)
    requires forall p :: p in ps ==> res.time - p.time > timeout
    ensures Select(ps, res, timeout, Keep) == [] && Select(ps, res, timeout, Hit) == []
  {
    if ps == [] {
    } else {
      AllLate(ps[..|ps| - 1], res, timeout);
    }
  }

  // A response in time to the oldest probe: its reply is in transit, the list shrinks.
  lemma AnswerOldest(s: L.State, timeout: int, res: Answer)
    requires s.probes != [] && res.id == s.probes[0].id && 0 <= res.ttl && res.time <= timeout
    requires (forall p :: p in s.probes ==> p.time == 0) && s.produced == [] && s.delivered == []
    ensures var t := L.Next(s, L.Match(res), timeout);
            |t.produced| == 1 && t.delivered == [] && (forall p :: p in t.probes ==> p.time == 0)
  {
    SelectMember(s.probes, res, timeout, Hit, s.probes[0]);
    forall p | p in Select(s.probes, res, timeout, Keep)
      ensures p.time == 0
    {
      SelectMember(s.probes, res, timeout, Keep, p);
    }
  }

  // Any configuration that sends a probe can lose a reply at the exit: one probe is answered, a
  // late response purges the others, and isDone wins the race against the push.
  lemma ReplyLostAtExit(cfg: Config, ip: IP) returns (l: Local)
    requires Budget(cfg) > 0
    ensures Reachable(cfg, l) && l.ip == ip && l.phase == Returned(AllAnswered)
    ensures |l.s.produced| == 1 && l.s.delivered == []
  {
    var l1 := SilentLadder(cfg, ip);
    var res := Answer(ip, l1.s.probes[0].id, 1, if cfg.timeout < 0 then cfg.timeout else 0);
    AnswerOldest(l1.s, cfg.timeout, res);
    ReachableNext(cfg, l1, Match(res));
    var l2 := Next(cfg, l1, Match(res));
    var late := Answer(ip, 0, 1, cfg.timeout + 1);
    AllLate(l2.s.probes, late, cfg.timeout);
    ReachableNext(cfg, l2, Match(late));
    var l3 := Next(cfg, l2, Match(late));
    ReachableNext(cfg, l3, CheckDone);
    l := Next(cfg, l3, CheckDone);
  }

  // Leaving through isDone means that every reply made has reached the callback, in every run,
  // exactly for the configurations that never send.
  lemma DoneMeansDeliveredIff(cfg: Config, ip: IP)
    ensures (forall l :: Reachable(cfg, l) && l.ip == ip && l.phase == Returned(AllAnswered) ==>
               multiset(l.s.delivered) == multiset(l.s.produced))
            <==> Budget(cfg) == 0
  {
    if Budget(cfg) == 0 {
      forall l | Reachable(cfg, l) && l.ip == ip
        ensures multiset(l.s.delivered) == multiset(l.s.produced)
      {
        ReachableInv(cfg, l);
        RegisteredWithinBudget(cfg, l);
        L.RepliesBounded(l.s, cfg.timeout);
      }
    } else {
      var l := ReplyLostAtExit(cfg, ip);
      assert |multiset(l.s.produced)| == 1 && |multiset(l.s.delivered)| == 0;
    }
  }

  // ---------- when the exit leaves probes behind ----------

  // All rounds sent but for the very last probe.
  lemma BeforeLast(cfg: Config, ip: IP) returns (l: Local)
    requires cfg.count >= 1 && cfg.maxHops >= 2
    ensures l.ip == ip && Reachable(cfg, l) && Silent(cfg, l, Budget(cfg) - 1) && l.s.probes != []
    ensures |l.past| == cfg.count - 1 && l.ttl == cfg.maxHops
  {
    MulMono(1, cfg.count, cfg.maxHops);
    l := SilentRun(cfg, ip, Budget(cfg) - 1);
    OneRoundLeft(cfg.count, |l.past|, cfg.maxHops, l.ttl);
  }

  lemma {:induction false} OnlyLastLeft(ps: seq<Probe>, last: Probe, res: Answer, timeout: int)
    requires forall p :: p in ps ==> res.time - p.time > timeout
    requires FateOf(last, res, timeout) == Keep
    ensures Select(ps + [last], res, timeout, Keep) == [last] && Select(ps + [last], res, timeout, Hit) == []
  {
    AllLate(ps, res, timeout);
    assert (ps + [last])[..|ps|] == ps;
  }

  // The first probe is answered by the destination; the last one stays outstanding.
  lemma AnswerFirst(ps: seq<Probe>, last: Probe, res: Answer, timeout: int)
    requires ps != [] && (forall p :: p in ps ==> p.time == 0) && last.id != ps[0].id && last.time == 1
    requires res.id == ps[0].id && res.time == timeout
    ensures var keep := Select(ps + [last], res, timeout, Keep);
            keep != [] && keep == keep[..|keep| - 1] + [last] && forall p :: p in keep[..|keep| - 1] ==> p.time == 0
    ensures Select(ps + [last], res, timeout, Hit) != []
    ensures forall p :: p in Select(ps + [last], res, timeout, Hit) ==> p in ps
  {
    var all := ps + [last];
    assert all[..|ps|] == ps && all[|ps|] == last;
    SelectMember(ps, res, timeout, Hit, ps[0]);
    forall p | p in Select(ps, res, timeout, Keep)
      ensures p.time == 0
    {
      SelectMember(ps, res, timeout, Keep, p);
    }
    forall p | p in Select(ps, res, timeout, Hit)
      ensures p in ps
    {
      SelectMember(ps, res, timeout, Hit, p);
    }
  }

  // The silent ladder, its last probe sent one tick after all others.
  lemma LateLast(cfg: Config, ip: IP) returns (l: Local, ps: seq<Probe>, last: Probe)
    requires cfg.count >= 1 && cfg.maxHops >= 2
    ensures l.ip == ip && Reachable(cfg, l) && l.phase == Draining && l.bound == cfg.maxHops
    ensures l.s.probes == ps + [last] && l.s.ch == [] && l.s.transit == []
    ensures ps != [] && (forall p :: p in ps ==> p.time == 0 && p.ttl <= cfg.maxHops) && last.id != ps[0].id
    ensures last.time == 1 && last.ttl == cfg.maxHops
  {
    var m := BeforeLast(cfg, ip);
    ps := m.s.probes;
    last := Probe(|ps| + 1, ip, 0, m.ttl, 1);
    ReachableNext(cfg, m, Send(last));
    var m1 := Next(cfg, m, Send(last));
    ReachableNext(cfg, m1, Append);
    var m2 := Next(cfg, m1, Append);
    ReachableNext(cfg, m2, DelayFires);
    var m3 := Next(cfg, m2, DelayFires);
    ReachableNext(cfg, m3, NextRound);
    var m4 := Next(cfg, m3, NextRound);
    ReachableNext(cfg, m4, LadderEnd);
    var m5 := Next(cfg, m4, LadderEnd);
    assert last in m5.s.probes;
    ReachableNext(cfg, m5, CheckDone);
    l := Next(cfg, m5, CheckDone);
    ReachableInv(cfg, l);
    forall p | p in ps
      ensures p.time == 0 && p.ttl <= cfg.maxHops
    {
      assert p in l.s.registered;
      RegisteredTtl(cfg, l, p);
    }
  }

  // A destination reply of one hop lowers the bound to 1.
  lemma BoundLowered(cfg: Config, ip: IP) returns (l: Local, rest: seq<Probe>, last: Probe)
    requires cfg.count >= 1 && cfg.maxHops >= 2
    ensures l.ip == ip && Reachable(cfg, l) && l.phase == Checking && l.bound == 1
    ensures l.s.probes == rest + [last] && last.time == 1 && last.ttl == cfg.maxHops
    ensures forall p :: p in rest ==> p.time == 0
  {
    var l1, ps;
    l1, ps, last := LateLast(cfg, ip);
    var res := Answer(ip, ps[0].id, cfg.maxHops, cfg.timeout);
    AnswerFirst(ps, last, res, cfg.timeout);
    ReachableNext(cfg, l1, Match(res));
    var l2 := Next(cfg, l1, Match(res));
    var reply := l2.s.transit[0];
    assert reply.ip == ip && reply.hops == 1;
    ReachableNext(cfg, l2, Push(0));
    var l3 := Next(cfg, l2, Push(0));
    assert l3.s.ch == [reply];
    ReachableNext(cfg, l3, Receive);
    l := Next(cfg, l3, Receive);
    rest := l.s.probes[..|l.s.probes| - 1];
  }

  // A late response then purges all but the last probe, and the exit through isDone leaves that one
  // outstanding.
  lemma ExitLeavingProbe(cfg: Config, ip: IP) returns (l: Local)
    requires cfg.count >= 1 && cfg.maxHops >= 2
    ensures l.ip == ip && Reachable(cfg, l) && l.phase == Returned(AllAnswered)
    ensures exists p :: p in l.s.probes && p.ttl > l.bound
  {
    var l4, rest, last := BoundLowered(cfg, ip);
    var late := Answer(ip, last.id + 1, 1, cfg.timeout + 1);
    OnlyLastLeft(rest, last, late, cfg.timeout);
    ReachableNext(cfg, l4, Match(late));
    l := ExitAbove(cfg, Next(cfg, l4, Match(late)), last);
  }

  lemma ExitAbove(cfg: Config, l: Local, last: Probe) returns (m: Local)
    requires Reachable(cfg, l) && l.phase == Checking && l.s.probes == [last] && last.ttl > l.bound
    ensures m.ip == l.ip && Reachable(cfg, m) && m.phase == Returned(AllAnswered)
    ensures exists p :: p in m.s.probes && p.ttl > m.bound
  {
    ReachableNext(cfg, l, CheckDone);
    m := Next(cfg, l, CheckDone);
    assert last in m.s.probes;
  }

  // The exit through isDone can leave probes outstanding, above the bound, exactly for the
  // configurations that send more than one TTL.
  lemma ExitLeavesProbesIff(cfg: Config, ip: IP)
    ensures (exists l, p :: Reachable(cfg, l) && l.ip == ip && l.phase == Returned(AllAnswered) && p in l.s.probes)
            <==> cfg.count >= 1 && cfg.maxHops >= 2
  {
    if cfg.count >= 1 && cfg.maxHops >= 2 {
      var l := ExitLeavingProbe(cfg, ip);
      var p :| p in l.s.probes && p.ttl > l.bound;
    } else {
      forall l, p | Reachable(cfg, l) && l.ip == ip && l.phase == Returned(AllAnswered)
        ensures p !in l.s.probes
      {
        NoneLeft(cfg, l, p);
      }
    }
  }

  lemma NoneLeft(cfg: Config, l: Local, p: Probe)
    requires Reachable(cfg, l) && l.phase == Returned(AllAnswered) && (cfg.count < 1 || cfg.maxHops < 2)
    ensures p !in l.s.probes
  {
    ReachableInv(cfg, l);
    EmptyBudget(cfg);
    RegisteredWithinBudget(cfg, l);
    if p in l.s.probes {
      assert p in multiset(l.s.registered);
      RegisteredTtl(cfg, l, p);
      BoundPositive(cfg, l);
    }
  }

  // The bound never falls below one hop.
  lemma BoundPositive(cfg: Config, l: Local)
    requires Reachable(cfg, l) && cfg.maxHops >= 1
    ensures l.bound >= 1
  {
    ReachableInv(cfg, l);
    forall r | r in l.s.delivered
      ensures r.hops >= 1
    {
      DeliveredHops(cfg, l, r);
    }
  }

  // ---------- when the channel can overflow ----------

  // One response to the oldest outstanding probe, pushed at once.
  ghost predicate Flooding(l: Local) {
    && l.phase != Closed && l.s.transit == []
    && |l.s.ch| <= CHANNEL_CAPACITY < |l.s.probes| + |l.s.ch|
    && DistinctIds(l.s.probes)
    && (forall p :: p in l.s.probes ==> p.time == 0)
  }

  lemma {:induction false} TakeFirst(ps: seq<Probe>, res: Answer, timeout: int)
    requires ps != [] && DistinctIds(ps) && ps[0].id == res.id
    requires res.time <= timeout && forall p :: p in ps ==> p.time == 0
    ensures Select(ps, res, timeout, Keep) == ps[1..] && Select(ps, res, timeout, Hit) == [ps[0]]
  {
    var front := ps[..|ps| - 1];
    if |ps| == 1 {
      assert front == [];
    } else {
      assert front[0] == ps[0];
      TakeFirst(front, res, timeout);
      assert ps[1..] == front[1..] + [ps[|ps| - 1]];
    }
  }

  lemma FloodOne(cfg: Config, l: Local) returns (m: Local)
    requires Reachable(cfg, l) && Flooding(l) && l.s.probes != [] && l.s.dropped == []
    ensures m.ip == l.ip && Reachable(cfg, m)
    ensures |l.s.ch| == CHANNEL_CAPACITY ==> m.s.dropped != []
    ensures |l.s.ch| < CHANNEL_CAPACITY ==> Flooding(m) && m.s.dropped == [] && |m.s.probes| == |l.s.probes| - 1
  {
    var p := l.s.probes[0];
    var res := Answer(l.ip, p.id, 1, if cfg.timeout < 0 then cfg.timeout else 0);
    TakeFirst(l.s.probes, res, cfg.timeout);
    ReachableNext(cfg, l, Match(res));
    var l1 := Next(cfg, l, Match(res));
    assert l1.s.transit == [MakeReply(p, res)];
    ReachableNext(cfg, l1, Push(0));
    m := Next(cfg, l1, Push(0));
    assert m.s.transit == [];
    assert m.s.probes == l.s.probes[1..];
  }

  lemma {:induction false} Flood(cfg: Config, l: Local) returns (m: Local)
    requires Reachable(cfg, l) && Flooding(l) && l.s.dropped == []
    ensures m.ip == l.ip && Reachable(cfg, m) && m.s.dropped != []
    decreases |l.s.probes|
  {
    m := FloodOne(cfg, l);
    if |l.s.ch| < CHANNEL_CAPACITY {
      m := Flood(cfg, m);
    }
  }

  // Count * MaxHops <= 64 is exactly what keeps every run of every network from losing a reply
  // to a full channel.
  lemma NeverDropsIff(cfg: Config, ip: IP)
    ensures (forall l :: Reachable(cfg, l) && l.ip == ip ==> l.s.dropped == []) <==> Budget(cfg) <= CHANNEL_CAPACITY
  {
    if Budget(cfg) <= CHANNEL_CAPACITY {
      forall l | Reachable(cfg, l) && l.ip == ip
        ensures l.s.dropped == []
      {
        NothingDropped(cfg, l);
      }
    } else {
      var l := SilentRun(cfg, ip, CHANNEL_CAPACITY + 1);
      var m := Flood(cfg, l);
    }
  }
}
