/** What every run of one traceroute session guarantees: accounting, the ladder, the exit and the
    drain, and what it does not, the gap between send and append (traceroute/tracer.go). */
module TraceTheorems {
  import opened Probes
  import opened TraceRun
  import opened Wrappers
  import L = SessionLog
  import Sorting

  // ---------- accounting ----------

  // Every registered probe is outstanding, purged, matched or abandoned at Close, in exactly
  // one of these; every reply was made for its own matched probe from a response that quotes its
  // ID, in time, with a sane hop count.
  lemma Accounting(cfg: Config, l: Local)
    requires Reachable(cfg, l)
    ensures forall p :: p in l.s.registered ==>
              multiset(l.s.probes)[p] + multiset(l.s.purged)[p]
              + multiset(l.s.matched)[p] + multiset(l.s.abandoned)[p] == 1
    ensures |l.s.answered| == |l.s.heard| == |l.s.produced|
    ensures |l.s.produced| == |l.s.transit| + |l.s.ch| + |l.s.delivered| + |l.s.dropped|
    ensures l.s.accepted == l.s.delivered + l.s.ch
    ensures forall k :: 0 <= k < |l.s.produced| ==>
              && l.s.answered[k] in l.s.matched
              && Answers(l.s.produced[k], l.s.answered[k], l.s.heard[k], cfg.timeout)
              && 1 <= l.s.produced[k].hops <= l.s.answered[k].ttl + 1
    ensures forall i, j :: 0 <= i < j < |l.s.answered| ==> l.s.answered[i] != l.s.answered[j]
  {
    ReachableInv(cfg, l);
    L.RepliesBounded(l.s, cfg.timeout);
    forall p | p in l.s.registered
      ensures multiset(l.s.probes)[p] + multiset(l.s.purged)[p]
              + multiset(l.s.matched)[p] + multiset(l.s.abandoned)[p] == 1
    {
      L.ExactlyOnePlace(l.s, p);
    }
    forall k | 0 <= k < |l.s.answered|
      ensures l.s.answered[k] in l.s.matched && l.s.answered[k] in l.s.registered && l.s.answered[k].ttl >= 1
    {
      AnsweredRegistered(cfg, l, l.s.answered[k]);
    }
    forall i, j | 0 <= i < j < |l.s.answered|
      ensures l.s.answered[i] != l.s.answered[j]
    {
      var p := l.s.answered[i];
      L.ExactlyOnePlace(l.s, p);
      assert multiset(l.s.answered)[p] <= multiset(l.s.matched)[p];
      if p == l.s.answered[j] {
        Sorting.Repeated(l.s.answered, i, j);
      }
    }
  }

  lemma AnsweredRegistered(cfg: Config, l: Local, p: Probe)
    requires Inv(cfg, l) && p in l.s.answered
    ensures p in l.s.matched && p in l.s.registered && 1 <= p.ttl <= cfg.maxHops
  {
    assert p in multiset(l.s.answered) && p in multiset(l.s.matched);
    assert p in multiset(l.s.registered);
    RegisteredTtl(cfg, l, p);
  }

  lemma RegisteredTtl(cfg: Config, l: Local, p: Probe)
    requires LadderInv(cfg, l) && p in l.s.registered
    ensures 1 <= p.ttl <= cfg.maxHops
  {
    var i :| 0 <= i < |l.s.registered| && l.s.registered[i] == p;
    assert ProbeTtls(l.s.registered)[i] == p.ttl;
    assert p.ttl in Appended(l);
    if p.ttl !in Flat(l.past) {
      assert exists j :: 0 <= j < |l.current| && l.current[j].ttl == p.ttl;
    }
    FlatRange(l.past, cfg.maxHops);
  }

  lemma {:induction false} FlatRange(rounds: seq<seq<Sent>>, maxHops: int)
    requires forall r :: r in rounds ==> RoundOk(r, maxHops)
    ensures forall t :: t in Flat(rounds) ==> 1 <= t <= maxHops
  {
    if rounds == [] {
    } else {
      FlatRange(rounds[..|rounds| - 1], maxHops);
      assert RoundOk(rounds[|rounds| - 1], maxHops);
    }
  }

  // Every reply handed to the callback has a hop count between 1 and MaxHops + 1.
  lemma DeliveredHops(cfg: Config, l: Local, r: Reply)
    requires Reachable(cfg, l) && r in l.s.delivered
    ensures 1 <= r.hops <= cfg.maxHops + 1 && r.rtt <= cfg.timeout
  {
    ReachableInv(cfg, l);
    assert r in multiset(l.s.delivered) && r in multiset(l.s.produced);
    var k :| 0 <= k < |l.s.produced| && l.s.produced[k] == r;
    AnsweredRegistered(cfg, l, l.s.answered[k]);
  }

  // ---------- no reply is discarded ----------

  lemma MulStep(n: nat, m: nat)
    requires n > 0
    ensures n * m == (n - 1) * m + m
  {
  }

  lemma {:induction false} FlatLength(rounds: seq<seq<Sent>>, most: nat)
    requires forall r :: r in rounds ==> |r| <= most
    ensures |Flat(rounds)| <= |rounds| * most
  {
    if rounds == [] {
    } else {
      FlatLength(rounds[..|rounds| - 1], most);
      assert rounds[|rounds| - 1] in rounds;
      MulStep(|rounds|, most);
    }
  }

  lemma MulMono(a: nat, b: nat, m: nat)
    requires a <= b
    ensures a * m <= b * m
  {
  }

  lemma RoundLength(r: seq<Sent>, maxHops: int)
    requires RoundOk(r, maxHops)
    ensures |r| <= Pos(maxHops)
  {
    if r != [] {
      assert r[|r| - 1].ttl == |r|;
    }
  }

  lemma AppendedLength(l: Local, most: nat)
    requires (forall r :: r in l.past ==> |r| <= most) && |l.current| <= most
    ensures |Appended(l)| <= |l.past| * most + |l.current|
  {
    FlatLength(l.past, most);
  }

  lemma RegisteredWithinBudget(cfg: Config, l: Local)
    requires LadderInv(cfg, l)
    ensures |l.s.registered| <= Budget(cfg)
  {
    var m := Pos(cfg.maxHops);
    RoundLength(l.current, cfg.maxHops);
    AppendedLength(l, m);
    assert |l.s.registered| == |ProbeTtls(l.s.registered)| == |Appended(l)|;
    if l.current == [] {
      MulMono(|l.past|, Pos(cfg.count), m);
    } else {
      assert |l.past| * m + m == (|l.past| + 1) * m;
      MulMono(|l.past| + 1, Pos(cfg.count), m);
    }
  }

  // A push that finds a reply in transit finds room, for each reply has used up a probe.
  lemma NoDropStep(cfg: Config, l: Local, e: Event)
    requires Inv(cfg, l) && l.s.dropped == [] && Enabled(cfg, l, e)
    requires Budget(cfg) <= CHANNEL_CAPACITY
    ensures Next(cfg, l, e).s.dropped == []
  {
    RegisteredWithinBudget(cfg, l);
    L.RepliesBounded(l.s, cfg.timeout);
  }

  lemma {:induction false} NoDropOnRun(cfg: Config, l: Local, es: seq<Event>)
    requires Inv(cfg, l) && l.s.dropped == [] && Legal(cfg, l, es)
    requires Budget(cfg) <= CHANNEL_CAPACITY
    ensures Exec(cfg, l, es).s.dropped == []
    decreases |es|
  {
    if es == [] {
    } else {
      InvKept(cfg, l, es[0]);
      NoDropStep(cfg, l, es[0]);
      NoDropOnRun(cfg, Next(cfg, l, es[0]), es[1..]);
    }
  }

  // The channel's default branch never fires while Count * MaxHops <= 64.
  lemma NothingDropped(cfg: Config, l: Local)
    requires Reachable(cfg, l) && Budget(cfg) <= CHANNEL_CAPACITY
    ensures l.s.dropped == []
  {
    var es :| Legal(cfg, Init(cfg, l.ip), es) && Exec(cfg, Init(cfg, l.ip), es) == l;
    InitInv(cfg, l.ip);
    NoDropOnRun(cfg, Init(cfg, l.ip), es);
  }

  // ---------- the ladder and the exit ----------

  // Every finished round has sent each TTL from 1 up to the bound, once, in order.
  lemma LadderComplete(cfg: Config, l: Local)
    requires Reachable(cfg, l)
    ensures BoundIsMinimum(cfg, l)
    ensures forall r :: r in l.past ==> RoundOk(r, cfg.maxHops) && l.bound <= |r|
    ensures RoundOk(l.current, cfg.maxHops)
    ensures ProbeTtls(l.s.registered) == Appended(l)
    ensures l.phase == Returned(AllAnswered) ==> |l.past| == Pos(cfg.count)
  {
    ReachableInv(cfg, l);
  }

  // Some response found the probe outstanding and expired.
  predicate ExpiredAtResponse(cfg: Config, l: Local, es: seq<Event>, p: Probe)
    requires Legal(cfg, l, es)
    decreases |es|
  {
    es != [] &&
    ((es[0].Match? && p in l.s.probes && es[0].res.time - p.time > cfg.timeout)
     || ExpiredAtResponse(cfg, Next(cfg, l, es[0]), es[1..], p))
  }

  lemma {:induction false} PurgedOnRun(cfg: Config, l: Local, es: seq<Event>, p: Probe)
    requires Legal(cfg, l, es)
    ensures p in Exec(cfg, l, es).s.purged <==> p in l.s.purged || ExpiredAtResponse(cfg, l, es, p)
    decreases |es|
  {
    if es == [] {
    } else {
      if es[0].Match? {
        SelectMeans(l.s.probes, es[0].res, cfg.timeout, p);
      }
      PurgedOnRun(cfg, Next(cfg, l, es[0]), es[1..], p);
    }
  }

  // In every run: a probe is purged if and only if it was outstanding and expired when some
  // response was handled.
  lemma PurgedIff(cfg: Config, ip: IP, es: seq<Event>, p: Probe)
    requires Legal(cfg, Init(cfg, ip), es)
    ensures p in Exec(cfg, Init(cfg, ip), es).s.purged <==> ExpiredAtResponse(cfg, Init(cfg, ip), es, p)
  {
    PurgedOnRun(cfg, Init(cfg, ip), es, p);
  }

  // Probes are abandoned at Close only.
  lemma {:induction false} AbandonedAtClose(cfg: Config, l: Local, es: seq<Event>)
    requires Legal(cfg, l, es) && (l.phase != Closed ==> l.s.abandoned == [])
    ensures Exec(cfg, l, es).phase != Closed ==> Exec(cfg, l, es).s.abandoned == []
    decreases |es|
  {
    if es == [] {
    } else {
      AbandonedAtClose(cfg, Next(cfg, l, es[0]), es[1..]);
    }
  }

  // The exit is taken exactly when no outstanding probe is covered by the bound.
  lemma ExitTakenIff(cfg: Config, l: Local)
    requires l.phase == Checking
    ensures Next(cfg, l, CheckDone).phase == Returned(AllAnswered) <==> forall p :: p in l.s.probes ==> p.ttl > l.bound
    ensures Next(cfg, l, CheckDone).phase == Draining <==> exists p :: p in l.s.probes && p.ttl <= l.bound
  {
  }

  // Leaving through isDone: each probe the final bound covers was matched or had expired.
  lemma AllAnsweredMeansAnswered(cfg: Config, l: Local, p: Probe)
    requires Reachable(cfg, l) && l.phase == Returned(AllAnswered)
    requires p in l.s.registered && p.ttl <= l.bound
    ensures p in l.s.matched || p in l.s.purged
  {
    ReachableInv(cfg, l);
    var es :| Legal(cfg, Init(cfg, l.ip), es) && Exec(cfg, Init(cfg, l.ip), es) == l;
    AbandonedAtClose(cfg, Init(cfg, l.ip), es);
    L.ExactlyOnePlace(l.s, p);
    assert p !in l.s.probes;
  }

  // One more event at the end of a run.
  lemma Chain(cfg: Config, l: Local, es: seq<Event>, e: Event)
    requires Legal(cfg, l, es) && Enabled(cfg, Exec(cfg, l, es), e)
    ensures Legal(cfg, l, es + [e]) && Exec(cfg, l, es + [e]) == Next(cfg, Exec(cfg, l, es), e)
  {
    var m := Exec(cfg, l, es);
    var last := [e];
    assert last[0] == e && last[1..] == [];
    assert Legal(cfg, Next(cfg, m, e), last[1..]) && Exec(cfg, Next(cfg, m, e), last[1..]) == Next(cfg, m, e);
    assert Legal(cfg, m, last) && Exec(cfg, m, last) == Next(cfg, m, e);
    ExecConcat(cfg, l, es, [e]);
  }

  lemma ReachableNext(cfg: Config, l: Local, e: Event)
    requires Reachable(cfg, l) && Enabled(cfg, l, e)
    ensures Reachable(cfg, Next(cfg, l, e))
  {
    var es :| Legal(cfg, Init(cfg, l.ip), es) && Exec(cfg, Init(cfg, l.ip), es) == l;
    Chain(cfg, Init(cfg, l.ip), es, e);
  }

  // ---------- the drain ----------

  // Steps of the drain that consume something.
  function Effective(cfg: Config, l: Local, es: seq<Event>): nat
    requires Legal(cfg, l, es)
    decreases |es|
  {
    if es == [] then 0
    else
      var e := es[0];
      var m := Next(cfg, l, e);
      (if e.Push? || e.Receive? || (e.Match? && m.s.probes != l.s.probes) then 1 else 0) + Effective(cfg, m, es[1..])
  }

  predicate PastLadder(l: Local) {
    l.phase == Checking || l.phase == Draining || l.phase.Returned? || l.phase == Closed
  }

  // After the ladder only finitely many steps match, purge, push or receive anything.
  lemma {:induction false} DrainIsFinite(cfg: Config, l: Local, es: seq<Event>)
    requires PastLadder(l) && |l.s.ch| <= CHANNEL_CAPACITY && Legal(cfg, l, es)
    ensures PastLadder(Exec(cfg, l, es))
    ensures Effective(cfg, l, es) + L.Pending(Exec(cfg, l, es).s) <= L.Pending(l.s)
    decreases |es|
  {
    if es == [] {
    } else {
      var e := es[0];
      SessionStepSound(cfg, l, e);
      match SessionStep(l, e) {
        case Some(st) => L.PendingDecreases(l.s, st, cfg.timeout);
        case None =>
      }
      DrainIsFinite(cfg, Next(cfg, l, e), es[1..]);
    }
  }

  // ---------- the driver always comes back ----------

  // A cancellation is heard in either select, the deadline in the drain, and each ends the call.
  lemma WaitsCanEnd(cfg: Config, l: Local)
    ensures Enabled(cfg, l, Cancel) <==> l.phase == Selecting || l.phase == Draining
    ensures Enabled(cfg, l, Deadline) <==> l.phase == Draining
    ensures Enabled(cfg, l, Cancel) ==> Next(cfg, l, Cancel) == l.(phase := Returned(Cancelled))
    ensures Enabled(cfg, l, Deadline) ==> Next(cfg, l, Deadline) == l.(phase := Returned(DeadlineReached))
    ensures Enabled(cfg, l, Receive) <==> (l.phase == Selecting || l.phase == Draining) && l.s.ch != []
  {
  }

  lemma {:induction false} OutcomeOnRun(cfg: Config, l: Local, es: seq<Event>)
    requires Legal(cfg, l, es)
    ensures var m := Exec(cfg, l, es);
            && (m.phase == Closed <==> l.phase == Closed || Close in es)
            && (m.phase != Closed ==>
                  && (m.phase == Returned(Cancelled) <==> l.phase == Returned(Cancelled) || Cancel in es)
                  && (m.phase == Returned(DeadlineReached) <==> l.phase == Returned(DeadlineReached) || Deadline in es)
                  && (m.phase == Returned(SendFailed) <==> l.phase == Returned(SendFailed) || SendError in es))
    decreases |es|
  {
    if es == [] {
    } else {
      assert es == [es[0]] + es[1..];
      OutcomeOnRun(cfg, Next(cfg, l, es[0]), es[1..]);
    }
  }

  // What a call returns is what happened to it: a cancellation, the deadline or a failed send, each
  // if and only if the run has one, and otherwise only the isDone exit.
  lemma OutcomeIff(cfg: Config, ip: IP, es: seq<Event>)
    requires Legal(cfg, Init(cfg, ip), es)
    ensures var l := Exec(cfg, Init(cfg, ip), es);
            && (l.phase == Closed <==> Close in es)
            && (l.phase != Closed ==>
                  && (l.phase == Returned(Cancelled) <==> Cancel in es)
                  && (l.phase == Returned(DeadlineReached) <==> Deadline in es)
                  && (l.phase == Returned(SendFailed) <==> SendError in es))
  {
    OutcomeOnRun(cfg, Init(cfg, ip), es);
  }

  predicate IsGoroutine(e: Event) {
    e.Match? || e.Push?
  }

  lemma NextMove(cfg: Config, l: Local) returns (e: Event)
    requires LadderInv(cfg, l) && !l.phase.Returned? && l.phase != Closed
    ensures !IsGoroutine(e) && Enabled(cfg, l, e)
  {
    match l.phase
    case Ladder =>
      e := if |l.past| >= cfg.count then LadderEnd else if MaySend(cfg, l) then SendError else NextRound;
    case Sending(p) => e := Append;
    case Selecting => e := DelayFires;
    case Checking => e := CheckDone;
    case Draining => e := Deadline;
  }

  // Until it has returned the driver has a step to take, whatever the network does; after that only
  // replies in transit keep it from closing, and these can always be pushed.
  lemma NeverStuck(cfg: Config, l: Local)
    requires Reachable(cfg, l)
    ensures !l.phase.Returned? && l.phase != Closed ==> exists e :: !IsGoroutine(e) && Enabled(cfg, l, e)
    ensures l.phase.Returned? ==> (Enabled(cfg, l, Close) <==> l.s.transit == [])
    ensures l.s.transit != [] && l.phase != Closed ==> Enabled(cfg, l, Push(0))
  {
    ReachableInv(cfg, l);
    if !l.phase.Returned? && l.phase != Closed {
      var e := NextMove(cfg, l);
    }
  }

  function PhaseWeight(p: Phase): nat {
    match p
    case Sending(_) => 13
    case Selecting => 6
    case Ladder => 5
    case Checking => 4
    case Draining => 3
    case Returned(_) => 1
    case Closed => 0
  }

  // Probes handed to the network so far.
  function Attempts(l: Local): nat {
    |Flat(l.past)| + |l.current|
  }

  lemma RoundsWithin(p: nat, c: nat, cur: nat, m: nat, flat: nat)
    requires flat <= p * m && p <= c && cur <= m && (cur > 0 ==> p < c)
    ensures flat + cur <= c * m
  {
    MulMono(p, c, m);
    if cur > 0 {
      MulMono(p + 1, c, m);
      assert (p + 1) * m == p * m + m;
    }
  }

  lemma AttemptsWithinBudget(cfg: Config, l: Local)
    requires LadderInv(cfg, l)
    ensures Attempts(l) <= Budget(cfg)
  {
    forall r | r in l.past
      ensures |r| <= Pos(cfg.maxHops)
    {
      RoundLength(r, cfg.maxHops);
    }
    FlatLength(l.past, Pos(cfg.maxHops));
    RoundLength(l.current, cfg.maxHops);
    RoundsWithin(|l.past|, Pos(cfg.count), |l.current|, Pos(cfg.maxHops), |Flat(l.past)|);
  }

  // What is left to do: probes to send, replies to expect and hand on, rounds, and the phase.
  function Left(cfg: Config, l: Local): int {
    10 * (Budget(cfg) - Attempts(l)) + 2 * L.Pending(l.s) + (Pos(cfg.count) - |l.past|) + PhaseWeight(l.phase)
  }

  lemma FlatLengthSnoc(rounds: seq<seq<Sent>>, r: seq<Sent>)
    ensures |Flat(rounds + [r])| == |Flat(rounds)| + |r|
  {
    FlatSnoc(rounds, r);
  }

  lemma SessionLeft(cfg: Config, l: Local, e: Event)
    requires Inv(cfg, l) && Enabled(cfg, l, e)
    ensures e.Append? ==> L.Pending(Next(cfg, l, e).s) == L.Pending(l.s) + 3
    ensures !e.Append? ==> L.Pending(Next(cfg, l, e).s) <= L.Pending(l.s)
    ensures e.Receive? || e.Push? ==> L.Pending(Next(cfg, l, e).s) < L.Pending(l.s)
  {
    SessionStepSound(cfg, l, e);
    match SessionStep(l, e) {
      case Some(st) =>
        if !st.Register? {
          L.PendingDecreases(l.s, st, cfg.timeout);
        }
      case None =>
    }
  }

  lemma AttemptsStep(cfg: Config, l: Local, e: Event)
    requires Enabled(cfg, l, e)
    ensures Attempts(Next(cfg, l, e)) == Attempts(l) + if e.Send? then 1 else 0
    ensures |Next(cfg, l, e).past| == |l.past| + if e.NextRound? then 1 else 0
  {
    if e.NextRound? {
      FlatLengthSnoc(l.past, l.current);
    }
  }

  lemma WeightStep(cfg: Config, l: Local, e: Event)
    requires Enabled(cfg, l, e)
    ensures var before, after := PhaseWeight(l.phase), PhaseWeight(Next(cfg, l, e).phase);
            if e.Send? then after == before + 8
            else if e.Append? then after == before - 7
            else if e.Receive? then after <= before + 1
            else if e.NextRound? || IsGoroutine(e) then after == before
            else after < before
  {
  }

  lemma LeftDecreases(cfg: Config, l: Local, e: Event)
    requires Inv(cfg, l) && Enabled(cfg, l, e)
    ensures Left(cfg, Next(cfg, l, e)) <= Left(cfg, l)
    ensures !e.Match? ==> Left(cfg, Next(cfg, l, e)) < Left(cfg, l)
  {
    SessionLeft(cfg, l, e);
    AttemptsStep(cfg, l, e);
    WeightStep(cfg, l, e);
  }

  // Events of a run other than responses served.
  function Steps(es: seq<Event>): nat {
    if es == [] then 0 else Steps(es[1..]) + if es[0].Match? then 0 else 1
  }

  lemma {:induction false} StepsBounded(cfg: Config, l: Local, es: seq<Event>)
    requires Inv(cfg, l) && Legal(cfg, l, es)
    ensures Inv(cfg, Exec(cfg, l, es)) && Steps(es) + Left(cfg, Exec(cfg, l, es)) <= Left(cfg, l)
    decreases |es|
  {
    if es == [] {
    } else {
      InvKept(cfg, l, es[0]);
      LeftDecreases(cfg, l, es[0]);
      StepsBounded(cfg, Next(cfg, l, es[0]), es[1..]);
    }
  }

  // One call takes a bounded number of steps, pushes included, whatever responses arrive and however
  // many: with NeverStuck, it returns unless it waits in the drain for a deadline that never comes.
  lemma TraceIsFinite(cfg: Config, ip: IP, es: seq<Event>)
    requires Legal(cfg, Init(cfg, ip), es)
    ensures Steps(es) <= 10 * Budget(cfg) + Pos(cfg.count) + 5
  {
    InitInv(cfg, ip);
    StepsBounded(cfg, Init(cfg, ip), es);
    AttemptsWithinBudget(cfg, Exec(cfg, Init(cfg, ip), es));
  }

  // ---------- the gap between send and append ----------

  lemma {:induction false} GapRun(cfg: Config, l: Local, es: seq<Event>)
    requires Inv(cfg, l) && l.phase.Sending? && Legal(cfg, l, es)
    requires forall e :: e in es ==> e.Match? || e.Push?
    ensures var m := Exec(cfg, l, es); Inv(cfg, m) && m.phase == l.phase && m.s.registered == l.s.registered
    decreases |es|
  {
    if es == [] {
    } else {
      assert es[0].Match? || es[0].Push?;
      InvKept(cfg, l, es[0]);
      GapRun(cfg, Next(cfg, l, es[0]), es[1..]);
    }
  }

  // Whatever the reply goroutines do before the append, the probe is outstanding after it:
  // an answer to it that arrives in the gap is lost.
  lemma GapAnswersMissed(cfg: Config, l: Local, es: seq<Event>)
    requires Reachable(cfg, l) && l.phase.Sending? && Legal(cfg, l, es)
    requires forall e :: e in es ==> e.Match? || e.Push?
    ensures var m := Exec(cfg, l, es);
            && Enabled(cfg, m, Append)
            && l.phase.p in Next(cfg, m, Append).s.probes
            && l.phase.p !in Next(cfg, m, Append).s.answered
  {
    ReachableInv(cfg, l);
    GapRun(cfg, l, es);
    var m := Exec(cfg, l, es);
    if l.phase.p in m.s.answered {
      AnsweredRegistered(cfg, m, l.phase.p);
    }
  }
}
