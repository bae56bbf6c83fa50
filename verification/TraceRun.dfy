/** Tracer.Trace driving one session: the TTL ladder with its shrinking bound, the drain, and
    every interleaving with the reply goroutines (traceroute/tracer.go). */
module TraceRun {
  import opened Probes
  import opened Wrappers
  import L = SessionLog

  datatype Config = Config(timeout: int, maxHops: int, count: int)

  datatype Outcome = AllAnswered | DeadlineReached | Cancelled | SendFailed

  // Where the driver is: at a loop head, between a send and its append, in the select,
  // about to call isDone, in the drain's select, returned, or closed.
  datatype Phase =
    | Ladder | Sending(p: Probe) | Selecting | Checking | Draining
    | Returned(outcome: Outcome) | Closed

  // A TTL that was sent, with the value of max at that moment.
  datatype Sent = Sent(ttl: int, bound: int)

  datatype Local = Local(ip: IP, s: L.State, phase: Phase, ttl: int, bound: int,
                         past: seq<seq<Sent>>, current: seq<Sent>)

  datatype Event =
    | Send(p: Probe) | SendError | Append | DelayFires | Receive | NextRound | LadderEnd
    | CheckDone | Deadline | Cancel | Close
    | Match(res: Answer) | Push(k: nat)

  function Init(cfg: Config, ip: IP): Local {
    Local(ip, L.EMPTY, Ladder, 1, cfg.maxHops, [], [])
  }

  predicate MaySend(cfg: Config, l: Local) {
    l.phase == Ladder && |l.past| < cfg.count && l.ttl <= cfg.maxHops && l.ttl <= l.bound
  }

  predicate Enabled(cfg: Config, l: Local, e: Event) {
    match e
    case Send(p) => MaySend(cfg, l) && p.dst == l.ip && p.ttl == l.ttl && L.Enabled(l.s, L.Register(p))
    case SendError => MaySend(cfg, l)
    case Append => l.phase.Sending? && L.Enabled(l.s, L.Register(l.phase.p))
    case DelayFires => l.phase == Selecting
    case Receive => (l.phase == Selecting || l.phase == Draining) && L.Enabled(l.s, L.Take)
    case NextRound => l.phase == Ladder && |l.past| < cfg.count && !MaySend(cfg, l)
    case LadderEnd => l.phase == Ladder && |l.past| >= cfg.count
    case CheckDone => l.phase == Checking
    case Deadline => l.phase == Draining
    case Cancel => l.phase == Selecting || l.phase == Draining
    case Close => l.phase.Returned? && L.Enabled(l.s, L.Abandon)
    case Match(res) => l.phase != Closed && L.Enabled(l.s, L.Match(res))
    case Push(k) => l.phase != Closed && L.Enabled(l.s, L.Push(k))
  }

  // A destination reply with fewer hops lowers the bound.
  function Lower(bound: int, r: Reply, ip: IP): int {
    if bound > r.hops && ip == r.ip then r.hops else bound
  }

  predicate IsDone(l: Local) {
    forall p :: p in l.s.probes ==> p.ttl > l.bound
  }

  function Next(cfg: Config, l: Local, e: Event): Local
    requires Enabled(cfg, l, e)
  {
    match e
    case Send(p) => l.(phase := Sending(p), current := l.current + [Sent(l.ttl, l.bound)])
    case SendError => l.(phase := Returned(SendFailed))
    case Append => l.(phase := Selecting, s := L.Next(l.s, L.Register(l.phase.p), cfg.timeout))
    case DelayFires => l.(phase := Ladder, ttl := l.ttl + 1)
    case Receive =>
      var l1 := l.(s := L.Next(l.s, L.Take, cfg.timeout), bound := Lower(l.bound, l.s.ch[0], l.ip));
      if l.phase == Selecting then l1.(phase := Ladder, ttl := l.ttl + 1) else l1.(phase := Checking)
    case NextRound => l.(past := l.past + [l.current], current := [], ttl := 1)
    case LadderEnd => l.(phase := Checking)
    case CheckDone => l.(phase := if IsDone(l) then Returned(AllAnswered) else Draining)
    case Deadline => l.(phase := Returned(DeadlineReached))
    case Cancel => l.(phase := Returned(Cancelled))
    case Close => l.(phase := Closed, s := L.Next(l.s, L.Abandon, cfg.timeout))
    case Match(res) => l.(s := L.Next(l.s, L.Match(res), cfg.timeout))
    case Push(k) => l.(s := L.Next(l.s, L.Push(k), cfg.timeout))
  }

  predicate Legal(cfg: Config, l: Local, es: seq<Event>)
    decreases |es|
  {
    es == [] || (Enabled(cfg, l, es[0]) && Legal(cfg, Next(cfg, l, es[0]), es[1..]))
  }

  function Exec(cfg: Config, l: Local, es: seq<Event>): Local
    requires Legal(cfg, l, es)
    decreases |es|
  {
    if es == [] then l else Exec(cfg, Next(cfg, l, es[0]), es[1..])
  }

  ghost predicate Reachable(cfg: Config, l: Local) {
    exists es :: Legal(cfg, Init(cfg, l.ip), es) && Exec(cfg, Init(cfg, l.ip), es) == l
  }

  lemma {:induction false} ExecConcat(cfg: Config, l: Local, es: seq<Event>, more: seq<Event>)
    requires Legal(cfg, l, es) && Legal(cfg, Exec(cfg, l, es), more)
    ensures Legal(cfg, l, es + more) && Exec(cfg, l, es + more) == Exec(cfg, Exec(cfg, l, es), more)
    decreases |es|
  {
    if es == [] {
      assert es + more == more;
    } else {
      assert (es + more)[1..] == es[1..] + more;
      ExecConcat(cfg, Next(cfg, l, es[0]), es[1..], more);
    }
  }

  // ---------- the ladder ----------

  function Pos(x: int): nat {
    if x < 0 then 0 else x
  }

  // The most probes one call of Trace can send.
  function Budget(cfg: Config): nat {
    Pos(cfg.count) * Pos(cfg.maxHops)
  }

  function Ttls(r: seq<Sent>): seq<int> {
    seq(|r|, i requires 0 <= i < |r| => r[i].ttl)
  }

  function Flat(rounds: seq<seq<Sent>>): seq<int> {
    if rounds == [] then [] else Flat(rounds[..|rounds| - 1]) + Ttls(rounds[|rounds| - 1])
  }

  function ProbeTtls(ps: seq<Probe>): seq<int> {
    seq(|ps|, i requires 0 <= i < |ps| => ps[i].ttl)
  }

  // A round sends 1, 2, 3, ... and never above the bound in force.
  ghost predicate RoundOk(r: seq<Sent>, maxHops: int) {
    forall j :: 0 <= j < |r| ==> r[j].ttl == j + 1 && r[j].ttl <= r[j].bound <= maxHops
  }

  // The probes already appended: all that were sent, but for one still on its way.
  function Appended(l: Local): seq<int> {
    Flat(l.past) + Ttls(if l.phase.Sending? && l.current != [] then l.current[..|l.current| - 1] else l.current)
  }

  ghost predicate LadderInv(cfg: Config, l: Local) {
    && l.bound <= cfg.maxHops
    && 1 <= l.ttl
    && |l.past| <= Pos(cfg.count)
    && RoundOk(l.current, cfg.maxHops)
    && (forall r :: r in l.past ==> RoundOk(r, cfg.maxHops) && l.bound <= |r| <= Pos(cfg.maxHops))
    && (forall j :: 0 <= j < |l.current| ==> l.bound <= l.current[j].bound)
    && (l.phase == Ladder ==> |l.current| == l.ttl - 1)
    && (l.phase.Sending? || l.phase == Selecting ==> |l.current| == l.ttl && |l.past| < cfg.count)
    && (l.phase.Sending? ==>
          && l.phase.p.ttl == l.ttl && l.phase.p.dst == l.ip
          && forall q :: q in l.s.registered ==> q.serial < l.phase.p.serial)
    && (l.phase in {Checking, Draining, Returned(AllAnswered), Returned(DeadlineReached)}
        ==> |l.past| == Pos(cfg.count) && l.current == [])
    && (l.current != [] ==> |l.past| < cfg.count)
    && ProbeTtls(l.s.registered) == Appended(l)
    && (forall p :: p in l.s.registered ==> p.dst == l.ip)
  }

  lemma SendKeepsLadder(cfg: Config, l: Local, p: Probe)
    requires LadderInv(cfg, l) && Enabled(cfg, l, Send(p))
    ensures LadderInv(cfg, Next(cfg, l, Send(p)))
  {
    var m := Next(cfg, l, Send(p));
    assert m.current[..|m.current| - 1] == l.current;
    assert Appended(m) == Appended(l);
  }

  lemma TtlsSnoc(r: seq<Sent>)
    requires r != []
    ensures Ttls(r) == Ttls(r[..|r| - 1]) + [r[|r| - 1].ttl]
  {
  }

  lemma ProbeTtlsSnoc(ps: seq<Probe>, p: Probe)
    ensures ProbeTtls(ps + [p]) == ProbeTtls(ps) + [p.ttl]
  {
  }

  lemma AppendKeepsLadder(cfg: Config, l: Local)
    requires LadderInv(cfg, l) && Enabled(cfg, l, Append)
    ensures LadderInv(cfg, Next(cfg, l, Append))
  {
    var m := Next(cfg, l, Append);
    assert ProbeTtls(m.s.registered) == Appended(m) by {
      ProbeTtlsSnoc(l.s.registered, l.phase.p);
      TtlsSnoc(l.current);
    }
    assert m.past == l.past && m.current == l.current;
  }

  lemma NextRoundKeepsLadder(cfg: Config, l: Local)
    requires LadderInv(cfg, l) && Enabled(cfg, l, NextRound)
    ensures LadderInv(cfg, Next(cfg, l, NextRound))
  {
    var m := Next(cfg, l, NextRound);
    FlatSnoc(l.past, l.current);
    assert l.bound <= |l.current|;
    assert l.current != [] ==> l.current[|l.current| - 1].ttl <= cfg.maxHops;
    forall r | r in m.past
      ensures RoundOk(r, cfg.maxHops) && m.bound <= |r| <= Pos(cfg.maxHops)
    {
      assert r in l.past || r == l.current;
    }
  }

  lemma FlatSnoc(rounds: seq<seq<Sent>>, r: seq<Sent>)
    ensures Flat(rounds + [r]) + Ttls([]) == Flat(rounds) + Ttls(r)
  {
    assert (rounds + [r])[..|rounds|] == rounds;
  }

  // A reply handed on can only lower the bound.
  lemma ReceiveKeepsLadder(cfg: Config, l: Local)
    requires LadderInv(cfg, l) && Enabled(cfg, l, Receive)
    ensures LadderInv(cfg, Next(cfg, l, Receive))
  {
    var m := Next(cfg, l, Receive);
    assert m.bound <= l.bound;
    assert Appended(m) == Appended(l);
  }

  // The driver moves on without sending, receiving or finishing a round.
  lemma DriverKeepsLadder(cfg: Config, l: Local, e: Event)
    requires LadderInv(cfg, l) && Enabled(cfg, l, e)
    requires e.SendError? || e.DelayFires? || e.LadderEnd? || e.CheckDone? || e.Deadline? || e.Cancel?
    ensures LadderInv(cfg, Next(cfg, l, e))
  {
    var m := Next(cfg, l, e);
    assert m.s == l.s && m.past == l.past && m.current == l.current;
    assert Appended(m) == Appended(l);
  }

  // A reply goroutine changes nothing the ladder depends on.
  lemma GoroutineKeepsLadder(cfg: Config, l: Local, e: Event)
    requires LadderInv(cfg, l) && Enabled(cfg, l, e) && (e.Match? || e.Push?)
    ensures LadderInv(cfg, Next(cfg, l, e))
  {
    match e {
      case Match(res) => LadderFrame(cfg, l, L.Next(l.s, L.Match(res), cfg.timeout));
      case Push(k) => LadderFrame(cfg, l, L.Next(l.s, L.Push(k), cfg.timeout));
    }
  }

  lemma LadderFrame(cfg: Config, l: Local, s: L.State)
    requires LadderInv(cfg, l) && s.registered == l.s.registered
    ensures LadderInv(cfg, l.(s := s))
  {
  }

  lemma CloseKeepsLadder(cfg: Config, l: Local)
    requires LadderInv(cfg, l) && Enabled(cfg, l, Close)
    ensures LadderInv(cfg, Next(cfg, l, Close))
  {
    var m := Next(cfg, l, Close);
    assert m == l.(s := m.s, phase := Closed) && m.s.registered == l.s.registered;
  }

  lemma LadderInvKept(cfg: Config, l: Local, e: Event)
    requires LadderInv(cfg, l) && Enabled(cfg, l, e)
    ensures LadderInv(cfg, Next(cfg, l, e))
  {
    match e
    case Send(p) => SendKeepsLadder(cfg, l, p);
    case Append => AppendKeepsLadder(cfg, l);
    case NextRound => NextRoundKeepsLadder(cfg, l);
    case Receive => ReceiveKeepsLadder(cfg, l);
    case Close => CloseKeepsLadder(cfg, l);
    case Match(_) => GoroutineKeepsLadder(cfg, l, e);
    case Push(_) => GoroutineKeepsLadder(cfg, l, e);
    case _ => DriverKeepsLadder(cfg, l, e);
  }

  // ---------- the bound ----------

  // max is the least of MaxHops and the hop counts of the destination's replies handed on so far.
  ghost predicate BoundIsMinimum(cfg: Config, l: Local) {
    && l.bound <= cfg.maxHops
    && (forall r :: r in l.s.delivered && r.ip == l.ip ==> l.bound <= r.hops)
    && (l.bound == cfg.maxHops || exists r :: r in l.s.delivered && r.ip == l.ip && r.hops == l.bound)
  }

  lemma BoundKept(cfg: Config, l: Local, e: Event)
    requires BoundIsMinimum(cfg, l) && Enabled(cfg, l, e)
    ensures BoundIsMinimum(cfg, Next(cfg, l, e))
  {
    var m := Next(cfg, l, e);
    if e == Receive {
      var r := l.s.ch[0];
      assert r in m.s.delivered;
      assert forall q :: q in l.s.delivered ==> q in m.s.delivered;
    } else {
      assert m.s.delivered == l.s.delivered;
    }
  }

  // Returning because isDone said so leaves no outstanding probe the bound still covers.
  ghost predicate ExitClean(l: Local) {
    l.phase == Returned(AllAnswered) ==> IsDone(l)
  }

  lemma ExitKept(cfg: Config, l: Local, e: Event)
    requires ExitClean(l) && Enabled(cfg, l, e)
    ensures ExitClean(Next(cfg, l, e))
  {
    if e.Match? && l.phase == Returned(AllAnswered) {
      forall p | p in Next(cfg, l, e).s.probes
        ensures p in l.s.probes
      {
        SelectMember(l.s.probes, e.res, cfg.timeout, Keep, p);
      }
    }
  }

  ghost predicate Inv(cfg: Config, l: Local) {
    L.Inv(l.s, cfg.timeout) && LadderInv(cfg, l) && BoundIsMinimum(cfg, l) && ExitClean(l)
  }

  // The session step an event makes, if it makes one.
  function SessionStep(l: Local, e: Event): Option<L.Step> {
    match e
    case Append => if l.phase.Sending? then Some(L.Register(l.phase.p)) else None
    case Receive => Some(L.Take)
    case Close => Some(L.Abandon)
    case Match(res) => Some(L.Match(res))
    case Push(k) => Some(L.Push(k))
    case _ => None
  }

  lemma SessionStepSound(cfg: Config, l: Local, e: Event)
    requires Enabled(cfg, l, e)
    ensures match SessionStep(l, e)
            case Some(st) => L.Enabled(l.s, st) && Next(cfg, l, e).s == L.Next(l.s, st, cfg.timeout)
            case None => Next(cfg, l, e).s == l.s
  {
  }

  lemma InvKept(cfg: Config, l: Local, e: Event)
    requires Inv(cfg, l) && Enabled(cfg, l, e)
    ensures Inv(cfg, Next(cfg, l, e))
  {
    SessionStepSound(cfg, l, e);
    match SessionStep(l, e) {
      case Some(st) => L.NextKeepsInv(l.s, st, cfg.timeout);
      case None =>
    }
    LadderInvKept(cfg, l, e);
    BoundKept(cfg, l, e);
    ExitKept(cfg, l, e);
  }

  lemma {:induction false} InvOnRun(cfg: Config, l: Local, es: seq<Event>)
    requires Inv(cfg, l) && Legal(cfg, l, es)
    ensures Inv(cfg, Exec(cfg, l, es))
    decreases |es|
  {
    if es == [] {
    } else {
      InvKept(cfg, l, es[0]);
      InvOnRun(cfg, Next(cfg, l, es[0]), es[1..]);
    }
  }

  lemma InitInv(cfg: Config, ip: IP)
    ensures Inv(cfg, Init(cfg, ip))
  {
  }

  lemma ReachableInv(cfg: Config, l: Local)
    requires Reachable(cfg, l)
    ensures Inv(cfg, l)
  {
    var es :| Legal(cfg, Init(cfg, l.ip), es) && Exec(cfg, Init(cfg, l.ip), es) == l;
    InitInv(cfg, l.ip);
    InvOnRun(cfg, Init(cfg, l.ip), es);
  }
}
