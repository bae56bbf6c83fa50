/** One session as a state with its history, and what every interleaving of Ping's append,
    reply goroutines and the driver's receive does to it (traceroute/tracer.go). The locked
    part of handle and its push are separate steps: the goroutine can be delayed in between. */
module SessionLog {
  import opened Probes
  import opened Wrappers

  datatype State = State(
    // the session itself: outstanding probes, channel, replies matched but not yet pushed
    probes: seq<Probe>, ch: seq<Reply>, transit: seq<Reply>,
    // history of probes
    registered: seq<Probe>, purged: seq<Probe>, matched: seq<Probe>, abandoned: seq<Probe>,
    // history of replies; produced[k] was made for the probe answered[k] from the response heard[k],
    // and accepted are the pushes that found room, in their order
    answered: seq<Probe>, heard: seq<Answer>, produced: seq<Reply>, accepted: seq<Reply>,
    delivered: seq<Reply>, dropped: seq<Reply>)

  const EMPTY: State := State([], [], [], [], [], [], [], [], [], [], [], [], [])

  datatype Step =
    | Register(p: Probe)
    | Match(res: Answer)
    | Push(k: nat)
    | Take
    | Abandon

  predicate Enabled(s: State, e: Step) {
    match e
    case Register(p) => forall q :: q in s.registered ==> q.serial < p.serial
    case Match(res) => 0 <= res.ttl
    case Push(k) => k < |s.transit|
    case Take => s.ch != []
    case Abandon => s.transit == []
  }

  function Next(s: State, e: Step, timeout: int): State
    requires Enabled(s, e)
  {
    match e
    case Register(p) => s.(probes := s.probes + [p], registered := s.registered + [p])
    case Match(res) =>
      var hits := Select(s.probes, res, timeout, Hit);
      var s1 := s.(probes := Select(s.probes, res, timeout, Keep),
                   purged := s.purged + Select(s.probes, res, timeout, Purge),
                   matched := s.matched + hits);
      (match Last(hits)
       case None => s1
       case Some(p) =>
         var r := MakeReply(p, res);
         s1.(transit := s.transit + [r],
             answered := s.answered + [p], heard := s.heard + [res], produced := s.produced + [r]))
    case Push(k) =>
      var r := s.transit[k];
      s.(transit := s.transit[..k] + s.transit[k + 1..],
         ch := Offer(s.ch, r),
         accepted := if |s.ch| < CHANNEL_CAPACITY then s.accepted + [r] else s.accepted,
         dropped := if |s.ch| < CHANNEL_CAPACITY then s.dropped else s.dropped + [r])
    case Take => s.(ch := s.ch[1..], delivered := s.delivered + [s.ch[0]])
    case Abandon => s.(probes := [], abandoned := s.abandoned + s.probes)
  }

  // A handle call that nothing delays: the match and, if it made a reply, the push of that reply.
  function Handled(s: State, res: Answer, timeout: int): State
    requires 0 <= res.ttl
  {
    var t := Next(s, Match(res), timeout);
    if |t.transit| == |s.transit| then t else Next(t, Push(|s.transit|), timeout)
  }

  // Registered probes have distinct serials, and each is in exactly one place.
  ghost predicate ProbesAccounted(s: State) {
    && Increasing(s.registered)
    && multiset(s.registered) == multiset(s.probes) + multiset(s.purged) + multiset(s.matched) + multiset(s.abandoned)
  }

  // Each reply was made for its own matched probe, and is in exactly one place; the channel is
  // first in, first out.
  ghost predicate RepliesAccounted(s: State, timeout: int) {
    && |s.answered| == |s.heard| == |s.produced|
    && (forall k :: 0 <= k < |s.produced| ==> Answers(s.produced[k], s.answered[k], s.heard[k], timeout))
    && multiset(s.answered) <= multiset(s.matched)
    && multiset(s.produced) == multiset(s.transit) + multiset(s.ch) + multiset(s.delivered) + multiset(s.dropped)
    && s.accepted == s.delivered + s.ch && |s.ch| <= CHANNEL_CAPACITY
  }

  ghost predicate Inv(s: State, timeout: int) {
    ProbesAccounted(s) && RepliesAccounted(s, timeout)
  }

  lemma LastOf(hits: seq<Probe>)
    requires hits != []
    ensures Last(hits) == Some(hits[|hits| - 1])
    ensures multiset([hits[|hits| - 1]]) <= multiset(hits)
  {
    assert hits == hits[..|hits| - 1] + [hits[|hits| - 1]];
  }

  lemma MatchKeepsProbes(s: State, res: Answer, timeout: int)
    requires ProbesAccounted(s) && 0 <= res.ttl
    ensures ProbesAccounted(Next(s, Match(res), timeout))
  {
    SelectPartition(s.probes, res, timeout);
    var t := Next(s, Match(res), timeout);
    assert multiset(t.probes) + multiset(t.purged) + multiset(t.matched)
        == multiset(s.probes) + multiset(s.purged) + multiset(s.matched);
  }

  lemma MatchKeepsReplies(s: State, res: Answer, timeout: int)
    requires RepliesAccounted(s, timeout) && 0 <= res.ttl
    ensures RepliesAccounted(Next(s, Match(res), timeout), timeout)
  {
    var hits := Select(s.probes, res, timeout, Hit);
    if hits != [] {
      LastOf(hits);
      var p := hits[|hits| - 1];
      SelectMember(s.probes, res, timeout, Hit, p);
      ReplyAnswers(p, res, timeout);
      assert multiset(s.answered + [p]) <= multiset(s.matched + hits);
    }
  }

  lemma RegisterKeepsInv(s: State, p: Probe, timeout: int)
    requires Inv(s, timeout) && Enabled(s, Register(p))
    ensures Inv(Next(s, Register(p), timeout), timeout)
  {
    var t := Next(s, Register(p), timeout);
    forall i, j | 0 <= i < j < |t.registered|
      ensures t.registered[i].serial < t.registered[j].serial
    {
      assert t.registered[i] == s.registered[i];
    }
    assert RepliesAccounted(t, timeout);
  }

  lemma Removed<T>(s: seq<T>, k: nat)
    requires k < |s|
    ensures multiset(s[..k] + s[k + 1..]) + multiset{s[k]} == multiset(s)
  {
    assert s == s[..k] + [s[k]] + s[k + 1..];
  }

  lemma PushKeepsReplies(s: State, k: nat, timeout: int)
    requires RepliesAccounted(s, timeout) && k < |s.transit|
    ensures RepliesAccounted(Next(s, Push(k), timeout), timeout)
  {
    var t := Next(s, Push(k), timeout);
    Removed(s.transit, k);
    assert t.accepted == t.delivered + t.ch;
    assert multiset(t.ch) + multiset(t.dropped) == multiset(s.ch) + multiset(s.dropped) + multiset{s.transit[k]};
  }

  lemma TakeKeepsInv(s: State, timeout: int)
    requires Inv(s, timeout) && s.ch != []
    ensures Inv(Next(s, Take, timeout), timeout)
  {
    var t := Next(s, Take, timeout);
    assert s.ch == [s.ch[0]] + s.ch[1..];
    assert s.delivered + s.ch == (s.delivered + [s.ch[0]]) + s.ch[1..];
    assert ProbesAccounted(t);
  }

  lemma NextKeepsInv(s: State, e: Step, timeout: int)
    requires Inv(s, timeout) && Enabled(s, e)
    ensures Inv(Next(s, e, timeout), timeout)
  {
    match e
    case Register(p) => RegisterKeepsInv(s, p, timeout);
    case Match(res) =>
      MatchKeepsProbes(s, res, timeout);
      MatchKeepsReplies(s, res, timeout);
    case Push(k) =>
      PushKeepsReplies(s, k, timeout);
      assert ProbesAccounted(Next(s, e, timeout));
    case Take => TakeKeepsInv(s, timeout);
    case Abandon => assert ProbesAccounted(Next(s, e, timeout));
  }

  // Replies never outnumber registered probes.
  lemma RepliesBounded(s: State, timeout: int)
    requires Inv(s, timeout)
    ensures |s.transit| + |s.ch| + |s.delivered| + |s.dropped| == |s.produced|
    ensures |s.produced| <= |s.matched|
    ensures |s.probes| + |s.purged| + |s.matched| + |s.abandoned| == |s.registered|
  {
    assert |multiset(s.produced)| == |s.produced|;
    assert |multiset(s.matched)| == |multiset(s.answered)| + |multiset(s.matched) - multiset(s.answered)|;
    assert |multiset(s.registered)| == |s.registered|;
    assert |multiset(s.probes) + multiset(s.purged) + multiset(s.matched) + multiset(s.abandoned)|
        == |s.probes| + |s.purged| + |s.matched| + |s.abandoned|;
  }

  // Exactly one of the four places holds a registered probe, and holds it once.
  lemma ExactlyOnePlace(s: State, p: Probe)
    requires ProbesAccounted(s) && p in s.registered
    ensures multiset(s.probes)[p] + multiset(s.purged)[p] + multiset(s.matched)[p] + multiset(s.abandoned)[p] == 1
  {
    SerialsUnique(s.registered, p);
    assert multiset(s.registered)[p]
        == multiset(s.probes)[p] + multiset(s.purged)[p] + multiset(s.matched)[p] + multiset(s.abandoned)[p];
  }

  lemma {:induction false} SerialsUnique(ps: seq<Probe>, p: Probe)
    requires Increasing(ps) && p in ps
    ensures multiset(ps)[p] == 1
  {
    var front, l := ps[..|ps| - 1], ps[|ps| - 1];
    assert ps == front + [l];
    assert forall q :: q in front ==> q.serial < l.serial;
    if p == l {
      assert p !in front;
    } else {
      SerialsUnique(front, p);
    }
  }

  // With distinct IDs a fresh reply to an outstanding probe takes that probe, and makes one reply for it.
  lemma UniqueMatch(s: State, res: Answer, timeout: int, p: Probe)
    requires DistinctIds(s.probes) && 0 <= res.ttl
    requires p in s.probes && p.id == res.id && res.time - p.time <= timeout
    ensures var t := Next(s, Match(res), timeout);
            && t.matched == s.matched + [p]
            && t.answered == s.answered + [p]
            && t.produced == s.produced + [MakeReply(p, res)]
  {
    DistinctIdsOneHit(s.probes, res, timeout);
    SelectMember(s.probes, res, timeout, Hit, p);
    assert Select(s.probes, res, timeout, Hit) == [p];
  }

  // A response leaves a probe outstanding if and only if it is in time and has another ID.
  lemma MatchKeepsIff(s: State, res: Answer, timeout: int, p: Probe)
    requires 0 <= res.ttl && p in s.probes
    ensures p in Next(s, Match(res), timeout).probes <==> res.time - p.time <= timeout && p.id != res.id
  {
    SelectMeans(s.probes, res, timeout, p);
  }

  // It purges exactly the probes that have expired, and matches exactly those in time with its ID.
  lemma MatchTakesIff(s: State, res: Answer, timeout: int, p: Probe)
    requires 0 <= res.ttl
    ensures var t := Next(s, Match(res), timeout);
            && |s.purged| <= |t.purged| && t.purged[..|s.purged|] == s.purged
            && |s.matched| <= |t.matched| && t.matched[..|s.matched|] == s.matched
            && (p in t.purged[|s.purged|..] <==> p in s.probes && res.time - p.time > timeout)
            && (p in t.matched[|s.matched|..] <==> p in s.probes && res.time - p.time <= timeout && p.id == res.id)
  {
    SelectMeans(s.probes, res, timeout, p);
    var t := Next(s, Match(res), timeout);
    assert t.purged[|s.purged|..] == Select(s.probes, res, timeout, Purge);
    assert t.matched[|s.matched|..] == Select(s.probes, res, timeout, Hit);
  }

  lemma MatchPurgesExpired(s: State, res: Answer, timeout: int)
    requires 0 <= res.ttl
    ensures forall p :: p in Next(s, Match(res), timeout).purged && p !in s.purged ==> res.time - p.time > timeout
  {
    forall p | p in Next(s, Match(res), timeout).purged && p !in s.purged
      ensures res.time - p.time > timeout
    {
      SelectMeans(s.probes, res, timeout, p);
    }
  }

  // A reply that finds no outstanding probe in time with its ID is lost.
  lemma MatchAnswersIff(s: State, res: Answer, timeout: int)
    requires 0 <= res.ttl
    ensures |Next(s, Match(res), timeout).produced| == |s.produced| + 1
            <==> exists p :: p in s.probes && p.id == res.id && res.time - p.time <= timeout
  {
    var hits := Select(s.probes, res, timeout, Hit);
    if hits != [] {
      SelectMember(s.probes, res, timeout, Hit, hits[0]);
    }
    if p :| p in s.probes && p.id == res.id && res.time - p.time <= timeout {
      SelectMember(s.probes, res, timeout, Hit, p);
    }
  }

  // Termination measure of the drain phase.
  function Pending(s: State): nat {
    3 * |s.probes| + 2 * |s.transit| + |s.ch|
  }

  lemma PendingDecreases(s: State, e: Step, timeout: int)
    requires Enabled(s, e) && !e.Register? && |s.ch| <= CHANNEL_CAPACITY
    ensures Pending(Next(s, e, timeout)) <= Pending(s)
    ensures e.Push? || e.Take? ==> Pending(Next(s, e, timeout)) < Pending(s)
    ensures e.Match? && Select(s.probes, e.res, timeout, Keep) != s.probes ==> Pending(Next(s, e, timeout)) < Pending(s)
  {
    if e.Match? {
      SelectCard(s.probes, e.res, timeout);
      SelectAll(s.probes, e.res, timeout);
    }
  }

  lemma {:induction false} SelectAll(ps: seq<Probe>, res: Answer, timeout: int)
    ensures |Select(ps, res, timeout, Keep)| == |ps| ==> Select(ps, res, timeout, Keep) == ps
  {
    if ps == [] {
    } else {
      SelectCard(ps[..|ps| - 1], res, timeout);
      SelectAll(ps[..|ps| - 1], res, timeout);
      assert ps == ps[..|ps| - 1] + [ps[|ps| - 1]];
    }
  }
}
