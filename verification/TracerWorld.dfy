/** One Tracer with any number of sessions: the shared 32-bit request counter, the session
    table, the clock, and every interleaving of the sessions' steps (traceroute/tracer.go). */
module TracerWorld {
  import opened Probes
  import R = TraceRun
  import L = SessionLog
  import Sorting
  import T = TraceTheorems

  // sent counts requests without wrapping; counter is the wrapping uint32 the code keeps.
  datatype World = World(cfg: R.Config, now: int, sent: nat, counter: nat,
                         table: map<IP, seq<nat>>, locals: map<nat, R.Local>)

  datatype Event =
    | Open(id: nat, ip: IP)
    | Tick(now: int)
    | Act(id: nat, e: R.Event)

  function Start(cfg: R.Config, now: int): World {
    World(cfg, now, 0, 0, map[], map[])
  }

  // The request sendRequest builds: the low half of the wrapped counter is its ID.
  function Request(w: World, l: R.Local): Probe {
    Probe(w.sent + 1, l.ip, ((w.counter + 1) % COUNTER_SIZE) % ID_SIZE, l.ttl, w.now)
  }

  function Served(w: World, ip: IP): seq<nat> {
    if ip in w.table then w.table[ip] else []
  }

  predicate Enabled(w: World, ev: Event) {
    match ev
    case Open(id, ip) => id !in w.locals
    case Tick(now) => w.now <= now
    case Act(id, e) =>
      && id in w.locals
      && R.Enabled(w.cfg, w.locals[id], e)
      && (e.Send? ==> e.p == Request(w, w.locals[id]))
      && (e.Match? ==> id in Served(w, w.locals[id].ip) && e.res.time <= w.now)
  }

  function Next(w: World, ev: Event): World
    requires Enabled(w, ev)
  {
    match ev
    case Open(id, ip) =>
      w.(table := w.table[ip := Served(w, ip) + [id]], locals := w.locals[id := R.Init(w.cfg, ip)])
    case Tick(now) => w.(now := now)
    case Act(id, e) =>
      var l := w.locals[id];
      var w1 := w.(locals := w.locals[id := R.Next(w.cfg, l, e)]);
      if e.Send? || e.SendError? then
        w1.(sent := w.sent + 1, counter := (w.counter + 1) % COUNTER_SIZE)
      else if e.Close? then
        w1.(table := w.table - {l.ip})
      else w1
  }

  predicate Legal(w: World, es: seq<Event>)
    decreases |es|
  {
    es == [] || (Enabled(w, es[0]) && Legal(Next(w, es[0]), es[1..]))
  }

  function Exec(w: World, es: seq<Event>): World
    requires Legal(w, es)
    decreases |es|
  {
    if es == [] then w else Exec(Next(w, es[0]), es[1..])
  }

  // ---------- isolation ----------

  // What one session sees of a run.
  function Project(es: seq<Event>, id: nat): seq<R.Event> {
    if es == [] then []
    else (if es[0].Act? && es[0].id == id then [es[0].e] else []) + Project(es[1..], id)
  }

  // Projected on one session, every run of the tracer is a run of that session alone.
  lemma {:induction false} Isolation(w: World, es: seq<Event>, id: nat)
    requires Legal(w, es) && id in w.locals
    ensures var w' := Exec(w, es);
            && w'.cfg == w.cfg && id in w'.locals
            && R.Legal(w.cfg, w.locals[id], Project(es, id))
            && w'.locals[id] == R.Exec(w.cfg, w.locals[id], Project(es, id))
    decreases |es|
  {
    if es == [] {
    } else {
      var w1 := Next(w, es[0]);
      Isolation(w1, es[1..], id);
      var rest := Project(es[1..], id);
      if es[0].Act? && es[0].id == id {
        assert ([es[0].e] + rest)[1..] == rest;
      } else {
        assert Project(es, id) == rest;
      }
    }
  }

  ghost predicate AllReachable(w: World) {
    forall id :: id in w.locals ==> R.Reachable(w.cfg, w.locals[id])
  }

  lemma NextKeepsReachable(w: World, ev: Event)
    requires AllReachable(w) && Enabled(w, ev)
    ensures AllReachable(Next(w, ev)) && Next(w, ev).cfg == w.cfg
  {
    match ev
    case Open(id, ip) =>
      var l := R.Init(w.cfg, ip);
      assert R.Legal(w.cfg, l, []) && R.Exec(w.cfg, l, []) == l;
    case Tick(now) =>
    case Act(id, e) =>
      T.ReachableNext(w.cfg, w.locals[id], e);
  }

  // ---------- IDs ----------

  predicate Stamped(w: World, p: Probe) {
    p.serial <= w.sent && p.id == p.serial % ID_SIZE && p.time <= w.now
  }

  ghost predicate IdsFollowCounter(w: World) {
    && w.counter == w.sent % COUNTER_SIZE
    && (forall id, p :: id in w.locals && p in w.locals[id].s.registered ==> Stamped(w, p))
    && (forall id :: id in w.locals && w.locals[id].phase.Sending? ==> Stamped(w, w.locals[id].phase.p))
  }

  // No response was handled before it arrived.
  ghost predicate NothingEarly(w: World) {
    forall id, k: nat :: id in w.locals && k < |w.locals[id].s.heard| ==> w.locals[id].s.heard[k].time <= w.now
  }

  lemma NothingEarlyKept(w: World, ev: Event)
    requires NothingEarly(w) && Enabled(w, ev)
    ensures NothingEarly(Next(w, ev)) && w.now <= Next(w, ev).now
  {
  }

  // The clock stamps the next request, and no response after it.
  lemma TickStamps(w: World, now: int, l: R.Local)
    requires w.now <= now
    ensures Enabled(w, Tick(now)) && Request(Next(w, Tick(now)), l).time == now
  {
  }

  lemma ModUnique(k: int, r: nat)
    requires r < ID_SIZE
    ensures (k * ID_SIZE + r) % ID_SIZE == r
  {
  }

  lemma LowHalf(x: nat)
    ensures (x % COUNTER_SIZE) % ID_SIZE == x % ID_SIZE
  {
    var high, low := x / COUNTER_SIZE, x % COUNTER_SIZE;
    assert x == (high * ID_SIZE + low / ID_SIZE) * ID_SIZE + low % ID_SIZE;
    ModUnique(high * ID_SIZE + low / ID_SIZE, low % ID_SIZE);
  }

  // The 32-bit wrap does not disturb the 16-bit IDs.
  lemma RequestStamp(w: World, l: R.Local)
    requires w.counter == w.sent % COUNTER_SIZE
    ensures Request(w, l).id == (w.sent + 1) % ID_SIZE
    ensures (w.counter + 1) % COUNTER_SIZE == (w.sent + 1) % COUNTER_SIZE
  {
    assert (w.counter + 1) % COUNTER_SIZE == (w.sent + 1) % COUNTER_SIZE;
    LowHalf(w.sent + 1);
  }

  // Registered probes grow only by the one that was being sent.
  lemma RegisteredGrow(cfg: R.Config, l: R.Local, e: R.Event)
    requires R.Enabled(cfg, l, e)
    ensures var m := R.Next(cfg, l, e);
            && (forall p :: p in m.s.registered ==> p in l.s.registered || (l.phase.Sending? && p == l.phase.p))
            && (m.phase.Sending? ==> m.phase == l.phase || (e.Send? && m.phase.p == e.p))
  {
    R.SessionStepSound(cfg, l, e);
  }

  lemma ActKeepsIds(w: World, id: nat, e: R.Event)
    requires IdsFollowCounter(w) && Enabled(w, Act(id, e))
    ensures IdsFollowCounter(Next(w, Act(id, e)))
  {
    var w' := Next(w, Act(id, e));
    RequestStamp(w, w.locals[id]);
    RegisteredGrow(w.cfg, w.locals[id], e);
    assert w'.now == w.now && w'.sent >= w.sent;
    assert forall p :: Stamped(w, p) ==> Stamped(w', p);
  }

  lemma IdsKept(w: World, ev: Event)
    requires IdsFollowCounter(w) && Enabled(w, ev)
    ensures IdsFollowCounter(Next(w, ev))
  {
    match ev
    case Open(id, ip) =>
      assert forall p :: Stamped(w, p) ==> Stamped(Next(w, ev), p);
    case Tick(now) =>
      assert forall p :: Stamped(w, p) ==> Stamped(Next(w, ev), p);
    case Act(id, e) => ActKeepsIds(w, id, e);
  }

  lemma NearSerials(a: nat, b: nat)
    requires a != b && a - b < ID_SIZE && b - a < ID_SIZE
    ensures a % ID_SIZE != b % ID_SIZE
  {
    assert a == ID_SIZE * (a / ID_SIZE) + a % ID_SIZE;
    assert b == ID_SIZE * (b / ID_SIZE) + b % ID_SIZE;
  }

  lemma DifferentSerials(ps: seq<Probe>, p: Probe, q: Probe)
    requires Increasing(ps) && p in ps && q in ps && p != q
    ensures p.serial != q.serial
  {
    var i :| 0 <= i < |ps| && ps[i] == p;
    var j :| 0 <= j < |ps| && ps[j] == q;
    assert i < j || j < i;
  }

  // While fewer than 65536 requests separate the live probes of a session, their IDs differ.
  lemma LiveIdsDistinct(w: World, id: nat)
    requires IdsFollowCounter(w) && id in w.locals && R.Inv(w.cfg, w.locals[id])
    requires forall p :: p in w.locals[id].s.probes ==> w.sent - p.serial < ID_SIZE
    ensures forall p, q :: p in w.locals[id].s.probes && q in w.locals[id].s.probes && p != q ==> p.id != q.id
  {
    var s := w.locals[id].s;
    forall p, q | p in s.probes && q in s.probes && p != q
      ensures p.id != q.id
    {
      assert p in multiset(s.registered) && q in multiset(s.registered);
      DifferentSerials(s.registered, p, q);
      assert Stamped(w, p) && Stamped(w, q);
      NearSerials(p.serial, q.serial);
    }
  }

  // ---------- the session table ----------

  predicate IsOpen(w: World, id: nat) {
    id in w.locals && w.locals[id].phase != R.Closed
  }

  // Every open session is the one its address is mapped to, and nothing else is in the table.
  ghost predicate TableExact(w: World) {
    && (forall id: nat :: IsOpen(w, id) ==> w.locals[id].ip in w.table && w.table[w.locals[id].ip] == [id])
    && (forall ip :: ip in w.table ==>
          |w.table[ip]| == 1 && IsOpen(w, w.table[ip][0]) && w.locals[w.table[ip][0]].ip == ip)
  }

  // The code's stated assumption: an address is not traced twice at once.
  predicate OneSessionPerAddress(w: World, ev: Event) {
    ev.Open? ==> forall id :: id in w.locals && w.locals[id].phase != R.Closed ==> w.locals[id].ip != ev.ip
  }

  lemma OpenKeepsTable(w: World, id: nat, ip: IP)
    requires TableExact(w) && Enabled(w, Open(id, ip)) && OneSessionPerAddress(w, Open(id, ip))
    ensures TableExact(Next(w, Open(id, ip)))
  {
    var w' := Next(w, Open(id, ip));
    assert ip !in w.table;
    assert Served(w, ip) + [id] == [id];
    forall i: nat | IsOpen(w', i)
      ensures w'.locals[i].ip in w'.table && w'.table[w'.locals[i].ip] == [i]
    {
      if i != id {
        assert IsOpen(w, i);
      }
    }
    forall x | x in w'.table
      ensures |w'.table[x]| == 1 && IsOpen(w', w'.table[x][0]) && w'.locals[w'.table[x][0]].ip == x
    {
      if x != ip {
        assert w'.table[x] == w.table[x] && IsOpen(w, w.table[x][0]);
      }
    }
  }

  lemma ActKeepsTable(w: World, id: nat, e: R.Event)
    requires TableExact(w) && Enabled(w, Act(id, e))
    ensures TableExact(Next(w, Act(id, e)))
  {
    var w' := Next(w, Act(id, e));
    assert w'.locals[id].ip == w.locals[id].ip;
    assert w'.locals[id].phase == R.Closed <==> e.Close?;
    forall i: nat | IsOpen(w', i)
      ensures w'.locals[i].ip in w'.table && w'.table[w'.locals[i].ip] == [i]
    {
      assert IsOpen(w, i);
    }
    forall x | x in w'.table
      ensures |w'.table[x]| == 1 && IsOpen(w', w'.table[x][0]) && w'.locals[w'.table[x][0]].ip == x
    {
      assert IsOpen(w, w.table[x][0]);
    }
  }

  lemma TableKept(w: World, ev: Event)
    requires TableExact(w) && Enabled(w, ev) && OneSessionPerAddress(w, ev)
    ensures TableExact(Next(w, ev))
  {
    match ev
    case Open(id, ip) => OpenKeepsTable(w, id, ip);
    case Tick(now) =>
      assert forall i: nat :: IsOpen(Next(w, ev), i) <==> IsOpen(w, i);
    case Act(id, e) => ActKeepsTable(w, id, e);
  }

  // Without the assumption: closing one session stops serving every other session of its address,
  // so the rest of the table survives exactly if no other open session shares that address.
  lemma CloseServesOthersIff(w: World, id: nat)
    requires Enabled(w, Act(id, R.Close))
    requires forall i: nat :: IsOpen(w, i) ==> i in Served(w, w.locals[i].ip)
    ensures var w' := Next(w, Act(id, R.Close));
            (forall i: nat :: IsOpen(w', i) ==> i in Served(w', w'.locals[i].ip))
            <==> (forall i: nat :: IsOpen(w, i) && i != id ==> w.locals[i].ip != w.locals[id].ip)
  {
    var w' := Next(w, Act(id, R.Close));
    assert forall i: nat :: IsOpen(w', i) <==> IsOpen(w, i) && i != id;
    assert forall i: nat :: IsOpen(w', i) ==> w'.locals[i] == w.locals[i];
  }

  lemma Step(w: World, es: seq<Event>)
    requires es != [] && Enabled(w, es[0]) && Legal(Next(w, es[0]), es[1..])
    ensures Legal(w, es) && Exec(w, es) == Exec(Next(w, es[0]), es[1..])
  {
  }

  // Such a loss happens: two sessions of one address, the first fails to send and closes, and the
  // second, still open, is not served any more.
  lemma SecondSessionUnserved(cfg: R.Config, now: int, ip: IP) returns (es: seq<Event>)
    requires cfg.count > 0 && cfg.maxHops > 0
    ensures es == [Open(0, ip), Open(1, ip), Act(0, R.SendError), Act(0, R.Close)] && Legal(Start(cfg, now), es)
    ensures var w := Exec(Start(cfg, now), es); IsOpen(w, 1) && 1 !in Served(w, w.locals[1].ip)
  {
    es := [Open(0, ip), Open(1, ip), Act(0, R.SendError), Act(0, R.Close)];
    var w0 := Start(cfg, now);
    var w1 := Next(w0, Open(0, ip));
    var w2 := Next(w1, Open(1, ip));
    var w3 := Next(w2, Act(0, R.SendError));
    var w4 := Next(w3, Act(0, R.Close));
    assert w2.locals[0] == R.Init(cfg, ip) == w2.locals[1];
    assert Legal(w4, []) && Exec(w4, []) == w4;
    assert es[3..] == [Act(0, R.Close)] && es[3..][1..] == [];
    Step(w3, es[3..]);
    assert es[2..][1..] == es[3..] && es[1..][1..] == es[2..];
    Step(w2, es[2..]);
    Step(w1, es[1..]);
    Step(w0, es);
  }

  // A session can be opened at any time, on any address; it is served at once, and nothing else changes.
  lemma OpensAnyTime(w: World, id: nat, ip: IP)
    requires id !in w.locals
    ensures Enabled(w, Open(id, ip))
    ensures var t := Next(w, Open(id, ip));
            && id in t.locals && t.locals[id] == R.Init(w.cfg, ip) && id in Served(t, ip)
            && t.locals - {id} == w.locals
            && (forall i: nat, x :: i != id ==> (i in Served(t, x) <==> i in Served(w, x)))
            && t.sent == w.sent && t.counter == w.counter && t.now == w.now
  {
    var t := Next(w, Open(id, ip));
    assert Served(t, ip) == Served(w, ip) + [id];
    forall i: nat, x | i != id
      ensures i in Served(t, x) <==> i in Served(w, x)
    {
      if x != ip {
        assert Served(t, x) == Served(w, x);
      }
    }
  }

  // After session id was opened, some session of its address closed.
  predicate Overtaken(w: World, es: seq<Event>, id: nat)
    requires Legal(w, es)
    decreases |es|
  {
    es != [] && (ClosesAddressOf(w, es[0], id) || Overtaken(Next(w, es[0]), es[1..], id))
  }

  predicate ClosesAddressOf(w: World, ev: Event, id: nat)
    requires Enabled(w, ev)
  {
    ev.Act? && ev.e.Close? && id in w.locals && w.locals[ev.id].ip == w.locals[id].ip
  }

  lemma ServedStep(w: World, ev: Event, id: nat)
    requires Enabled(w, ev)
    ensures var w' := Next(w, ev);
            && (id in w.locals ==> id in w'.locals && w'.locals[id].ip == w.locals[id].ip)
            && (id in w.locals ==>
                  (id in Served(w', w'.locals[id].ip)
                   <==> id in Served(w, w.locals[id].ip) && !ClosesAddressOf(w, ev, id)))
            && (id !in w.locals && id in w'.locals ==> id in Served(w', w'.locals[id].ip))
  {
    if ev.Open? && ev.ip in w.table {
      assert forall i: nat :: i != ev.id ==> (i in w.table[ev.ip] + [ev.id] <==> i in w.table[ev.ip]);
    }
  }

  lemma {:induction false} ServedOnRun(w: World, es: seq<Event>, id: nat)
    requires Legal(w, es) && id in Exec(w, es).locals
    ensures var t := Exec(w, es);
            id in Served(t, t.locals[id].ip)
            <==> (id in w.locals ==> id in Served(w, w.locals[id].ip)) && !Overtaken(w, es, id)
    decreases |es|
  {
    if es == [] {
    } else {
      ServedStep(w, es[0], id);
      ServedOnRun(Next(w, es[0]), es[1..], id);
    }
  }

  // A session that is not served any more hears nothing, however the run goes on.
  lemma {:induction false} UnservedHearsNothing(w: World, es: seq<Event>, id: nat)
    requires Legal(w, es) && id in w.locals && id !in Served(w, w.locals[id].ip)
    ensures var t := Exec(w, es);
            && id in t.locals && id !in Served(t, t.locals[id].ip)
            && t.locals[id].s.heard == w.locals[id].s.heard
            && t.locals[id].s.matched == w.locals[id].s.matched
            && t.locals[id].s.purged == w.locals[id].s.purged
    decreases |es|
  {
    if es == [] {
    } else {
      ServedStep(w, es[0], id);
      UnservedStep(w, es[0], id);
      UnservedHearsNothing(Next(w, es[0]), es[1..], id);
    }
  }

  lemma UnservedStep(w: World, ev: Event, id: nat)
    requires Enabled(w, ev) && id in w.locals && id !in Served(w, w.locals[id].ip)
    ensures var s, t := w.locals[id].s, Next(w, ev).locals[id].s;
            t.heard == s.heard && t.matched == s.matched && t.purged == s.purged
  {
  }

  // After any run from the start, no response was handled before it arrived.
  lemma {:induction false} NothingEarlyOnRun(w: World, es: seq<Event>)
    requires NothingEarly(w) && Legal(w, es)
    ensures NothingEarly(Exec(w, es)) && w.now <= Exec(w, es).now
    decreases |es|
  {
    if es == [] {
    } else {
      NothingEarlyKept(w, es[0]);
      NothingEarlyOnRun(Next(w, es[0]), es[1..]);
    }
  }

  // After any run from the start, a session is served if and only if no session of its address,
  // itself included, closed since it was opened.
  lemma ServedIff(cfg: R.Config, now: int, es: seq<Event>, id: nat)
    requires Legal(Start(cfg, now), es) && id in Exec(Start(cfg, now), es).locals
    ensures var w := Exec(Start(cfg, now), es);
            id in Served(w, w.locals[id].ip) <==> !Overtaken(Start(cfg, now), es, id)
  {
    ServedOnRun(Start(cfg, now), es, id);
  }

  // ---------- every run ----------

  ghost predicate Inv(w: World) {
    AllReachable(w) && IdsFollowCounter(w)
  }

  lemma {:induction false} InvOnRun(w: World, es: seq<Event>)
    requires Inv(w) && Legal(w, es)
    ensures Inv(Exec(w, es)) && Exec(w, es).cfg == w.cfg
    decreases |es|
  {
    if es == [] {
    } else {
      NextKeepsReachable(w, es[0]);
      IdsKept(w, es[0]);
      InvOnRun(Next(w, es[0]), es[1..]);
    }
  }

  // The request the tracer builds is always one that the driver's ladder can send, or fail to send.
  lemma RequestFits(cfg: R.Config, now: int, es: seq<Event>, id: nat)
    requires Legal(Start(cfg, now), es)
    requires var w := Exec(Start(cfg, now), es); id in w.locals && R.MaySend(cfg, w.locals[id])
    ensures var w := Exec(Start(cfg, now), es);
            Enabled(w, Act(id, R.Send(Request(w, w.locals[id])))) && Enabled(w, Act(id, R.SendError))
  {
    InvOnRun(Start(cfg, now), es);
    var w := Exec(Start(cfg, now), es);
    assert forall q :: q in w.locals[id].s.registered ==> Stamped(w, q);
  }

  predicate RunsOncePerAddress(w: World, es: seq<Event>)
    requires Legal(w, es)
    decreases |es|
  {
    es == [] || (OneSessionPerAddress(w, es[0]) && RunsOncePerAddress(Next(w, es[0]), es[1..]))
  }

  lemma {:induction false} TableOnRun(w: World, es: seq<Event>)
    requires TableExact(w) && Legal(w, es) && RunsOncePerAddress(w, es)
    ensures TableExact(Exec(w, es))
    decreases |es|
  {
    if es == [] {
    } else {
      TableKept(w, es[0]);
      TableOnRun(Next(w, es[0]), es[1..]);
    }
  }

  // From the start of the tracer: each address maps to exactly its open session.
  lemma TableAlwaysExact(cfg: R.Config, now: int, es: seq<Event>)
    requires Legal(Start(cfg, now), es) && RunsOncePerAddress(Start(cfg, now), es)
    ensures TableExact(Exec(Start(cfg, now), es))
  {
    TableOnRun(Start(cfg, now), es);
  }

  // From the start of the tracer: with a budget of at most 64 probes no session ever loses a
  // reply to a full channel, however many sessions and reply goroutines run together.
  lemma NoSessionDrops(cfg: R.Config, now: int, es: seq<Event>, id: nat)
    requires Legal(Start(cfg, now), es) && id in Exec(Start(cfg, now), es).locals
    requires R.Budget(cfg) <= CHANNEL_CAPACITY
    ensures Exec(Start(cfg, now), es).locals[id].s.dropped == []
  {
    InvOnRun(Start(cfg, now), es);
    T.NothingDropped(cfg, Exec(Start(cfg, now), es).locals[id]);
  }

  // From the start of the tracer: a response in time to a live probe consumes exactly that probe
  // and makes exactly one reply for it, while fewer than 65536 requests separate the live probes.
  lemma OneReplyPerAnswer(cfg: R.Config, now: int, es: seq<Event>, id: nat, res: Answer, p: Probe)
    requires Legal(Start(cfg, now), es)
    requires var w := Exec(Start(cfg, now), es);
             && IsOpen(w, id) && id in Served(w, w.locals[id].ip) && 0 <= res.ttl && res.time <= w.now
             && (forall q :: q in w.locals[id].s.probes ==> w.sent - q.serial < ID_SIZE)
             && p in w.locals[id].s.probes && p.id == res.id && res.time - p.time <= cfg.timeout
    ensures var w := Exec(Start(cfg, now), es);
            Enabled(w, Act(id, R.Match(res))) &&
            var s, t := w.locals[id].s, Next(w, Act(id, R.Match(res))).locals[id].s;
            && t.matched == s.matched + [p]
            && t.answered == s.answered + [p]
            && t.produced == s.produced + [MakeReply(p, res)]
            && (forall q :: q in s.probes ==>
                  (q in t.probes <==> q != p && res.time - q.time <= cfg.timeout))
            && (forall q :: q in t.purged && q !in s.purged ==> res.time - q.time > cfg.timeout)
  {
    InvOnRun(Start(cfg, now), es);
    AnswerOnce(Exec(Start(cfg, now), es), id, res, p);
  }

  lemma AnswerOnce(w: World, id: nat, res: Answer, p: Probe)
    requires Inv(w) && id in w.locals && 0 <= res.ttl
    requires forall q :: q in w.locals[id].s.probes ==> w.sent - q.serial < ID_SIZE
    requires p in w.locals[id].s.probes && p.id == res.id && res.time - p.time <= w.cfg.timeout
    ensures var s := w.locals[id].s;
            var t := L.Next(s, L.Match(res), w.cfg.timeout);
            && t.matched == s.matched + [p]
            && t.answered == s.answered + [p]
            && t.produced == s.produced + [MakeReply(p, res)]
            && (forall q :: q in s.probes ==>
                  (q in t.probes <==> q != p && res.time - q.time <= w.cfg.timeout))
            && (forall q :: q in t.purged && q !in s.purged ==> res.time - q.time > w.cfg.timeout)
  {
    var l := w.locals[id];
    R.ReachableInv(w.cfg, l);
    LiveIdsDistinct(w, id);
    OutstandingDistinct(l.s);
    L.UniqueMatch(l.s, res, w.cfg.timeout, p);
    forall q | q in l.s.probes
      ensures q in L.Next(l.s, L.Match(res), w.cfg.timeout).probes <==> q != p && res.time - q.time <= w.cfg.timeout
    {
      L.MatchKeepsIff(l.s, res, w.cfg.timeout, q);
      assert q != p ==> q.id != p.id;
    }
    L.MatchPurgesExpired(l.s, res, w.cfg.timeout);
  }

  // No probe is outstanding twice.
  lemma OutstandingDistinct(s: L.State)
    requires L.ProbesAccounted(s)
    ensures forall i, j :: 0 <= i < j < |s.probes| ==> s.probes[i] != s.probes[j]
  {
    forall i, j | 0 <= i < j < |s.probes|
      ensures s.probes[i] != s.probes[j]
    {
      var p := s.probes[i];
      assert p in multiset(s.registered);
      L.ExactlyOnePlace(s, p);
      if p == s.probes[j] {
        Sorting.Repeated(s.probes, i, j);
      }
    }
  }
}
