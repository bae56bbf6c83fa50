/** The mutable part of traceroute/tracer.go: a session's probe list and reply channel, and
    the tracer's ID counter and session table. */
module Sessions {
  import opened Probes
  import opened Wrappers
  import L = SessionLog
  import R = TraceRun

  class Session {
    const ip: IP
    const timeout: int
    var probes: seq<Probe>
    var ch: seq<Reply>

    constructor (ip: IP, timeout: int)
      ensures this.ip == ip && this.timeout == timeout
      ensures probes == [] && ch == []
    {
      this.ip, this.timeout := ip, timeout;
      probes, ch := [], [];
    }

    // The session is in the state that the step machine is in.
    ghost predicate Mirrors(s: L.State)
      reads this
    {
      probes == s.probes && ch == s.ch
    }

    // Ping's registration of a request that was just sent.
    method Register(req: Probe)
      modifies this`probes
      ensures probes == old(probes) + [req]
      ensures forall s: L.State :: old(Mirrors(s)) && L.Enabled(s, L.Register(req)) ==>
        Mirrors(L.Next(s, L.Register(req), timeout))
    {
      probes := probes + [req];
    }

    method IsDone(ttl: int) returns (done: bool)
      ensures done <==> forall p :: p in probes ==> p.ttl > ttl
      ensures forall cfg: R.Config, l: R.Local :: Mirrors(l.s) && l.phase == R.Checking && l.bound == ttl ==>
        (done <==> R.Next(cfg, l, R.CheckDone).phase == R.Returned(R.AllAnswered))
    {
      for i := 0 to |probes|
        invariant forall k :: 0 <= k < i ==> probes[k].ttl > ttl
      {
        if probes[i].ttl <= ttl {
          return false;
        }
      }
      return true;
    }

    // The locked part of handle: compacts probes in place while looking for the request.
    method Match(res: Answer) returns (req: Option<Probe>)
      modifies this`probes
      ensures probes == Select(old(probes), res, timeout, Keep)
      ensures req == Last(Select(old(probes), res, timeout, Hit))
      ensures forall p :: p in probes <==> p in old(probes) && res.time - p.time <= timeout && p.id != res.id
      ensures LastInTime(old(probes), res, timeout, req)
    {
      var n := 0;
      req := None;
      ghost var was := probes;
      for i := 0 to |probes|
        invariant 0 <= n <= i <= |probes| == |was|
        invariant forall k :: i <= k < |was| ==> probes[k] == was[k]
        invariant probes[..n] == Select(was[..i], res, timeout, Keep)
        invariant req == Last(Select(was[..i], res, timeout, Hit))
      {
        var r := probes[i];
        assert r == was[i] && was[..i + 1][..i] == was[..i];
        if res.time - r.time > timeout {
          continue;
        }
        if r.id == res.id {
          req := Some(r);
          continue;
        }
        probes := probes[n := r];
        n := n + 1;
      }
      assert was[..|was|] == was;
      probes := probes[..n];
      forall p
        ensures p in probes <==> p in was && res.time - p.time <= timeout && p.id != res.id
      {
        SelectMeans(was, res, timeout, p);
      }
      LastHit(was, res, timeout);
    }

    method Handle(res: Answer)
      modifies this`probes, this`ch
      ensures probes == Select(old(probes), res, timeout, Keep)
      ensures ch == match Last(Select(old(probes), res, timeout, Hit))
                    case None => old(ch)
                    case Some(p) => Offer(old(ch), MakeReply(p, res))
      ensures forall p :: p in probes <==> p in old(probes) && res.time - p.time <= timeout && p.id != res.id
      ensures 0 <= res.ttl ==> forall s: L.State :: old(Mirrors(s)) ==> Mirrors(L.Handled(s, res, timeout))
    {
      var req := Match(res);
      match req {
        case None =>
        case Some(p) => ch := Offer(ch, MakeReply(p, res));
      }
    }
  }

  class Tracer {
    const timeout: int
    const maxHops: int
    const count: int
    var counter: nat
    var sess: map<IP, seq<Session>>

    ghost predicate Valid()
      reads this
    {
      && counter < COUNTER_SIZE
      && (forall ip :: ip in sess ==> forall i, j :: 0 <= i < j < |sess[ip]| ==> sess[ip][i] != sess[ip][j])
      && (forall ip :: ip in sess ==> forall i :: 0 <= i < |sess[ip]| ==> sess[ip][i].ip == ip)
    }

    // DefaultTracer copies its configuration when the program starts.
    constructor (timeout: int, maxHops: int, count: int)
      ensures Valid() && sess == map[] && counter == 0
      ensures this.timeout == timeout && this.maxHops == maxHops && this.count == count
    {
      this.timeout, this.maxHops, this.count := timeout, maxHops, count;
      counter, sess := 0, map[];
    }

    // The 32-bit counter wraps; the ID is its low half.
    method NextId() returns (id: nat)
      requires Valid()
      modifies this`counter
      ensures Valid()
      ensures counter == (old(counter) + 1) % COUNTER_SIZE
      ensures id == (old(counter) + 1) % ID_SIZE
    {
      counter := (counter + 1) % COUNTER_SIZE;
      id := counter % ID_SIZE;
    }

    method NewSession(ip: IP) returns (s: Session)
      requires Valid()
      modifies this`sess
      ensures Valid() && fresh(s) && s.ip == ip && s.probes == [] && s.ch == []
      ensures sess == old(sess)[ip := (if ip in old(sess) then old(sess)[ip] else []) + [s]]
    {
      s := new Session(ip, timeout);
      sess := sess[ip := (if ip in sess then sess[ip] else []) + [s]];
    }

    // Deletes the whole entry of the address, whichever of its sessions is closing.
    method RemoveSession(s: Session)
      requires Valid()
      modifies this`sess, s`probes
      ensures Valid() && sess == old(sess) - {s.ip} && s.probes == []
      ensures forall st: L.State :: old(s.Mirrors(st)) && L.Enabled(st, L.Abandon) ==>
        s.Mirrors(L.Next(st, L.Abandon, s.timeout))
    {
      sess := sess - {s.ip};
      s.probes := [];
    }

    // Every session of the address sees the response, and no other session changes.
    method ServeReply(dst: IP, res: Answer)
      requires Valid()
      modifies if dst in sess then set s | s in sess[dst] else {}
      ensures Valid() && sess == old(sess)
      ensures dst in sess ==> forall s :: s in sess[dst] ==>
        && s.probes == Select(old(s.probes), res, s.timeout, Keep)
        && s.ch == match Last(Select(old(s.probes), res, s.timeout, Hit))
                   case None => old(s.ch)
                   case Some(p) => Offer(old(s.ch), MakeReply(p, res))
    {
      if dst in sess {
        var a := sess[dst];
        for i := 0 to |a|
          invariant Valid() && sess == old(sess)
          invariant forall k :: i <= k < |a| ==> a[k].probes == old(a[k].probes) && a[k].ch == old(a[k].ch)
          invariant forall k :: 0 <= k < i ==>
            && a[k].probes == Select(old(a[k].probes), res, a[k].timeout, Keep)
            && a[k].ch == match Last(Select(old(a[k].probes), res, a[k].timeout, Hit))
                          case None => old(a[k].ch)
                          case Some(p) => Offer(old(a[k].ch), MakeReply(p, res))
        {
          a[i].Handle(res);
        }
      }
    }
  }
}
