/** The SNMP client's get and walk with their caches and batching (network/snmp_client.go),
    against a fixed agent that echoes the requested names and a transport that may fail. */
module SnmpClient {
  import opened DiscoveryFill
  import opened RequestCache
  import opened Wrappers

  type OID = string

  datatype Kind = NoSuchObject | NoSuchInstance | Null | Data(ber: nat)

  datatype Response = Response(oid: OID, kind: Kind, value: int)

  predicate WasSuccessful(r: Response) {
    r.kind != NoSuchObject && r.kind != NoSuchInstance && r.kind != Null
  }

  // What goes over the wire.
  datatype Request = GetRequest(oids: seq<OID>) | BulkWalkRequest(oid: OID) | WalkRequest(oid: OID)

  datatype Reply = Ok(responses: seq<Response>) | Err(error: Error)

  // The agent: its answer to a name, and the names it lists under one. fails says which of the
  // client's requests the transport loses, counted from zero.
  datatype Agent = Agent(kind: OID -> Kind, value: OID -> int, subtree: OID -> seq<OID>, fails: nat -> bool)
  {
    function Answer(o: OID): Response {
      Response(o, kind(o), value(o))
    }

    function Answers(oids: seq<OID>): seq<Response> {
      seq(|oids|, i requires 0 <= i < |oids| => Answer(oids[i]))
    }

    // A get-cache entry: the answer, and an error exactly if nothing was found.
    function Stored(o: OID): CachedResult<Response> {
      CachedResult(Some(Answer(o)), if kind(o).Data? then None else Some(RequestFailed))
    }

    predicate AnyFound(oids: seq<OID>) {
      exists i :: 0 <= i < |oids| && WasSuccessful(Answer(oids[i]))
    }

    // The uncached walk, when the transport works.
    function WalkReply(o: OID): Reply {
      if subtree(o) == [] then Err(NotFound) else Ok(Answers(subtree(o)))
    }
  }

  // ---------- hits, misses and batches ----------

  function Hits(oids: seq<OID>, known: set<OID>): seq<OID> {
    if oids == [] then []
    else if oids[|oids| - 1] in known then Hits(oids[..|oids| - 1], known) + [oids[|oids| - 1]]
    else Hits(oids[..|oids| - 1], known)
  }

  function Misses(oids: seq<OID>, known: set<OID>): seq<OID> {
    if oids == [] then []
    else if oids[|oids| - 1] in known then Misses(oids[..|oids| - 1], known)
    else Misses(oids[..|oids| - 1], known) + [oids[|oids| - 1]]
  }

  lemma SplitLast(s: seq<OID>)
    requires s != []
    ensures s == s[..|s| - 1] + [s[|s| - 1]]
  {
  }

  lemma CountSnoc(s: seq<OID>, x: OID, o: OID)
    ensures multiset(s + [x])[o] == multiset(s)[o] + if x == o then 1 else 0
  {
  }

  lemma {:induction false} HitsMissesCount(oids: seq<OID>, known: set<OID>, o: OID)
    ensures multiset(Hits(oids, known))[o] + multiset(Misses(oids, known))[o] == multiset(oids)[o]
    ensures o in Hits(oids, known) ==> o in known
    ensures o in Misses(oids, known) ==> o !in known
  {
    if oids == [] {
    } else {
      var front, x := oids[..|oids| - 1], oids[|oids| - 1];
      HitsMissesCount(front, known, o);
      CountSnoc(front, x, o);
      CountSnoc(Hits(front, known), x, o);
      CountSnoc(Misses(front, known), x, o);
      SplitLast(oids);
    }
  }

  lemma HitsStep(oids: seq<OID>, i: nat, known: set<OID>)
    requires i < |oids|
    ensures oids[i] in known ==>
      && Hits(oids[..i + 1], known) == Hits(oids[..i], known) + [oids[i]]
      && Misses(oids[..i + 1], known) == Misses(oids[..i], known)
    ensures oids[i] !in known ==>
      && Hits(oids[..i + 1], known) == Hits(oids[..i], known)
      && Misses(oids[..i + 1], known) == Misses(oids[..i], known) + [oids[i]]
  {
    assert oids[..i + 1][..i] == oids[..i];
  }

  lemma HitsMissesPartition(oids: seq<OID>, known: set<OID>)
    ensures multiset(Hits(oids, known) + Misses(oids, known)) == multiset(oids)
    ensures forall o :: o in Hits(oids, known) ==> o in known
    ensures forall o :: o in Misses(oids, known) ==> o !in known
  {
    forall o
      ensures multiset(Hits(oids, known) + Misses(oids, known))[o] == multiset(oids)[o]
    {
      HitsMissesCount(oids, known, o);
    }
    forall o
      ensures (o in Hits(oids, known) ==> o in known) && (o in Misses(oids, known) ==> o !in known)
    {
      HitsMissesCount(oids, known, o);
    }
  }

  // Both keep the order of the request.
  lemma {:induction false} HitsMissesInOrder(a: seq<OID>, b: seq<OID>, known: set<OID>)
    ensures Hits(a + b, known) == Hits(a, known) + Hits(b, known)
    ensures Misses(a + b, known) == Misses(a, known) + Misses(b, known)
    decreases |b|
  {
    if b == [] {
      assert a + b == a;
    } else {
      var front := b[..|b| - 1];
      HitsMissesInOrder(a, front, known);
      FrontOfConcat(a, b);
    }
  }

  lemma FrontOfConcat(a: seq<OID>, b: seq<OID>)
    requires b != []
    ensures (a + b)[..|a + b| - 1] == a + b[..|b| - 1] && (a + b)[|a + b| - 1] == b[|b| - 1]
  {
  }

  lemma HitOrMiss(oids: seq<OID>, known: set<OID>)
    ensures forall o :: o in oids ==> o in known || o in Misses(oids, known)
  {
    forall o | o in oids
      ensures o in known || o in Misses(oids, known)
    {
      HitsMissesCount(oids, known, o);
      assert multiset(oids)[o] >= 1;
    }
  }

  function Batches(oids: seq<OID>, size: nat): seq<seq<OID>>
    requires size >= 1
    decreases |oids|
  {
    if oids == [] then []
    else if size >= |oids| then [oids]
    else [oids[..size]] + Batches(oids[size..], size)
  }

  function Concat(batches: seq<seq<OID>>): seq<OID> {
    if batches == [] then [] else batches[0] + Concat(batches[1..])
  }

  lemma {:induction false} BatchesConcat(oids: seq<OID>, size: nat)
    requires size >= 1
    ensures Concat(Batches(oids, size)) == oids
    decreases |oids|
  {
    if oids != [] && size >= |oids| {
      assert [oids][1..] == [];
    } else if oids != [] {
      BatchesConcat(oids[size..], size);
      TailOf(oids[..size], Batches(oids[size..], size));
      Rejoin(oids, size);
    }
  }

  lemma {:induction false} BatchesSized(oids: seq<OID>, size: nat)
    requires size >= 1
    ensures forall b :: b in Batches(oids, size) ==> 1 <= |b| <= size
    ensures |Batches(oids, size)| == (|oids| + size - 1) / size
    decreases |oids|
  {
    if oids == [] {
      SmallDivision(size - 1, size);
    } else if size >= |oids| {
      OneBatch(|oids|, size);
    } else {
      BatchesSized(oids[size..], size);
      TailOf(oids[..size], Batches(oids[size..], size));
      DropBatch(|oids|, size);
    }
  }

  // The batches are the names in order, cut into non-empty pieces of at most size, as few as possible.
  lemma BatchesCorrect(oids: seq<OID>, size: nat)
    requires size >= 1
    ensures Concat(Batches(oids, size)) == oids
    ensures forall b :: b in Batches(oids, size) ==> 1 <= |b| <= size
    ensures |Batches(oids, size)| == (|oids| + size - 1) / size
  {
    BatchesConcat(oids, size);
    BatchesSized(oids, size);
  }

  lemma TailOf(b: seq<OID>, rest: seq<seq<OID>>)
    ensures ([b] + rest)[1..] == rest && |[b] + rest| == 1 + |rest|
    ensures forall x :: x in [b] + rest ==> x == b || x in rest
  {
  }

  lemma Rejoin(oids: seq<OID>, size: nat)
    requires size <= |oids|
    ensures oids[..size] + oids[size..] == oids
  {
  }

  lemma SmallDivision(a: nat, b: nat)
    requires a < b
    ensures a / b == 0
  {
  }

  lemma QuotientIs(a: nat, b: nat, q: nat)
    requires b > 0 && q * b <= a < q * b + b
    ensures a / b == q
  {
    var d, r := a / b, a % b;
    assert a == d * b + r;
    assert d < q ==> (d + 1) * b <= q * b;
    assert d > q ==> (q + 1) * b <= d * b;
  }

  lemma OneBatch(n: nat, size: nat)
    requires 1 <= n <= size
    ensures (n + size - 1) / size == 1
  {
    QuotientIs(n + size - 1, size, 1);
  }

  lemma DropBatch(n: nat, size: nat)
    requires n > size >= 1
    ensures (n + size - 1) / size == 1 + (n - size + size - 1) / size
  {
    var q := (n - 1) / size;
    assert n - 1 == q * size + (n - 1) % size;
    assert (q + 1) * size == q * size + size;
    QuotientIs(n + size - 1, size, q + 1);
  }

  function GetRequests(batches: seq<seq<OID>>): seq<Request> {
    seq(|batches|, i requires 0 <= i < |batches| => GetRequest(batches[i]))
  }

  // What an uncached walk sends: a bulk walk first unless the version is 1, and a plain walk if
  // there was none or it was lost.
  function WalkRequests(version: Version, oid: OID, firstLost: bool): seq<Request> {
    if version == V1 then [WalkRequest(oid)]
    else if firstLost then [BulkWalkRequest(oid), WalkRequest(oid)]
    else [BulkWalkRequest(oid)]
  }

  // What a client of a version puts on the wire: no bulk walk for version 1, else a plain walk only
  // right after the lost bulk walk it stands in for; gets of at least one name, and for version 1
  // of exactly one.
  ghost predicate WireOk(version: Version, fails: nat -> bool, sent: seq<Request>) {
    forall i: nat :: i < |sent| ==> MaySend(version, fails, sent[..i], sent[i])
  }

  predicate MaySend(version: Version, fails: nat -> bool, before: seq<Request>, r: Request) {
    match r
    case GetRequest(oids) => oids != [] && (version == V1 ==> |oids| == 1)
    case BulkWalkRequest(_) => version != V1
    case WalkRequest(oid) =>
      version == V1 || (before != [] && before[|before| - 1] == BulkWalkRequest(oid) && fails(|before| - 1))
  }

  lemma WireStep(version: Version, fails: nat -> bool, sent: seq<Request>, r: Request)
    requires WireOk(version, fails, sent) && MaySend(version, fails, sent, r)
    ensures WireOk(version, fails, sent + [r])
  {
    var all := sent + [r];
    forall i: nat | i < |all|
      ensures MaySend(version, fails, all[..i], all[i])
    {
      if i < |sent| {
        assert all[..i] == sent[..i] && all[i] == sent[i];
      } else {
        assert all[..i] == sent;
      }
    }
  }

  function ErrorOf(r: Reply): Option<Error> {
    match r
    case Ok(_) => None
    case Err(e) => Some(e)
  }

  // ---------- the client ----------

  class Client {
    const version: Version
    const agent: Agent
    const getCache: RequestCache<Response>
    const walkCache: RequestCache<seq<Response>>
    var useCache: bool
    var maxOids: int
    var sent: seq<Request>

    // What the caches say about the agent.
    ghost predicate GetCacheTrue()
      reads getCache
    {
      forall o :: o in getCache.cache ==>
        getCache.cache[o] == agent.Stored(o)
    }

    // A walk entry is the agent's own answer, or remembers a failed transport.
    ghost predicate WalkEntryTrue(o: OID, e: CachedResult<seq<Response>>)
      reads getCache
    {
      match e.err
      case None => agent.subtree(o) != [] && e.res == Some(agent.Answers(agent.subtree(o)))
                   && forall n :: n in agent.subtree(o) ==> n in getCache.cache
      case Some(NotFound) => agent.subtree(o) == []
      case Some(err) => err == Transport
    }

    ghost predicate WalkCacheTrue()
      reads getCache, walkCache
    {
      forall o :: o in walkCache.cache ==> WalkEntryTrue(o, walkCache.cache[o])
    }

    ghost predicate Valid()
      reads this, getCache, walkCache
    {
      && (getCache as object) != walkCache
      && maxOids >= 1 && (version == V1 ==> maxOids == 1)
      && GetCacheTrue() && WalkCacheTrue()
      && WireOk(version, agent.fails, sent)
    }

    // A cached transport failure for this walk.
    predicate StaleFailure(o: OID)
      reads walkCache
    {
      o in walkCache.cache && walkCache.cache[o].err == Some(Transport)
    }

    // The library's MaxOids constant is positive.
    constructor (version: Version, agent: Agent, libraryMaxOids: int)
      requires libraryMaxOids >= 1
      ensures Valid() && fresh(getCache) && fresh(walkCache)
      ensures this.version == version && this.agent == agent && useCache && sent == []
      ensures getCache.cache == map[] && walkCache.cache == map[]
    {
      this.version, this.agent := version, agent;
      maxOids := if version == V1 then 1 else libraryMaxOids;
      useCache, sent := true, [];
      getCache := new RequestCache<Response>();
      walkCache := new RequestCache<seq<Response>>();
    }

    method SetMaxOIDs(n: int) returns (ok: bool)
      requires Valid()
      modifies this`maxOids
      ensures Valid() && ok == (n >= 1 && version != V1)
      ensures maxOids == if ok then n else old(maxOids)
    {
      if n < 1 || version == V1 {
        return false;
      }
      maxOids := n;
      ok := true;
    }

    method UseCache(b: bool)
      requires Valid()
      modifies this`useCache
      ensures Valid() && useCache == b
    {
      useCache := b;
    }

    // One request on the wire: lost, or answered.
    method Transmit(r: Request) returns (lost: bool)
      modifies this`sent
      ensures sent == old(sent) + [r] && lost == agent.fails(|old(sent)|)
    {
      lost := agent.fails(|sent|);
      sent := sent + [r];
    }

    // Stores a response and whether it found anything.
    method Remember(r: Response)
      requires Valid() && r == agent.Answer(r.oid)
      modifies getCache
      ensures Valid() && getCache.cache.Keys == old(getCache.cache.Keys) + {r.oid}
      ensures var err := if agent.kind(r.oid).Data? then None else Some(RequestFailed);
              getCache.cache[r.oid] == CachedResult(Some(r), err)
      ensures forall o :: o in old(getCache.cache) ==> getCache.cache[o] == old(getCache.cache[o])
    {
      getCache.Add(r.oid, Some(r), if WasSuccessful(r) then None else Some(RequestFailed));
    }

    // Stores a walk's result or its error.
    method RememberWalk(oid: OID, res: Option<seq<Response>>, err: Option<Error>)
      requires Valid() && WalkEntryTrue(oid, CachedResult(res, err))
      modifies walkCache
      ensures Valid() && walkCache.cache == old(walkCache.cache)[oid := CachedResult(res, err)]
    {
      walkCache.Add(oid, res, err);
    }

    // The cache lookups of a get: hits first, misses kept in order.
    method Lookup(oids: seq<OID>) returns (responses: seq<Response>, reqOIDs: seq<OID>, successful: bool)
      requires Valid()
      ensures responses == agent.Answers(Hits(oids, getCache.cache.Keys))
      ensures reqOIDs == Misses(oids, getCache.cache.Keys)
      ensures successful == agent.AnyFound(Hits(oids, getCache.cache.Keys))
    {
      responses, reqOIDs, successful := [], [], false;
      ghost var keys := getCache.cache.Keys;
      for i := 0 to |oids|
        invariant responses == agent.Answers(Hits(oids[..i], keys))
        invariant reqOIDs == Misses(oids[..i], keys)
        invariant successful == agent.AnyFound(Hits(oids[..i], keys))
      {
        HitsStep(oids, i, keys);
        var entry := getCache.Get(oids[i]);
        if entry.None? {
          reqOIDs := reqOIDs + [oids[i]];
        } else {
          FoundSnoc(agent, Hits(oids[..i], keys), oids[i]);
          responses := responses + [entry.value.res.value];
          if WasSuccessful(entry.value.res.value) {
            successful := true;
          }
        }
      }
      Snoc(oids, |oids|);
    }

    // The loop over one batch's response variables.
    method Absorb(batch: seq<OID>) returns (responses: seq<Response>, successful: bool)
      requires Valid()
      modifies getCache
      ensures Valid()
      ensures responses == agent.Answers(batch) && successful == agent.AnyFound(batch)
      ensures getCache.cache.Keys == old(getCache.cache.Keys) + if useCache then (set o | o in batch) else {}
    {
      responses, successful := [], false;
      for i := 0 to |batch|
        invariant Valid()
        invariant responses == agent.Answers(batch[..i]) && successful == agent.AnyFound(batch[..i])
        invariant getCache.cache.Keys == old(getCache.cache.Keys) + if useCache then (set o | o in batch[..i]) else {}
      {
        Snoc(batch, i);
        FoundSnoc(agent, batch[..i], batch[i]);
        var current := agent.Answer(batch[i]);
        if WasSuccessful(current) {
          successful := true;
        }
        if useCache {
          Remember(current);
        }
        responses := responses + [current];
      }
      Snoc(batch, |batch|);
    }

    // The request loop: one request a batch until nothing is left or the transport fails.
    method RequestAll(reqOIDs: seq<OID>, known: seq<Response>, found: bool)
      returns (lost: bool, responses: seq<Response>, successful: bool)
      requires Valid()
      modifies this`sent, getCache
      ensures Valid() && old(getCache.cache.Keys) <= getCache.cache.Keys
      ensures !useCache ==> getCache.cache.Keys == old(getCache.cache.Keys)
      ensures !lost && useCache ==> forall o :: o in reqOIDs ==> o in getCache.cache
      ensures !lost ==> responses == known + agent.Answers(reqOIDs)
      ensures !lost ==> successful == (found || agent.AnyFound(reqOIDs))
      ensures !lost ==> sent == old(sent) + GetRequests(Batches(reqOIDs, maxOids))
      ensures lost ==> |sent| > |old(sent)| && agent.fails(|sent| - 1)
      ensures old(sent) <= sent <= old(sent) + GetRequests(Batches(reqOIDs, maxOids))
      ensures reqOIDs == [] ==> !lost
    {
      responses, successful := known, found;
      var rest := reqOIDs;
      while rest != []
        invariant Valid() && old(getCache.cache.Keys) <= getCache.cache.Keys && |sent| >= |old(sent)|
        invariant !useCache ==> getCache.cache.Keys == old(getCache.cache.Keys)
        invariant useCache ==> forall o :: o in reqOIDs ==> o in rest || o in getCache.cache
        invariant responses + agent.Answers(rest) == known + agent.Answers(reqOIDs)
        invariant (successful || agent.AnyFound(rest)) == (found || agent.AnyFound(reqOIDs))
        invariant sent + GetRequests(Batches(rest, maxOids)) == old(sent) + GetRequests(Batches(reqOIDs, maxOids))
        invariant old(sent) <= sent
        decreases |rest|
      {
        var size := if maxOids >= |rest| then |rest| else maxOids;
        var batch := rest[..size];
        CutBatch(agent, rest, size, maxOids);
        ghost var before := sent;
        var more, any;
        lost, more, any := RequestBatch(batch);
        if lost {
          return;
        }
        Regroup(responses, more, agent.Answers(rest[size..]));
        Regroup(before, [GetRequest(batch)], GetRequests(Batches(rest[size..], maxOids)));
        responses := responses + more;
        successful := successful || any;
        rest := rest[size..];
      }
      lost := false;
    }

    // One request and its answers.
    method RequestBatch(batch: seq<OID>) returns (lost: bool, responses: seq<Response>, successful: bool)
      requires Valid() && batch != [] && (version == V1 ==> |batch| == 1)
      modifies this`sent, getCache
      ensures Valid() && sent == old(sent) + [GetRequest(batch)] && lost == agent.fails(|old(sent)|)
      ensures lost ==> getCache.cache == old(getCache.cache)
      ensures !lost ==> responses == agent.Answers(batch) && successful == agent.AnyFound(batch)
      ensures !lost ==> getCache.cache.Keys == old(getCache.cache.Keys) + if useCache then (set o | o in batch) else {}
    {
      responses, successful := [], false;
      WireStep(version, agent.fails, sent, GetRequest(batch));
      lost := Transmit(GetRequest(batch));
      if !lost {
        responses, successful := Absorb(batch);
      }
    }

    // What a get serves from the cache, and what it asks the agent.
    ghost function Known(): set<OID>
      reads this, getCache
    {
      if useCache then getCache.cache.Keys else {}
    }

    // A completed get returns the same multiset of answers and the same verdict as without any
    // cache; the hits come first, and only the misses are requested, in batches.
    method SNMPGet(oids: seq<OID>) returns (r: Reply)
      requires Valid()
      modifies this`sent, getCache
      ensures Valid() && old(getCache.cache.Keys) <= getCache.cache.Keys && |sent| >= |old(sent)|
      ensures r.Ok? ==> agent.AnyFound(oids) && multiset(r.responses) == multiset(agent.Answers(oids))
      ensures r.Ok? ==>
        r.responses == agent.Answers(Hits(oids, old(Known()))) + agent.Answers(Misses(oids, old(Known())))
      ensures r == Err(NotFound) ==> !agent.AnyFound(oids)
      ensures r.Err? ==>
        r.error == NotFound || (r.error == Transport && |sent| > |old(sent)| && agent.fails(|sent| - 1))
      ensures r != Err(Transport) ==> sent == old(sent) + GetRequests(Batches(Misses(oids, old(Known())), maxOids))
      ensures r != Err(Transport) && useCache ==> forall o :: o in oids ==> o in getCache.cache
      ensures old(sent) <= sent <= old(sent) + GetRequests(Batches(Misses(oids, old(Known())), maxOids))
      ensures useCache && (forall o :: o in oids ==> o in old(getCache.cache)) ==> sent == old(sent)
      ensures !useCache ==> getCache.cache.Keys == old(getCache.cache.Keys)
    {
      var responses, reqOIDs, successful := [], oids, false;
      ghost var known := Known();
      if useCache {
        responses, reqOIDs, successful := Lookup(oids);
      } else {
        NothingKnown(oids);
      }
      GetTransparent(agent, oids, known);
      HitOrMiss(oids, known);
      CachedGetIsFree(oids, known, maxOids);
      var lost;
      lost, responses, successful := RequestAll(reqOIDs, responses, successful);
      if lost {
        return Err(Transport);
      }
      if !successful {
        return Err(NotFound);
      }
      r := Ok(responses);
    }

    // A walk that comes back is the agent's own. It agrees with the uncached walk except when it
    // replays a transport failure from the cache, and afterwards every name it lists is cached.
    method SNMPWalk(oid: OID) returns (r: Reply)
      requires Valid()
      modifies this`sent, getCache, walkCache
      ensures Valid() && old(getCache.cache.Keys) <= getCache.cache.Keys
      ensures r.Ok? || r == Err(NotFound) ==> r == agent.WalkReply(oid)
      ensures r.Ok? ==> agent.subtree(oid) != [] && r.responses == agent.Answers(agent.subtree(oid))
      ensures r == Err(NotFound) ==> agent.subtree(oid) == []
      ensures r.Err? ==> r.error == NotFound || r.error == Transport
      ensures r.Ok? && useCache ==> forall n :: n in agent.subtree(oid) ==> n in getCache.cache
      ensures !agent.fails(|old(sent)|) ==> (r == agent.WalkReply(oid) <==> !(useCache && old(StaleFailure(oid))))
      ensures useCache && oid in old(walkCache.cache) ==> sent == old(sent) && walkCache.cache == old(walkCache.cache)
      ensures !(useCache && oid in old(walkCache.cache)) ==>
        && sent == old(sent) + WalkRequests(version, oid, agent.fails(|old(sent)|))
        && r == (if agent.fails(|sent| - 1) then Err(Transport) else agent.WalkReply(oid))
        && (r == Err(Transport) ==> sent[|sent| - 1] == WalkRequest(oid))
      ensures useCache ==> oid in walkCache.cache && walkCache.cache[oid].err == ErrorOf(r)
      ensures !useCache ==> walkCache.cache == old(walkCache.cache) && getCache.cache.Keys == old(getCache.cache.Keys)
      ensures forall o :: StaleFailure(o) ==> old(StaleFailure(o)) || r == Err(Transport)
    {
      if useCache {
        var entry := walkCache.Get(oid);
        if entry.Some? {
          if entry.value.err.Some? {
            return Err(entry.value.err.value);
          }
          return Ok(entry.value.res.value);
        }
      }
      r := WalkAgent(oid);
    }

    // The bulk walk, and the plain walk in its place.
    method TransmitWalk(oid: OID) returns (lost: bool)
      requires Valid()
      modifies this`sent
      ensures Valid() && (lost ==> |sent| > |old(sent)| && sent[|sent| - 1] == WalkRequest(oid))
      ensures sent == old(sent) + WalkRequests(version, oid, agent.fails(|old(sent)|))
      ensures lost == agent.fails(|sent| - 1)
    {
      lost := true;
      if version != V1 {
        WireStep(version, agent.fails, sent, BulkWalkRequest(oid));
        lost := Transmit(BulkWalkRequest(oid));
      }
      if version == V1 || lost {
        WireStep(version, agent.fails, sent, WalkRequest(oid));
        lost := Transmit(WalkRequest(oid));
      }
    }

    // A walk that the cache does not answer.
    method WalkAgent(oid: OID) returns (r: Reply)
      requires Valid()
      modifies this`sent, getCache, walkCache
      ensures Valid() && old(getCache.cache.Keys) <= getCache.cache.Keys
      ensures sent == old(sent) + WalkRequests(version, oid, agent.fails(|old(sent)|))
      ensures r == if agent.fails(|sent| - 1) then Err(Transport) else agent.WalkReply(oid)
      ensures r == Err(Transport) ==> sent[|sent| - 1] == WalkRequest(oid)
      ensures r.Ok? && useCache ==> forall n :: n in agent.subtree(oid) ==> n in getCache.cache
      ensures useCache ==> walkCache.cache.Keys == old(walkCache.cache.Keys) + {oid}
      ensures useCache ==> walkCache.cache[oid].err == ErrorOf(r)
      ensures forall o :: o in old(walkCache.cache) && o != oid ==>
        o in walkCache.cache && walkCache.cache[o] == old(walkCache.cache[o])
      ensures !useCache ==> walkCache.cache == old(walkCache.cache) && getCache.cache.Keys == old(getCache.cache.Keys)
    {
      var lost := TransmitWalk(oid);
      if lost {
        if useCache {
          RememberWalk(oid, None, Some(Transport));
        }
        return Err(Transport);
      }
      var names := agent.subtree(oid);
      if names == [] {
        if useCache {
          RememberWalk(oid, None, Some(NotFound));
        }
        return Err(NotFound);
      }
      var res, _ := Absorb(names);
      if useCache {
        RememberWalk(oid, Some(res), None);
      }
      r := Ok(res);
    }

    // True exactly if some cached name has an answer at the agent.
    method HasSuccessfulCachedRequest() returns (b: bool)
      requires Valid()
      ensures b <==> exists o :: o in getCache.cache && agent.kind(o).Data?
    {
      var m := getCache.GetSuccessfulRequests();
      b := |m| > 0;
      if b {
        assert m.Keys != {};
        ghost var o :| o in m;
      } else {
        assert m.Keys == {};
      }
    }
  }

  lemma Regroup<T>(a: seq<T>, b: seq<T>, c: seq<T>)
    ensures a + (b + c) == (a + b) + c
  {
  }

  // Cutting the next batch off the names still to be requested.
  lemma CutBatch(agent: Agent, rest: seq<OID>, size: nat, most: nat)
    requires most >= 1 && rest != [] && size == (if most >= |rest| then |rest| else most)
    ensures agent.Answers(rest) == agent.Answers(rest[..size]) + agent.Answers(rest[size..])
    ensures agent.AnyFound(rest) == (agent.AnyFound(rest[..size]) || agent.AnyFound(rest[size..]))
    ensures forall o :: o in rest ==> o in rest[..size] || o in rest[size..]
    ensures GetRequests(Batches(rest, most)) == [GetRequest(rest[..size])] + GetRequests(Batches(rest[size..], most))
  {
    AnswersConcat(agent, rest[..size], rest[size..]);
    assert rest == rest[..size] + rest[size..];
    if size == |rest| {
      assert rest[..size] == rest && rest[size..] == [];
    }
    assert Batches(rest, most) == [rest[..size]] + Batches(rest[size..], most);
  }

  lemma AnswersConcat(agent: Agent, a: seq<OID>, b: seq<OID>)
    ensures agent.Answers(a + b) == agent.Answers(a) + agent.Answers(b)
    ensures agent.AnyFound(a + b) == (agent.AnyFound(a) || agent.AnyFound(b))
  {
    var c := a + b;
    if i :| 0 <= i < |a| && WasSuccessful(agent.Answer(a[i])) {
      assert c[i] == a[i];
    }
    if i :| 0 <= i < |b| && WasSuccessful(agent.Answer(b[i])) {
      assert c[|a| + i] == b[i];
    }
  }

  lemma {:induction false} NothingKnown(oids: seq<OID>)
    ensures Hits(oids, {}) == [] && Misses(oids, {}) == oids
  {
    if oids == [] {
    } else {
      NothingKnown(oids[..|oids| - 1]);
      SplitLast(oids);
    }
  }

  // Serving hits first only reorders the answers.
  lemma GetTransparent(agent: Agent, oids: seq<OID>, known: set<OID>)
    ensures multiset(agent.Answers(Hits(oids, known)) + agent.Answers(Misses(oids, known)))
            == multiset(agent.Answers(oids))
    ensures (agent.AnyFound(Hits(oids, known)) || agent.AnyFound(Misses(oids, known))) <==> agent.AnyFound(oids)
  {
    HitsMissesPartition(oids, known);
    AnswersConcat(agent, Hits(oids, known), Misses(oids, known));
    AnswersPermuted(agent, Hits(oids, known) + Misses(oids, known), oids);
  }

  lemma AnswersPermuted(agent: Agent, a: seq<OID>, b: seq<OID>)
    requires multiset(a) == multiset(b)
    ensures multiset(agent.Answers(a)) == multiset(agent.Answers(b))
    ensures agent.AnyFound(a) <==> agent.AnyFound(b)
  {
    forall r
      ensures multiset(agent.Answers(a))[r] == multiset(agent.Answers(b))[r]
    {
      AnswerCount(agent, a, r);
      AnswerCount(agent, b, r);
    }
    assert forall o :: o in a <==> o in multiset(a);
    assert forall o :: o in b <==> o in multiset(b);
    if i :| 0 <= i < |a| && WasSuccessful(agent.Answer(a[i])) {
      assert a[i] in b;
    }
    if i :| 0 <= i < |b| && WasSuccessful(agent.Answer(b[i])) {
      assert b[i] in a;
    }
  }

  // An answer carries its name, so answers are as many as the names they answer.
  lemma {:induction false} AnswerCount(agent: Agent, oids: seq<OID>, r: Response)
    ensures multiset(agent.Answers(oids))[r] == if r == agent.Answer(r.oid) then multiset(oids)[r.oid] else 0
  {
    if oids == [] {
    } else {
      var front, o := oids[..|oids| - 1], oids[|oids| - 1];
      AnswerCount(agent, front, r);
      SplitLast(oids);
      FoundSnoc(agent, front, o);
      CountSnoc(front, o, r.oid);
    }
  }

  lemma Snoc(s: seq<OID>, i: nat)
    requires i <= |s|
    ensures s[..|s|] == s
    ensures i < |s| ==> s[..i + 1] == s[..i] + [s[i]] && s[..i + 1][..i] == s[..i]
  {
  }

  lemma FoundSnoc(agent: Agent, oids: seq<OID>, o: OID)
    ensures agent.Answers(oids + [o]) == agent.Answers(oids) + [agent.Answer(o)]
    ensures agent.AnyFound(oids + [o]) == (agent.AnyFound(oids) || WasSuccessful(agent.Answer(o)))
  {
    var all := oids + [o];
    assert all[|oids|] == o && forall i :: 0 <= i < |oids| ==> all[i] == oids[i];
  }

  // ---------- any history ----------

  datatype Op = Get(oids: seq<OID>) | Walk(oid: OID) | Toggle(on: bool) | SetMax(n: int)

  // A get that came back: the answers and the verdict of an uncached one, up to order.
  ghost predicate SameAsUncached(agent: Agent, oids: seq<OID>, r: Reply) {
    match r
    case Ok(responses) =>
      (exists o :: o in oids && agent.kind(o).Data?) && multiset(responses) == multiset(agent.Answers(oids))
    case Err(error) => error == NotFound && forall o :: o in oids ==> !agent.kind(o).Data?
  }

  lemma FoundIsData(agent: Agent, oids: seq<OID>)
    ensures agent.AnyFound(oids) <==> exists o :: o in oids && agent.kind(o).Data?
  {
    if o :| o in oids && agent.kind(o).Data? {
      var i :| 0 <= i < |oids| && oids[i] == o;
      assert WasSuccessful(agent.Answer(oids[i]));
    }
  }

  // What an operation returned, if the transport let it through.
  ghost predicate Faithful(agent: Agent, op: Op, r: Reply) {
    r != Err(Transport) ==>
      match op
      case Get(oids) => SameAsUncached(agent, oids, r)
      case Walk(oid) =>
        if agent.subtree(oid) == [] then r == Err(NotFound) else r == Ok(agent.Answers(agent.subtree(oid)))
      case _ => true
  }

  // Whether the cache is on before operation i.
  function CacheOn(first: bool, ops: seq<Op>, i: nat): bool
    requires i <= |ops|
  {
    if i == 0 then first else if ops[i - 1].Toggle? then ops[i - 1].on else CacheOn(first, ops, i - 1)
  }

  // A name that a walk listed while the cache was on.
  predicate Listed(agent: Agent, op: Op, r: Reply, on: bool, n: OID) {
    op.Walk? && r.Ok? && on && n in agent.subtree(op.oid)
  }

  ghost predicate NoStale(c: Client)
    reads c, c.walkCache
  {
    forall o :: !c.StaleFailure(o)
  }

  // What an operation returned, and how many requests it sent.
  datatype Outcome = Outcome(reply: Reply, requests: nat)

  function TotalRequests(outs: seq<Outcome>): nat {
    if outs == [] then 0 else TotalRequests(outs[..|outs| - 1]) + outs[|outs| - 1].requests
  }

  lemma TotalSnoc(outs: seq<Outcome>, out: Outcome)
    ensures TotalRequests(outs + [out]) == TotalRequests(outs) + out.requests
  {
    assert (outs + [out])[..|outs|] == outs;
  }

  // Some caching walk before operation i listed the name.
  ghost predicate ListedBefore(agent: Agent, first: bool, ops: seq<Op>, outs: seq<Outcome>, i: nat, n: OID)
    requires i <= |ops| && i <= |outs|
  {
    exists k :: 0 <= k < i && Listed(agent, ops[k], outs[k].reply, CacheOn(first, ops, k), n)
  }

  // A get with the cache on, of names that caching walks listed before it.
  ghost predicate GetOfListed(agent: Agent, first: bool, ops: seq<Op>, outs: seq<Outcome>, i: nat)
    requires i < |ops| && i <= |outs|
  {
    && ops[i].Get? && CacheOn(first, ops, i)
    && forall o :: o in ops[i].oids ==> ListedBefore(agent, first, ops, outs, i, o)
  }

  // One operation, given the names cached before and after it and whether the cache was on: a
  // faithful reply, no name forgotten, listed names cached, and no request for cached names.
  ghost predicate Sound(agent: Agent, op: Op, on: bool, out: Outcome, keys: set<OID>, newKeys: set<OID>) {
    && Faithful(agent, op, out.reply) && keys <= newKeys
    && (forall n :: Listed(agent, op, out.reply, on, n) ==> n in newKeys)
    && (op.Get? && on && (forall o :: o in op.oids ==> o in keys) ==> out.requests == 0)
  }

  method Perform(c: Client, op: Op) returns (out: Outcome)
    requires c.Valid()
    modifies c`useCache, c`maxOids, c`sent, c.getCache, c.walkCache
    ensures c.Valid() && |c.sent| == |old(c.sent)| + out.requests
    ensures Sound(c.agent, op, old(c.useCache), out, old(c.getCache.cache.Keys), c.getCache.cache.Keys)
    ensures c.useCache == if op.Toggle? then op.on else old(c.useCache)
    ensures CleanTransport(c.agent) && old(NoStale(c)) ==> out.reply != Err(Transport) && NoStale(c)
  {
    var count := |c.sent|;
    var r;
    match op {
      case Get(oids) =>
        FoundIsData(c.agent, oids);
        r := c.SNMPGet(oids);
      case Walk(oid) =>
        r := c.SNMPWalk(oid);
        assert Faithful(c.agent, op, r);
      case Toggle(on) =>
        c.UseCache(on);
        r := Ok([]);
      case SetMax(n) =>
        var _ := c.SetMaxOIDs(n);
        r := Ok([]);
    }
    out := Outcome(r, |c.sent| - count);
  }

  // One more outcome changes nothing about what was listed before.
  lemma ListedSame(agent: Agent, first: bool, ops: seq<Op>, outs: seq<Outcome>, out: Outcome, i: nat, n: OID)
    requires i <= |outs| < |ops|
    ensures ListedBefore(agent, first, ops, outs + [out], i, n) <==> ListedBefore(agent, first, ops, outs, i, n)
  {
    var all := outs + [out];
    assert forall k :: 0 <= k < i ==> all[k] == outs[k];
    if ListedBefore(agent, first, ops, outs, i, n) {
      var k :| 0 <= k < i && Listed(agent, ops[k], outs[k].reply, CacheOn(first, ops, k), n);
      assert Listed(agent, ops[k], all[k].reply, CacheOn(first, ops, k), n);
    }
  }

  lemma ListedNext(agent: Agent, first: bool, ops: seq<Op>, outs: seq<Outcome>, out: Outcome, n: OID)
    requires |outs| < |ops| && ListedBefore(agent, first, ops, outs + [out], |outs| + 1, n)
    ensures ListedBefore(agent, first, ops, outs, |outs|, n)
            || Listed(agent, ops[|outs|], out.reply, CacheOn(first, ops, |outs|), n)
  {
    var all := outs + [out];
    var k :| 0 <= k < |all| && Listed(agent, ops[k], all[k].reply, CacheOn(first, ops, k), n);
    assert k < |outs| ==> all[k] == outs[k];
  }

  lemma GetOfListedSame(agent: Agent, first: bool, ops: seq<Op>, outs: seq<Outcome>, out: Outcome, i: nat)
    requires i <= |outs| < |ops| && GetOfListed(agent, first, ops, outs + [out], i)
    ensures GetOfListed(agent, first, ops, outs, i)
  {
    forall o | o in ops[i].oids
      ensures ListedBefore(agent, first, ops, outs, i, o)
    {
      ListedSame(agent, first, ops, outs, out, i, o);
    }
  }

  ghost predicate AllFaithful(agent: Agent, ops: seq<Op>, outs: seq<Outcome>) {
    |outs| <= |ops| && forall i :: 0 <= i < |outs| ==> Faithful(agent, ops[i], outs[i].reply)
  }

  ghost predicate NoneLost(outs: seq<Outcome>) {
    forall i :: 0 <= i < |outs| ==> outs[i].reply != Err(Transport)
  }

  ghost predicate ListedAreCached(agent: Agent, first: bool, ops: seq<Op>, outs: seq<Outcome>, keys: set<OID>)
    requires |outs| <= |ops|
  {
    forall n :: ListedBefore(agent, first, ops, outs, |outs|, n) ==> n in keys
  }

  ghost predicate ListedAreFree(agent: Agent, first: bool, ops: seq<Op>, outs: seq<Outcome>)
    requires |outs| <= |ops|
  {
    forall i :: 0 <= i < |outs| && GetOfListed(agent, first, ops, outs, i) ==> outs[i].requests == 0
  }

  // What a history guarantees, given the names then in the get cache: faithful outcomes, none lost on
  // a clean transport, all names cached that caching walks listed, and free gets of such names.
  ghost predicate Chronicle(agent: Agent, first: bool, ops: seq<Op>, outs: seq<Outcome>, keys: set<OID>, clean: bool) {
    && AllFaithful(agent, ops, outs) && (clean ==> NoneLost(outs))
    && ListedAreCached(agent, first, ops, outs, keys)
    && ListedAreFree(agent, first, ops, outs)
  }

  lemma CachedStep(agent: Agent, first: bool, ops: seq<Op>, outs: seq<Outcome>, keys: set<OID>,
                   out: Outcome, newKeys: set<OID>)
    requires |outs| < |ops| && ListedAreCached(agent, first, ops, outs, keys)
    requires Sound(agent, ops[|outs|], CacheOn(first, ops, |outs|), out, keys, newKeys)
    ensures ListedAreCached(agent, first, ops, outs + [out], newKeys)
  {
    forall n | ListedBefore(agent, first, ops, outs + [out], |outs| + 1, n)
      ensures n in newKeys
    {
      ListedNext(agent, first, ops, outs, out, n);
    }
  }

  lemma FreeStep(agent: Agent, first: bool, ops: seq<Op>, outs: seq<Outcome>, keys: set<OID>,
                 out: Outcome, newKeys: set<OID>)
    requires |outs| < |ops| && ListedAreCached(agent, first, ops, outs, keys)
    requires ListedAreFree(agent, first, ops, outs)
    requires Sound(agent, ops[|outs|], CacheOn(first, ops, |outs|), out, keys, newKeys)
    ensures ListedAreFree(agent, first, ops, outs + [out])
  {
    var all := outs + [out];
    forall i | 0 <= i < |all| && GetOfListed(agent, first, ops, all, i)
      ensures all[i].requests == 0
    {
      GetOfListedSame(agent, first, ops, outs, out, i);
    }
  }

  lemma ChronicleStep(agent: Agent, first: bool, ops: seq<Op>, outs: seq<Outcome>, keys: set<OID>, clean: bool,
                      out: Outcome, newKeys: set<OID>)
    requires Chronicle(agent, first, ops, outs, keys, clean) && |outs| < |ops|
    requires Sound(agent, ops[|outs|], CacheOn(first, ops, |outs|), out, keys, newKeys)
    requires clean ==> out.reply != Err(Transport)
    ensures Chronicle(agent, first, ops, outs + [out], newKeys, clean)
  {
    CachedStep(agent, first, ops, outs, keys, out, newKeys);
    FreeStep(agent, first, ops, outs, keys, out, newKeys);
  }

  ghost predicate CleanTransport(agent: Agent) {
    forall n :: !agent.fails(n)
  }

  // In any history of gets, walks, cache toggles and transport failures: whatever comes back is
  // what the agent says; if the transport never fails everything comes back; every name a caching
  // walk listed stays in the get cache; and a later get of such names sends no request.
  method History(c: Client, ops: seq<Op>) returns (outs: seq<Outcome>)
    requires c.Valid()
    modifies c`useCache, c`maxOids, c`sent, c.getCache, c.walkCache
    ensures c.Valid() && |outs| == |ops| && |c.sent| == |old(c.sent)| + TotalRequests(outs)
    ensures AllFaithful(c.agent, ops, outs)
    ensures CleanTransport(c.agent) && old(NoStale(c)) ==> NoneLost(outs)
    ensures ListedAreCached(c.agent, old(c.useCache), ops, outs, c.getCache.cache.Keys)
    ensures ListedAreFree(c.agent, old(c.useCache), ops, outs)
  {
    outs := [];
    ghost var first, clean := c.useCache, CleanTransport(c.agent) && NoStale(c);
    for i := 0 to |ops|
      invariant c.Valid() && |outs| == i && c.useCache == CacheOn(first, ops, i)
      invariant |c.sent| == |old(c.sent)| + TotalRequests(outs)
      invariant clean ==> NoStale(c)
      invariant Chronicle(c.agent, first, ops, outs, c.getCache.cache.Keys, clean)
    {
      ghost var keys := c.getCache.cache.Keys;
      var out := Perform(c, ops[i]);
      ChronicleStep(c.agent, first, ops, outs, keys, clean, out, c.getCache.cache.Keys);
      TotalSnoc(outs, out);
      outs := outs + [out];
    }
  }

  // Once every name is cached, a get with the cache on makes no request.
  lemma {:induction false} CachedGetIsFree(oids: seq<OID>, known: set<OID>, size: nat)
    requires size >= 1
    ensures Misses(oids, known) == [] <==> forall o :: o in oids ==> o in known
    ensures GetRequests(Batches(Misses(oids, known), size)) == [] <==> Misses(oids, known) == []
  {
    if oids == [] {
    } else {
      CachedGetIsFree(oids[..|oids| - 1], known, size);
      SplitLast(oids);
    }
  }
}
