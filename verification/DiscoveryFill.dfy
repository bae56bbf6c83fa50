/** SNMP discovery, first half (network/snmp_client.go, NewSNMPClientByConnectionData):
    validating the connection data and filling the job queue before any worker runs. */
module DiscoveryFill {
  import opened Wrappers

  datatype Version = V1 | V2c | V3

  function ParseVersion(v: string): Option<Version> {
    if v == "1" then Some(V1) else if v == "2c" then Some(V2c) else if v == "3" then Some(V3) else None
  }

  // A connection attempt to make; SNMPv3 attempts carry no community.
  datatype Job = Job(port: int, version: string, community: string)

  // The discovery settings are optional, as in the source.
  datatype ConnectionData = ConnectionData(
    communities: seq<string>, versions: seq<string>, ports: seq<int>,
    parallelRequests: Option<int>, timeout: Option<int>, retries: Option<int>)

  datatype Rejection = NilData | InvalidPreferences | InvalidVersion(v: string)

  ghost predicate Valid(versions: seq<string>) {
    forall v :: v in versions ==> v == "1" || v == "2c" || v == "3"
  }

  // The reported version is the first one that is no version.
  ghost predicate FirstInvalid(versions: seq<string>, rejection: Rejection) {
    exists i :: 0 <= i < |versions| && Valid(versions[..i]) && !Valid([versions[i]])
                && rejection == InvalidVersion(versions[i])
  }

  lemma ValidOne(v: string)
    ensures Valid([v]) <==> ParseVersion(v).Some?
    ensures ParseVersion(v).Some? <==> v == "1" || v == "2c" || v == "3"
  {
    assert v in [v];
  }

  // The checks made before anything is sent.
  method Validate(data: Option<ConnectionData>)
    returns (rejected: Option<Rejection>, v2cAvailable: bool, v3Available: bool)
    ensures data.None? ==> rejected == Some(NilData)
    ensures data.Some? ==>
      var d := data.value;
      var prefs := d.parallelRequests.Some? && d.timeout.Some? && d.retries.Some?
                   && d.parallelRequests.value > 0 && d.timeout.value > 0;
      && (!prefs ==> rejected == Some(InvalidPreferences))
      && (prefs ==> (rejected.None? <==> Valid(d.versions)))
      && (prefs && rejected.Some? ==> FirstInvalid(d.versions, rejected.value))
    ensures rejected.None? ==>
      data.Some? && (v2cAvailable <==> "2c" in data.value.versions) && (v3Available <==> "3" in data.value.versions)
  {
    v2cAvailable, v3Available := false, false;
    if data.None? {
      return Some(NilData), false, false;
    }
    var d := data.value;
    if d.parallelRequests.None? || d.timeout.None? || d.retries.None?
       || d.parallelRequests.value <= 0 || d.timeout.value <= 0 {
      return Some(InvalidPreferences), false, false;
    }
    for i := 0 to |d.versions|
      invariant Valid(d.versions[..i])
      invariant v2cAvailable <==> "2c" in d.versions[..i]
      invariant v3Available <==> "3" in d.versions[..i]
    {
      var version := ParseVersion(d.versions[i]);
      ValidOne(d.versions[i]);
      assert d.versions[i] in d.versions;
      if version.None? {
        return Some(InvalidVersion(d.versions[i])), v2cAvailable, v3Available;
      }
      if version == Some(V3) {
        v3Available := true;
      }
      if version == Some(V2c) {
        v2cAvailable := true;
      }
      assert d.versions[..i + 1] == d.versions[..i] + [d.versions[i]];
    }
    assert d.versions[..|d.versions|] == d.versions;
    rejected := None;
  }

  // ---------- the queue ----------

  // Both channels are made with this capacity.
  function Capacity(d: ConnectionData): nat {
    |d.ports| * |d.versions| * |d.communities|
  }

  function CommunityJobs(port: int, version: string, communities: seq<string>): seq<Job> {
    seq(|communities|, i requires 0 <= i < |communities| => Job(port, version, communities[i]))
  }

  function VersionJobs(port: int, version: string, communities: seq<string>): seq<Job> {
    if version == "3" then [Job(port, version, "")] else CommunityJobs(port, version, communities)
  }

  function PortJobs(port: int, versions: seq<string>, communities: seq<string>): seq<Job> {
    if versions == [] then []
    else
      PortJobs(port, versions[..|versions| - 1], communities)
      + VersionJobs(port, versions[|versions| - 1], communities)
  }

  function Jobs(ports: seq<int>, versions: seq<string>, communities: seq<string>): seq<Job> {
    if ports == [] then []
    else Jobs(ports[..|ports| - 1], versions, communities) + PortJobs(ports[|ports| - 1], versions, communities)
  }

  function AllJobs(d: ConnectionData): seq<Job> {
    Jobs(d.ports, d.versions, d.communities)
  }

  function CountV3(versions: seq<string>): nat {
    if versions == [] then 0
    else CountV3(versions[..|versions| - 1]) + if versions[|versions| - 1] == "3" then 1 else 0
  }

  lemma {:induction false} CountV3Bounds(versions: seq<string>)
    ensures CountV3(versions) <= |versions| && (CountV3(versions) == 0 <==> "3" !in versions)
  {
    if versions == [] {
    } else {
      CountV3Bounds(versions[..|versions| - 1]);
      assert versions == versions[..|versions| - 1] + [versions[|versions| - 1]];
    }
  }

  // Version 3 makes one job a port, any other version one a community.
  function PerPort(versions: seq<string>, c: nat): nat {
    CountV3Bounds(versions);
    CountV3(versions) + Times(|versions| - CountV3(versions), c)
  }

  function Times(a: nat, b: nat): nat {
    a * b
  }

  lemma TimesStep(a: nat, b: nat)
    ensures Times(a + 1, b) == Times(a, b) + b
  {
  }

  lemma {:induction false} PortJobsLength(port: int, versions: seq<string>, communities: seq<string>)
    ensures |PortJobs(port, versions, communities)| == PerPort(versions, |communities|)
  {
    CountV3Bounds(versions);
    if versions == [] {
    } else {
      var front := versions[..|versions| - 1];
      CountV3Bounds(front);
      PortJobsLength(port, front, communities);
      TimesStep(|front| - CountV3(front), |communities|);
    }
  }

  lemma {:induction false} JobsLength(ports: seq<int>, versions: seq<string>, communities: seq<string>)
    ensures |Jobs(ports, versions, communities)| == Times(|ports|, PerPort(versions, |communities|))
  {
    if ports == [] {
    } else {
      JobsLength(ports[..|ports| - 1], versions, communities);
      PortJobsLength(ports[|ports| - 1], versions, communities);
      TimesStep(|ports| - 1, PerPort(versions, |communities|));
    }
  }

  lemma SpacePerPort(n3: nat, n: nat, c: nat)
    requires n3 <= n
    ensures n3 + Times(n - n3, c) <= Times(n, c) <==> c >= 1 || n3 == 0
  {
    assert n * c == n3 * c + (n - n3) * c;
    if c >= 1 {
      assert n3 * c >= n3;
    }
  }

  lemma TimesOrder(p: nat, a: nat, b: nat)
    ensures Times(p, a) <= Times(p, b) <==> a <= b || p == 0
  {
    if a <= b {
      assert p * a <= p * b;
    } else if p > 0 {
      assert p * (b + 1) == p * b + p && p * (b + 1) <= p * a;
    }
  }

  lemma CapacityIs(d: ConnectionData)
    ensures Capacity(d) == Times(|d.ports|, Times(|d.versions|, |d.communities|))
  {
  }

  // The jobs fit the queue exactly if there is a community, or no port, or no version 3.
  lemma FillFitsIff(d: ConnectionData)
    ensures |AllJobs(d)| <= Capacity(d) <==> |d.communities| >= 1 || d.ports == [] || "3" !in d.versions
  {
    var c := |d.communities|;
    CountV3Bounds(d.versions);
    JobsLength(d.ports, d.versions, d.communities);
    CapacityIs(d);
    SpacePerPort(CountV3(d.versions), |d.versions|, c);
    TimesOrder(|d.ports|, PerPort(d.versions, c), Times(|d.versions|, c));
  }

  // Version 3 goes without a community, any other version with one of the configured ones.
  predicate FitsVersion(j: Job, communities: seq<string>) {
    if j.version == "3" then j.community == "" else j.community in communities
  }

  // The jobs are all combinations of a configured port, version and community, and no others.
  lemma {:induction false} JobsAreCombinations(ports: seq<int>, versions: seq<string>, communities: seq<string>, j: Job)
    ensures j in Jobs(ports, versions, communities)
            <==> j.port in ports && j.version in versions && FitsVersion(j, communities)
  {
    if ports == [] {
    } else {
      var front, last := ports[..|ports| - 1], ports[|ports| - 1];
      JobsAreCombinations(front, versions, communities, j);
      PortJobsAre(last, versions, communities, j);
      assert ports == front + [last];
    }
  }

  lemma {:induction false} PortJobsAre(port: int, versions: seq<string>, communities: seq<string>, j: Job)
    ensures j in PortJobs(port, versions, communities)
            <==> j.port == port && j.version in versions && FitsVersion(j, communities)
  {
    if versions == [] {
    } else {
      var front, last := versions[..|versions| - 1], versions[|versions| - 1];
      PortJobsAre(port, front, communities, j);
      VersionJobsAre(port, last, communities, j);
      assert versions == front + [last];
    }
  }

  lemma VersionJobsAre(port: int, version: string, communities: seq<string>, j: Job)
    ensures j in VersionJobs(port, version, communities)
            <==> j.port == port && j.version == version && FitsVersion(j, communities)
  {
    if version != "3" && j.port == port && j.version == version && j.community in communities {
      var i :| 0 <= i < |communities| && communities[i] == j.community;
      assert CommunityJobs(port, version, communities)[i] == j;
    }
  }

  // A send on the full buffered channel blocks for ever: no worker runs yet.
  method Send(queue: seq<Job>, todo: seq<Job>, capacity: nat) returns (after: seq<Job>, blocked: bool)
    requires |queue| <= capacity
    ensures blocked <==> |queue + todo| > capacity
    ensures !blocked ==> after == queue + todo
  {
    after := queue;
    for m := 0 to |todo|
      invariant after == queue + todo[..m] && |after| <= capacity
    {
      if |after| == capacity {
        return after, true;
      }
      after := after + [todo[m]];
    }
    assert todo[..|todo|] == todo;
    blocked := false;
  }

  lemma Associate(a: seq<Job>, b: seq<Job>, c: seq<Job>)
    ensures (a + b) + c == a + (b + c)
  {
  }

  method FillPort(queue: seq<Job>, port: int, versions: seq<string>, communities: seq<string>, capacity: nat)
    returns (after: seq<Job>, blocked: bool)
    requires |queue| <= capacity
    ensures blocked ==> |queue + PortJobs(port, versions, communities)| > capacity
    ensures !blocked ==> after == queue + PortJobs(port, versions, communities) && |after| <= capacity
  {
    PortJobsGrow(port, versions, communities, 0);
    assert PortJobs(port, versions[..0], communities) == [];
    after := queue;
    for k := 0 to |versions|
      invariant after == queue + PortJobs(port, versions[..k], communities) && |after| <= capacity
    {
      PortJobsGrow(port, versions, communities, k + 1);
      Associate(queue, PortJobs(port, versions[..k], communities), VersionJobs(port, versions[k], communities));
      after, blocked := Send(after, VersionJobs(port, versions[k], communities), capacity);
      if blocked {
        return;
      }
    }
    blocked := false;
  }

  // The fill of the queue over ports, versions and communities.
  method FillPorts(ports: seq<int>, versions: seq<string>, communities: seq<string>, capacity: nat)
    returns (queue: seq<Job>, blocked: bool)
    ensures !blocked ==> queue == Jobs(ports, versions, communities)
    ensures blocked <==> |Jobs(ports, versions, communities)| > capacity
  {
    JobsGrow(ports, versions, communities, 0);
    queue := [];
    for i := 0 to |ports|
      invariant queue == Jobs(ports[..i], versions, communities) && |queue| <= capacity
    {
      JobsGrow(ports, versions, communities, i + 1);
      queue, blocked := FillPort(queue, ports[i], versions, communities, capacity);
      if blocked {
        return;
      }
    }
    blocked := false;
  }

  // Discovery hangs before it starts exactly if version 3 is asked for on some port without any community.
  method Fill(d: ConnectionData) returns (queue: seq<Job>, blocked: bool)
    ensures !blocked ==> queue == AllJobs(d)
    ensures blocked <==> d.communities == [] && d.ports != [] && "3" in d.versions
  {
    FillFitsIff(d);
    queue, blocked := FillPorts(d.ports, d.versions, d.communities, Capacity(d));
  }

  lemma {:induction false} JobsGrow(ports: seq<int>, versions: seq<string>, communities: seq<string>, i: nat)
    requires i <= |ports|
    ensures |Jobs(ports[..i], versions, communities)| <= |Jobs(ports, versions, communities)|
    ensures i > 0 ==> Jobs(ports[..i], versions, communities)
                      == Jobs(ports[..i - 1], versions, communities) + PortJobs(ports[i - 1], versions, communities)
    ensures ports[..|ports|] == ports
  {
    assert i > 0 ==> ports[..i][..i - 1] == ports[..i - 1];
    var front := if ports == [] then [] else ports[..|ports| - 1];
    if i < |ports| {
      JobsGrow(front, versions, communities, i);
      assert front[..i] == ports[..i];
    } else {
      assert ports[..i] == ports;
    }
  }

  lemma {:induction false} PortJobsGrow(port: int, versions: seq<string>, communities: seq<string>, k: nat)
    requires k <= |versions|
    ensures |PortJobs(port, versions[..k], communities)| <= |PortJobs(port, versions, communities)|
    ensures k > 0 ==> PortJobs(port, versions[..k], communities)
                      == PortJobs(port, versions[..k - 1], communities)
                         + VersionJobs(port, versions[k - 1], communities)
    ensures versions[..|versions|] == versions
  {
    assert k > 0 ==> versions[..k][..k - 1] == versions[..k - 1];
    var front := if versions == [] then [] else versions[..|versions| - 1];
    if k < |versions| {
      PortJobsGrow(port, front, communities, k);
      assert front[..k] == versions[..k];
    } else {
      assert versions[..k] == versions;
    }
  }
}
