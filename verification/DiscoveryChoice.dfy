/** SNMP discovery, second half (network/snmp_client.go, NewSNMPClientByConnectionData): the
    collector that reads attempt results in arrival order and stops early. */
module DiscoveryChoice {
  import opened DiscoveryFill
  import opened Wrappers

  // What an attempt leads to, whenever it is made.
  datatype Outcome = Connected | NetworkError | OtherError

  // One discovery: the queued jobs, the outcome of each, and the two availability flags.
  datatype Discovery = Discovery(jobs: seq<Job>, outcomes: seq<Outcome>, v2c: bool, v3: bool)

  // The flags come from the configured versions, which contain every job's version.
  ghost predicate WellFormed(d: Discovery) {
    && |d.outcomes| == |d.jobs|
    && (forall i :: 0 <= i < |d.jobs| ==> ParseVersion(d.jobs[i].version).Some?)
    && (forall i :: 0 <= i < |d.jobs| ==> (d.jobs[i].version == "3" ==> d.v3) && (d.jobs[i].version == "2c" ==> d.v2c))
  }

  // What the fill queues and what validation finds out make a discovery of this kind.
  lemma FilledIsWellFormed(data: ConnectionData, outcomes: seq<Outcome>)
    requires Valid(data.versions) && |outcomes| == |AllJobs(data)|
    ensures WellFormed(Discovery(AllJobs(data), outcomes, "2c" in data.versions, "3" in data.versions))
  {
    forall i | 0 <= i < |AllJobs(data)|
      ensures AllJobs(data)[i].version in data.versions
    {
      JobsAreCombinations(data.ports, data.versions, data.communities, AllJobs(data)[i]);
    }
  }

  predicate Succeeds(d: Discovery, i: nat) {
    i < |d.jobs| && i < |d.outcomes| && d.outcomes[i] == Connected
  }

  function Rank(v: string): nat {
    if v == "3" then 3 else if v == "2c" then 2 else if v == "1" then 1 else 0
  }

  function RankOf(d: Discovery, i: nat): nat
    requires i < |d.jobs|
  {
    Rank(d.jobs[i].version)
  }

  // The collector stops at a success that nothing configured can beat.
  predicate Stops(d: Discovery, i: nat) {
    Succeeds(d, i) &&
    var v := d.jobs[i].version;
    v == "3" || (v == "2c" && !d.v3) || (v == "1" && !d.v3 && !d.v2c)
  }

  // A sequence of job numbers the collector reads: in range, stopping only at the end.
  ghost predicate Readable(d: Discovery, read: seq<nat>) {
    && (forall k :: 0 <= k < |read| ==> read[k] < |d.jobs|)
    && (forall k :: 0 <= k < |read| - 1 ==> !Stops(d, read[k]))
  }

  // One turn of the collector's loop on a successful result.
  function Better(d: Discovery, best: Option<nat>, i: nat): Option<nat>
    requires i < |d.jobs| && (best.Some? ==> best.value < |d.jobs|)
  {
    var v := d.jobs[i].version;
    if v == "3" then Some(i)
    else if v == "2c" then
      (if !d.v3 || best.None? || d.jobs[best.value].version == "1" then Some(i) else best)
    else
      (if (!d.v3 && !d.v2c) || best.None? then Some(i) else best)
  }

  // ---------- the reference ----------

  // The first read job among the successes of highest version.
  ghost predicate IsBestFirst(d: Discovery, read: seq<nat>, best: Option<nat>)
    requires forall k :: 0 <= k < |read| ==> read[k] < |d.jobs|
  {
    match best
    case None => forall k :: 0 <= k < |read| ==> !Succeeds(d, read[k])
    case Some(b) =>
      exists k :: 0 <= k < |read| && read[k] == b && Succeeds(d, b)
        && (forall m :: 0 <= m < |read| && Succeeds(d, read[m]) ==> RankOf(d, read[m]) <= RankOf(d, b))
        && (forall m :: 0 <= m < k && Succeeds(d, read[m]) ==> RankOf(d, read[m]) < RankOf(d, b))
  }

  lemma BetterIsBest(d: Discovery, read: seq<nat>, best: Option<nat>, i: nat)
    requires WellFormed(d) && Readable(d, read + [i])
    requires (forall k :: 0 <= k < |read| ==> read[k] < |d.jobs|) && IsBestFirst(d, read, best) && i < |d.jobs|
    requires best.Some? ==> best.value < |d.jobs|
    ensures IsBestFirst(d, read + [i], if Succeeds(d, i) then Better(d, best, i) else best)
  {
    var all := read + [i];
    assert all[|read|] == i;
    assert forall k :: 0 <= k < |read| ==> all[k] == read[k] && !Stops(d, all[k]);
    if best.Some? {
      var k :| 0 <= k < |read| && read[k] == best.value
        && (forall m :: 0 <= m < |read| && Succeeds(d, read[m]) ==> RankOf(d, read[m]) <= RankOf(d, best.value))
        && (forall m :: 0 <= m < k && Succeeds(d, read[m]) ==> RankOf(d, read[m]) < RankOf(d, best.value));
      assert !Stops(d, read[k]);
      assert all[k] == best.value;
    }
  }

  // The first non-network error read, if any.
  ghost predicate IsFirstCritical(d: Discovery, read: seq<nat>, critical: Option<nat>)
    requires |d.outcomes| == |d.jobs| && forall k :: 0 <= k < |read| ==> read[k] < |d.jobs|
  {
    match critical
    case None => forall k :: 0 <= k < |read| ==> d.outcomes[read[k]] != OtherError
    case Some(c) =>
      exists k :: 0 <= k < |read| && read[k] == c && d.outcomes[c] == OtherError
        && forall m :: 0 <= m < k ==> d.outcomes[read[m]] != OtherError
  }

  lemma CriticalStep(d: Discovery, read: seq<nat>, critical: Option<nat>, i: nat)
    requires WellFormed(d) && i < |d.jobs| && (forall k :: 0 <= k < |read| ==> read[k] < |d.jobs|)
    requires IsFirstCritical(d, read, critical)
    ensures IsFirstCritical(d, read + [i], if d.outcomes[i] == OtherError && critical.None? then Some(i) else critical)
  {
    var all := read + [i];
    assert all[|read|] == i && forall k :: 0 <= k < |read| ==> all[k] == read[k];
    if critical.Some? {
      var k :| 0 <= k < |read| && read[k] == critical.value
        && forall m :: 0 <= m < k ==> d.outcomes[read[m]] != OtherError;
      assert all[k] == critical.value;
    }
  }

  // Where the collector stands after reading some results without a reason to stop before the last.
  ghost predicate Standing(d: Discovery, read: seq<nat>, client: Option<nat>, critical: Option<nat>) {
    && WellFormed(d) && Readable(d, read)
    && IsBestFirst(d, read, client) && (client.Some? ==> client.value < |d.jobs|)
    && IsFirstCritical(d, read, critical)
  }

  lemma TurnKeepsStanding(d: Discovery, read: seq<nat>, client: Option<nat>, critical: Option<nat>, i: nat)
    requires Standing(d, read, client, critical) && i < |d.jobs|
    requires read == [] || !Stops(d, read[|read| - 1])
    ensures Standing(d, read + [i], if Succeeds(d, i) then Better(d, client, i) else client,
                     if d.outcomes[i] == OtherError && critical.None? then Some(i) else critical)
  {
    forall k | 0 <= k < |read|
      ensures (read + [i])[k] == read[k] && !Stops(d, read[k])
    {
    }
    BetterIsBest(d, read, client, i);
    CriticalStep(d, read, critical, i);
  }

  lemma OneMore(arrivals: seq<nat>, i: nat)
    requires i < |arrivals|
    ensures arrivals[..i + 1] == arrivals[..i] + [arrivals[i]]
  {
  }

  // The collector, given the results in arrival order: what it returns depends only on the ones it reads.
  method Collect(d: Discovery, arrivals: seq<nat>) returns (client: Option<nat>, critical: Option<nat>, count: nat)
    requires WellFormed(d) && forall k :: 0 <= k < |arrivals| ==> arrivals[k] < |d.jobs|
    ensures count <= |arrivals| && Readable(d, arrivals[..count])
    ensures count < |arrivals| ==> count > 0 && Stops(d, arrivals[count - 1])
    ensures IsBestFirst(d, arrivals[..count], client)
    ensures client.Some? ==> client.value < |d.jobs|
    ensures IsFirstCritical(d, arrivals[..count], critical)
  {
    client, critical := None, None;
    count := 0;
    for i := 0 to |arrivals|
      invariant count == i && Standing(d, arrivals[..i], client, critical)
      invariant i > 0 ==> !Stops(d, arrivals[i - 1])
    {
      var res := arrivals[i];
      count := i + 1;
      OneMore(arrivals, i);
      TurnKeepsStanding(d, arrivals[..i], client, critical, res);
      if d.outcomes[res] != Connected {
        if d.outcomes[res] == OtherError && critical.None? {
          critical := Some(res);
        }
        continue;
      }
      client := Better(d, client, res);
      if Stops(d, res) {
        break;
      }
    }
  }

  // ---------- the choice does not depend on the schedule ----------

  // The collector is through: it has read every job, or stopped early.
  ghost predicate Complete(d: Discovery, read: seq<nat>) {
    && Readable(d, read)
    && ((forall i :: 0 <= i < |d.jobs| ==> i in read) || (read != [] && Stops(d, read[|read| - 1])))
  }

  // The result has the highest version of all attempts that succeed, read or unread.
  lemma BestOfAll(d: Discovery, read: seq<nat>, best: Option<nat>)
    requires WellFormed(d) && Complete(d, read) && IsBestFirst(d, read, best)
    ensures best.None? <==> forall i :: 0 <= i < |d.jobs| ==> d.outcomes[i] != Connected
    ensures best.Some? ==> best.value < |d.jobs| && d.outcomes[best.value] == Connected
    ensures best.Some? ==> forall i :: 0 <= i < |d.jobs| && d.outcomes[i] == Connected ==>
      RankOf(d, i) <= RankOf(d, best.value)
    ensures best.Some? ==> forall i :: 0 <= i < |d.jobs| && d.outcomes[i] == Connected ==>
      && (d.jobs[i].version == "3" ==> d.jobs[best.value].version == "3")
      && (d.jobs[i].version == "2c" ==> d.jobs[best.value].version in ["3", "2c"])
  {
    if read != [] && Stops(d, read[|read| - 1]) {
      var last := read[|read| - 1];
      assert forall i :: 0 <= i < |d.jobs| ==> RankOf(d, i) <= RankOf(d, last);
      assert best.Some?;
    } else {
      forall i | 0 <= i < |d.jobs| && d.outcomes[i] == Connected
        ensures best.Some? && best.value < |d.jobs| && RankOf(d, i) <= RankOf(d, best.value)
      {
        assert i in read;
        var k :| 0 <= k < |read| && read[k] == i;
        assert Succeeds(d, read[k]);
      }
      assert best.Some? ==> Succeeds(d, best.value);
    }
  }

  // It is the first to arrive of the attempts that succeed with its version.
  lemma FirstOfItsVersion(d: Discovery, read: seq<nat>, best: nat)
    requires WellFormed(d) && Complete(d, read) && IsBestFirst(d, read, Some(best))
    ensures exists k ::
              && 0 <= k < |read| && read[k] == best && best < |d.jobs|
              && forall m :: 0 <= m < k && d.outcomes[read[m]] == Connected ==>
                   d.jobs[read[m]].version != d.jobs[best].version
  {
    var k :| 0 <= k < |read| && read[k] == best && Succeeds(d, best)
      && (forall m :: 0 <= m < |read| && Succeeds(d, read[m]) ==> RankOf(d, read[m]) <= RankOf(d, best))
      && (forall m :: 0 <= m < k && Succeeds(d, read[m]) ==> RankOf(d, read[m]) < RankOf(d, best));
    assert forall m :: 0 <= m < k && d.outcomes[read[m]] == Connected ==> Succeeds(d, read[m]);
  }

  // Two complete schedules of one discovery: the same version, or failure of the same kind.
  lemma ScheduleIndependent(d: Discovery, read1: seq<nat>, read2: seq<nat>,
                            best1: Option<nat>, best2: Option<nat>, critical1: Option<nat>, critical2: Option<nat>)
    requires WellFormed(d) && Complete(d, read1) && Complete(d, read2)
    requires IsBestFirst(d, read1, best1) && IsBestFirst(d, read2, best2)
    requires IsFirstCritical(d, read1, critical1) && IsFirstCritical(d, read2, critical2)
    ensures best1.None? <==> best2.None?
    ensures best1.Some? ==> best1.value < |d.jobs| && best2.value < |d.jobs|
                            && d.jobs[best1.value].version == d.jobs[best2.value].version
    ensures best1.None? ==> (critical1.None? <==> critical2.None?)
  {
    BestOfAll(d, read1, best1);
    BestOfAll(d, read2, best2);
    if best1.Some? {
      assert RankOf(d, best1.value) == RankOf(d, best2.value);
      RankInjective(d.jobs[best1.value].version, d.jobs[best2.value].version);
    } else {
      CriticalOfAll(d, read1, critical1);
      CriticalOfAll(d, read2, critical2);
    }
  }

  lemma RankInjective(v: string, w: string)
    requires ParseVersion(v).Some? && ParseVersion(w).Some? && Rank(v) == Rank(w)
    ensures v == w
  {
  }

  // When nothing succeeds, a non-network error is reported exactly if some attempt has one.
  lemma CriticalOfAll(d: Discovery, read: seq<nat>, critical: Option<nat>)
    requires WellFormed(d) && Complete(d, read) && IsFirstCritical(d, read, critical)
    requires forall i :: 0 <= i < |d.jobs| ==> !Succeeds(d, i)
    ensures critical.Some? <==> exists i :: 0 <= i < |d.jobs| && d.outcomes[i] == OtherError
  {
    if i :| 0 <= i < |d.jobs| && d.outcomes[i] == OtherError {
      assert i in read;
    }
  }
}
