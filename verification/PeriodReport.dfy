/** A measurement period from the first packet to the reported loss rate (measure/crontab.go,
    statisticsAnalyse/analyse.go): when the number is what it is called. */
module PeriodReport {
  import opened Analysis
  import opened Collecting
  import opened EchoMessage
  import opened EchoPeriod
  import opened Statistics

  // The packets of the period that were answered.
  ghost function AnsweredPackets(n: nat, es: seq<Event>): set<nat>
    requires Legal(Init(n), es)
  {
    set k: nat | 1 <= k <= n && SomeAnswer(Init(n), es, k)
  }

  // The fraction of the n packets sent that were not answered.
  ghost function TrueLoss(n: nat, es: seq<Event>): real
    requires Legal(Init(n), es)
  {
    if n == 0 then 0.0 else 1.0 - |AnsweredPackets(n, es)| as real / n as real
  }

  // What GetResult reports for the list and the table of the period.
  ghost function ReportedLoss(n: nat, es: seq<Event>, visits: seq<Visit>): Float
    requires Legal(Init(n), es)
  {
    Loss(|Collected(visits, n)|, |Exec(Init(n), es).table|)
  }

  // A number in [0, 1), at most a hundredth below the true loss.
  ghost predicate LossAccurate(n: nat, es: seq<Event>, visits: seq<Visit>)
    requires Legal(Init(n), es)
  {
    var loss, lost := ReportedLoss(n, es, visits), TrueLoss(n, es);
    loss.Finite? && 0.0 <= loss.r < 1.0 && lost - 0.01 < loss.r <= lost
  }

  // The TTL sample of a period of up to 65000 packets: for each packet collected, 64 less the TTL
  // byte of the echo whose answer counts.
  lemma ReportedTtls(n: nat, es: seq<Event>, visits: seq<Visit>, i: nat)
    requires WholePeriod(n, es, visits) && n <= MAX_SEQUENCE && i < |Collected(visits, n)|
    ensures var k := Collected(visits, n)[i];
            var counted := CountedAnswer(Init(n), es, k, 0);
            counted.Some? && TtlList(Exec(Init(n), es).table, Collected(visits, n))[i] == 64 - counted.value.0
  {
    var k := Collected(visits, n)[i];
    PeriodKeys(n, es);
    PeriodVisits(n, es, visits);
    PeriodSequences(n, es, visits);
    assert k in Collected(visits, n);
    AnswerCountsIff(n, es, k);
    CountedEntry(n, es, k);
  }

  lemma {:induction false} CountMembers(s: seq<nat>, members: set<nat>)
    requires forall i, j :: 0 <= i < j < |s| ==> s[i] != s[j]
    requires forall k: nat :: k in s <==> k in members
    ensures |s| == |members|
  {
    if s == [] {
      assert members == {};
    } else {
      var front, last := s[..|s| - 1], s[|s| - 1];
      assert last in s && forall k: nat :: k in s <==> k in front || k == last;
      CountMembers(front, members - {last});
    }
  }

  lemma {:induction false} CountUpTo(n: nat, keys: set<nat>)
    requires forall k: nat :: k in keys <==> 1 <= k <= n
    ensures |keys| == n
  {
    if n == 0 {
      assert keys == {};
    } else {
      CountUpTo(n - 1, keys - {n});
    }
  }

  lemma TableSize(n: nat, es: seq<Event>, visits: seq<Visit>)
    requires WholePeriod(n, es, visits)
    ensures |Exec(Init(n), es).table| == if 0 in Exec(Init(n), es).table then n + 1 else n
  {
    PeriodKeys(n, es);
    var table := Exec(Init(n), es).table;
    CountUpTo(n, table.Keys - {0});
    assert |table| == |table.Keys|;
  }

  lemma ShortPeriodLoss(n: nat, es: seq<Event>, visits: seq<Visit>)
    requires WholePeriod(n, es, visits) && n <= MAX_SEQUENCE && Collected(visits, n) != []
    ensures LossAccurate(n, es, visits)
  {
    var sequences := Collected(visits, n);
    PeriodKeys(n, es);
    PeriodVisits(n, es, visits);
    PeriodSequences(n, es, visits);
    CountMembers(sequences, AnsweredPackets(n, es));
    TableSize(n, es, visits);
    LossRateAccurate(sequences, Exec(Init(n), es).table);
  }

  // n zeros against n + 1 keys floor to no loss at all.
  lemma NoLossReported(n: nat)
    requires n >= 100
    ensures LossRate(n, n + 1) == 0.0
  {
    var m := (n + 1) as real;
    assert n as real / m == 1.0 - 1.0 / m;
    assert 0.0 < 1.0 / m < 0.01;
  }

  // The zeros report no loss although every packet counts as lost.
  lemma LongPeriodLoss(n: nat) returns (es: seq<Event>, visits: seq<Visit>)
    requires n > MAX_SEQUENCE
    ensures WholePeriod(n, es, visits) && Collected(visits, n) != []
    ensures ReportedLoss(n, es, visits) == Finite(0.0) && TrueLoss(n, es) == 1.0
  {
    es, visits := ZerosReturned(n);
    TableSize(n, es, visits);
    NoLossReported(n);
    forall k: nat | 1 <= k <= n
      ensures !SomeAnswer(Init(n), es, k)
    {
      SeenIsAnswered(n, es, visits, k);
    }
    assert AnsweredPackets(n, es) == {};
  }

  // Whatever the interleaving, the loss rate reported for a period in which something was collected
  // is within a hundredth of the fraction of its packets that went unanswered, exactly for periods
  // of up to 65000 packets.
  lemma PeriodLossIff(n: nat)
    ensures (forall es, visits :: WholePeriod(n, es, visits) && Collected(visits, n) != [] ==>
               LossAccurate(n, es, visits))
            <==> n <= MAX_SEQUENCE
  {
    if n <= MAX_SEQUENCE {
      forall es, visits | WholePeriod(n, es, visits) && Collected(visits, n) != []
        ensures LossAccurate(n, es, visits)
      {
        ShortPeriodLoss(n, es, visits);
      }
    } else {
      var es, visits := LongPeriodLoss(n);
      assert !LossAccurate(n, es, visits);
    }
  }
}
