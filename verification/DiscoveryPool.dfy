/** The discovery worker pool (network/snmp_client.go, createNewSNMPClientConcurrent): workers
    over two buffered channels, the collector, and cancellation, in every interleaving. */
module DiscoveryPool {
  import opened DiscoveryFill
  import opened DiscoveryChoice
  import opened Wrappers

  // A worker checks the context, polls the queue, works on a job, or has returned.
  datatype Worker = Ready | Polling | Busy(job: nat) | Exited

  // queue and out are the channels, read is what the collector has received.
  datatype State = State(d: Discovery, capacity: nat, queue: seq<nat>, workers: seq<Worker>,
                         out: seq<nat>, read: seq<nat>, cancelled: bool)

  datatype Step =
    | Check(w: nat)    // the outer select
    | Poll(w: nat)     // the inner select
    | Finish(w: nat)   // out <- result
    | Read             // the collector's <-out
    | Cancel           // by the parent context, or when discovery returns

  function Numbers(n: nat): seq<nat> {
    seq(n, i => i)
  }

  // After the fill: every job queued, every worker about to start.
  function Start(d: Discovery, capacity: nat, parallel: nat): State {
    State(d, capacity, Numbers(|d.jobs|), seq(parallel, _ => Ready), [], [], false)
  }

  predicate Done(s: State) {
    |s.read| == |s.d.jobs| || (s.read != [] && Stops(s.d, s.read[|s.read| - 1]))
  }

  predicate Enabled(s: State, e: Step) {
    match e
    case Check(w) => w < |s.workers| && s.workers[w] == Ready
    case Poll(w) => w < |s.workers| && s.workers[w] == Polling
    case Finish(w) => w < |s.workers| && s.workers[w].Busy? && |s.out| < s.capacity
    case Read => !Done(s) && s.out != []
    case Cancel => true
  }

  function Next(s: State, e: Step): State
    requires Enabled(s, e)
  {
    match e
    case Check(w) => s.(workers := s.workers[w := if s.cancelled then Exited else Polling])
    case Poll(w) =>
      if s.queue == [] then s.(workers := s.workers[w := Exited])
      else s.(workers := s.workers[w := Busy(s.queue[0])], queue := s.queue[1..])
    case Finish(w) => s.(workers := s.workers[w := Ready], out := s.out + [s.workers[w].job])
    case Read => s.(out := s.out[1..], read := s.read + [s.out[0]])
    case Cancel => s.(cancelled := true)
  }

  // ---------- every job in exactly one place ----------

  predicate Holds(w: Worker, j: nat) {
    w == Busy(j)
  }

  function HeldCount(workers: seq<Worker>, j: nat): nat {
    if workers == [] then 0
    else HeldCount(workers[..|workers| - 1], j) + if Holds(workers[|workers| - 1], j) then 1 else 0
  }

  function BusyCount(workers: seq<Worker>): nat {
    if workers == [] then 0
    else BusyCount(workers[..|workers| - 1]) + if workers[|workers| - 1].Busy? then 1 else 0
  }

  function One(b: bool): nat {
    if b then 1 else 0
  }

  lemma {:induction false} HeldUpdate(workers: seq<Worker>, w: nat, x: Worker, j: nat)
    requires w < |workers|
    ensures HeldCount(workers[w := x], j) + One(Holds(workers[w], j)) == HeldCount(workers, j) + One(Holds(x, j))
    ensures BusyCount(workers[w := x]) + One(workers[w].Busy?) == BusyCount(workers) + One(x.Busy?)
  {
    var n := |workers| - 1;
    if w < n {
      HeldUpdate(workers[..n], w, x, j);
      assert workers[w := x][..n] == workers[..n][w := x];
    } else {
      assert workers[w := x][..n] == workers[..n];
    }
  }

  // How often job j is queued, held, answered or read.
  function Places(s: State, j: nat): nat {
    multiset(s.queue)[j] + HeldCount(s.workers, j) + multiset(s.out)[j] + multiset(s.read)[j]
  }

  ghost predicate Conserved(s: State) {
    && (forall j: nat :: Places(s, j) == if j < |s.d.jobs| then 1 else 0)
    && |s.queue| + BusyCount(s.workers) + |s.out| + |s.read| == |s.d.jobs|
  }

  // The collector reads jobs and stops at the first result that cannot be beaten; a worker
  // leaves a live context only when the queue is empty.
  ghost predicate Orderly(s: State) {
    && Readable(s.d, s.read)
    && (!s.cancelled && (exists w :: 0 <= w < |s.workers| && s.workers[w] == Exited) ==> s.queue == [])
  }

  ghost predicate Inv(s: State) {
    WellFormed(s.d) && |s.d.jobs| <= s.capacity && Conserved(s) && Orderly(s)
  }

  lemma {:induction false} NoneHeld(n: nat, j: nat)
    ensures HeldCount(seq(n, _ => Ready), j) == 0 && BusyCount(seq(n, _ => Ready)) == 0
  {
    if n == 0 {
    } else {
      assert seq(n, _ => Ready)[..n - 1] == seq(n - 1, _ => Ready);
      NoneHeld(n - 1, j);
    }
  }

  lemma {:induction false} NumbersOnce(n: nat, j: nat)
    ensures multiset(Numbers(n))[j] == if j < n then 1 else 0
  {
    if n == 0 {
    } else {
      assert Numbers(n) == Numbers(n - 1) + [n - 1];
      NumbersOnce(n - 1, j);
    }
  }

  lemma StartInv(d: Discovery, capacity: nat, parallel: nat)
    requires WellFormed(d) && |d.jobs| <= capacity
    ensures Inv(Start(d, capacity, parallel))
  {
    forall j: nat
      ensures Places(Start(d, capacity, parallel), j) == if j < |d.jobs| then 1 else 0
    {
      NoneHeld(parallel, j);
      NumbersOnce(|d.jobs|, j);
    }
    NoneHeld(parallel, 0);
  }

  lemma JobInRange(s: State, j: nat)
    requires Conserved(s) && j in s.out
    ensures j < |s.d.jobs|
  {
    assert multiset(s.out)[j] >= 1;
    assert Places(s, j) >= 1;
  }

  lemma TakeFirst(q: seq<nat>, j: nat)
    requires q != []
    ensures multiset(q)[j] == One(q[0] == j) + multiset(q[1..])[j]
  {
    assert q == [q[0]] + q[1..];
  }

  // A step moves at most one job from one place to the next.
  lemma StepPlaces(s: State, e: Step, j: nat)
    requires Enabled(s, e)
    ensures Places(Next(s, e), j) == Places(s, j)
  {
    var t := Next(s, e);
    match e
    case Check(w) => HeldUpdate(s.workers, w, t.workers[w], j);
    case Poll(w) =>
      HeldUpdate(s.workers, w, t.workers[w], j);
      if s.queue != [] {
        TakeFirst(s.queue, j);
      }
    case Finish(w) => HeldUpdate(s.workers, w, Ready, j);
    case Read => TakeFirst(s.out, j);
    case Cancel =>
  }

  lemma NextConserves(s: State, e: Step)
    requires Conserved(s) && Enabled(s, e)
    ensures Conserved(Next(s, e))
  {
    forall j: nat
      ensures Places(Next(s, e), j) == if j < |s.d.jobs| then 1 else 0
    {
      StepPlaces(s, e, j);
    }
    if e.Check? || e.Poll? || e.Finish? {
      HeldUpdate(s.workers, e.w, Next(s, e).workers[e.w], 0);
    }
  }

  lemma ReadOrderly(s: State)
    requires Orderly(s) && Conserved(s) && Enabled(s, Read)
    ensures Orderly(Next(s, Read))
  {
    var t := Next(s, Read);
    JobInRange(s, s.out[0]);
    forall k | 0 <= k < |t.read| - 1
      ensures !Stops(t.d, t.read[k])
    {
      assert t.read[k] == s.read[k];
    }
  }

  lemma WorkerOrderly(s: State, e: Step)
    requires Orderly(s) && Enabled(s, e) && e != Read
    ensures Orderly(Next(s, e))
  {
  }

  lemma InvKept(s: State, e: Step)
    requires Inv(s) && Enabled(s, e)
    ensures Inv(Next(s, e)) && Next(s, e).d == s.d && |Next(s, e).workers| == |s.workers|
  {
    NextConserves(s, e);
    if e == Read {
      ReadOrderly(s);
    } else {
      WorkerOrderly(s, e);
    }
  }

  // ---------- runs ----------

  predicate Legal(s: State, es: seq<Step>)
    decreases |es|
  {
    es == [] || (Enabled(s, es[0]) && Legal(Next(s, es[0]), es[1..]))
  }

  function Exec(s: State, es: seq<Step>): State
    requires Legal(s, es)
    decreases |es|
  {
    if es == [] then s else Exec(Next(s, es[0]), es[1..])
  }

  lemma {:induction false} InvOnRun(s: State, es: seq<Step>)
    requires Inv(s) && Legal(s, es)
    ensures Inv(Exec(s, es)) && Exec(s, es).d == s.d && |Exec(s, es).workers| == |s.workers|
    decreases |es|
  {
    if es == [] {
    } else {
      InvKept(s, es[0]);
      InvOnRun(Next(s, es[0]), es[1..]);
    }
  }

  // Over every schedule each job is queued, held by one worker, answered or read: exactly one of these.
  lemma EachJobOnce(d: Discovery, capacity: nat, parallel: nat, es: seq<Step>, j: nat)
    requires WellFormed(d) && |d.jobs| <= capacity && j < |d.jobs|
    requires Legal(Start(d, capacity, parallel), es)
    ensures var s := Exec(Start(d, capacity, parallel), es);
            multiset(s.queue)[j] + HeldCount(s.workers, j) + multiset(s.out)[j] + multiset(s.read)[j] == 1
  {
    StartInv(d, capacity, parallel);
    InvOnRun(Start(d, capacity, parallel), es);
    var s := Exec(Start(d, capacity, parallel), es);
    assert Places(s, j) == 1;
  }

  // ---------- no worker blocks ----------

  lemma {:induction false} BusyCounts(workers: seq<Worker>, w: nat)
    requires w < |workers| && workers[w].Busy?
    ensures BusyCount(workers) >= 1
  {
    var n := |workers| - 1;
    if w < n {
      BusyCounts(workers[..n], w);
    }
  }

  // A worker with a result always finds room in the output channel, read or unread.
  lemma WorkerNeverBlocks(s: State, w: nat)
    requires Inv(s) && w < |s.workers| && s.workers[w].Busy?
    ensures |s.out| < s.capacity && Enabled(s, Finish(w))
  {
    BusyCounts(s.workers, w);
  }

  // ---------- the collector always gets on ----------

  lemma {:induction false} SomeoneBusy(workers: seq<Worker>) returns (w: nat)
    requires BusyCount(workers) >= 1
    ensures w < |workers| && workers[w].Busy?
  {
    var n := |workers| - 1;
    if workers[n].Busy? {
      w := n;
    } else {
      w := SomeoneBusy(workers[..n]);
    }
  }

  // While the context is live and the collector still waits, some step other than a
  // cancellation can be taken, given at least one worker; a cancellation can come at any time.
  lemma CollectorProgresses(s: State)
    requires Inv(s) && !s.cancelled && !Done(s) && |s.workers| >= 1
    ensures (exists e :: e != Cancel && Enabled(s, e)) && Enabled(s, Cancel)
  {
    if s.out != [] {
      assert Enabled(s, Read);
    } else if BusyCount(s.workers) >= 1 {
      var w := SomeoneBusy(s.workers);
      WorkerNeverBlocks(s, w);
    } else {
      assert s.queue != [];
      assert s.workers[0] != Exited;
      match s.workers[0] {
        case Ready => assert Enabled(s, Check(0));
        case Polling => assert Enabled(s, Poll(0));
        case Busy(j) => WorkerNeverBlocks(s, 0);
        case Exited =>
      }
    }
  }

  function Weight(w: Worker): nat {
    match w
    case Ready => 2
    case Polling => 1
    case Busy(_) => 4
    case Exited => 0
  }

  function Weights(workers: seq<Worker>): nat {
    if workers == [] then 0 else Weights(workers[..|workers| - 1]) + Weight(workers[|workers| - 1])
  }

  // What is left to do.
  function Remaining(s: State): nat {
    4 * |s.queue| + Weights(s.workers) + |s.out|
  }

  lemma {:induction false} WeightsUpdate(workers: seq<Worker>, w: nat, x: Worker)
    requires w < |workers|
    ensures Weights(workers[w := x]) + Weight(workers[w]) == Weights(workers) + Weight(x)
  {
    var n := |workers| - 1;
    if w < n {
      WeightsUpdate(workers[..n], w, x);
      assert workers[w := x][..n] == workers[..n][w := x];
    } else {
      assert workers[w := x][..n] == workers[..n];
    }
  }

  // Every step of a worker or the collector brings the end nearer.
  lemma RemainingDecreases(s: State, e: Step)
    requires Enabled(s, e) && e != Cancel
    ensures Remaining(Next(s, e)) < Remaining(s)
  {
    match e
    case Check(w) => WeightsUpdate(s.workers, w, if s.cancelled then Exited else Polling);
    case Poll(w) => WeightsUpdate(s.workers, w, Next(s, e).workers[w]);
    case Finish(w) => WeightsUpdate(s.workers, w, Ready);
    case Read =>
  }

  lemma {:induction false} RunsAreFinite(s: State, es: seq<Step>)
    requires Legal(s, es) && Cancel !in es
    ensures |es| + Remaining(Exec(s, es)) <= Remaining(s)
    decreases |es|
  {
    if es == [] {
    } else {
      assert es[0] in es;
      RemainingDecreases(s, es[0]);
      RunsAreFinite(Next(s, es[0]), es[1..]);
    }
  }

  lemma {:induction false} LiveStaysLive(s: State, es: seq<Step>)
    requires Legal(s, es) && Cancel !in es
    ensures Exec(s, es).cancelled == s.cancelled
    decreases |es|
  {
    if es == [] {
    } else {
      assert es[0] in es;
      LiveStaysLive(Next(s, es[0]), es[1..]);
    }
  }

  // No step is left but a cancellation, and the collector still waits.
  ghost predicate Hangs(s: State) {
    !Done(s) && forall e :: e != Cancel ==> !Enabled(s, e)
  }

  // So no run that the context does not cut short can hang or go on for ever: taken as far as
  // it goes, it ends with the collector through.
  lemma CollectorFinishes(d: Discovery, capacity: nat, parallel: nat, es: seq<Step>)
    requires WellFormed(d) && |d.jobs| <= capacity && parallel >= 1
    requires Legal(Start(d, capacity, parallel), es) && Cancel !in es
    ensures var s := Exec(Start(d, capacity, parallel), es);
            && Inv(s)
            && |es| <= Remaining(Start(d, capacity, parallel))
            && !Hangs(s)
  {
    var s0 := Start(d, capacity, parallel);
    StartInv(d, capacity, parallel);
    InvOnRun(s0, es);
    RunsAreFinite(s0, es);
    LiveStaysLive(s0, es);
    var s := Exec(s0, es);
    if !Done(s) {
      CollectorProgresses(s);
    }
  }

  // On a cancelled context the workers that are still to check it all return.
  lemma {:induction false} AllExit(s: State, k: nat) returns (es: seq<Step>)
    requires s.cancelled && k <= |s.workers|
    requires forall w :: 0 <= w < |s.workers| ==> s.workers[w] == if w < k then Ready else Exited
    ensures Legal(s, es)
    ensures Exec(s, es) == s.(workers := seq(|s.workers|, _ => Exited))
    decreases k
  {
    if k == 0 {
      es := [];
      assert s.workers == seq(|s.workers|, _ => Exited);
    } else {
      var t := Next(s, Check(k - 1));
      var rest := AllExit(t, k - 1);
      es := [Check(k - 1)] + rest;
      assert es[1..] == rest;
    }
  }

  // The collector does not watch the parent context: if that is cancelled before the workers
  // look, any discovery with a job, whatever the number of workers, can hang.
  lemma CancelledCollectorHangs(d: Discovery, capacity: nat, parallel: nat) returns (es: seq<Step>)
    requires WellFormed(d) && 1 <= |d.jobs| <= capacity
    ensures Legal(Start(d, capacity, parallel), es) && es != [] && es[0] == Cancel
    ensures Hangs(Exec(Start(d, capacity, parallel), es))
  {
    var s0 := Start(d, capacity, parallel);
    var rest := AllExit(Next(s0, Cancel), parallel);
    es := [Cancel] + rest;
    assert es[1..] == rest;
  }

  // ---------- what a cancellation decides ----------

  function PollingCount(workers: seq<Worker>): nat {
    if workers == [] then 0
    else PollingCount(workers[..|workers| - 1]) + One(workers[|workers| - 1].Polling?)
  }

  lemma {:induction false} PollingUpdate(workers: seq<Worker>, w: nat, x: Worker)
    requires w < |workers|
    ensures PollingCount(workers[w := x]) + One(workers[w].Polling?) == PollingCount(workers) + One(x.Polling?)
  {
    var n := |workers| - 1;
    if w < n {
      PollingUpdate(workers[..n], w, x);
      assert workers[w := x][..n] == workers[..n][w := x];
    } else {
      assert workers[w := x][..n] == workers[..n];
    }
  }

  // The workers past the context check still take a job each.
  function Taken(s: State): (k: nat)
    ensures k <= |s.queue|
  {
    if PollingCount(s.workers) <= |s.queue| then PollingCount(s.workers) else |s.queue|
  }

  // How often job j is read, answered, held, or about to be taken.
  function DueCount(s: State, j: nat): nat {
    multiset(s.queue[..Taken(s)])[j] + HeldCount(s.workers, j) + multiset(s.out)[j] + multiset(s.read)[j]
  }

  // More jobs are queued than workers poll, and none of the results still to come is unbeatable.
  ghost predicate Stuck(s: State) {
    |s.queue| > PollingCount(s.workers) && forall j: nat :: DueCount(s, j) > 0 ==> !Stops(s.d, j)
  }

  lemma TakeFront(q: seq<nat>, k: nat, j: nat)
    requires 1 <= k <= |q|
    ensures multiset(q[..k])[j] == One(q[0] == j) + multiset(q[1..][..k - 1])[j]
  {
    assert q[..k][1..] == q[1..][..k - 1];
    TakeFirst(q[..k], j);
  }

  lemma PollKeepsDue(s: State, w: nat, j: nat)
    requires Enabled(s, Poll(w))
    ensures DueCount(Next(s, Poll(w)), j) == DueCount(s, j)
    ensures |Next(s, Poll(w)).queue| > PollingCount(Next(s, Poll(w)).workers) <==> |s.queue| > PollingCount(s.workers)
  {
    if s.queue == [] {
      HeldUpdate(s.workers, w, Exited, j);
      PollingUpdate(s.workers, w, Exited);
    } else {
      HeldUpdate(s.workers, w, Busy(s.queue[0]), j);
      PollingUpdate(s.workers, w, Busy(s.queue[0]));
      TakeFront(s.queue, Taken(s), j);
    }
  }

  // On a cancelled context no step changes which results are due.
  lemma DueKept(s: State, e: Step, j: nat)
    requires s.cancelled && Enabled(s, e)
    ensures DueCount(Next(s, e), j) == DueCount(s, j)
    ensures |Next(s, e).queue| > PollingCount(Next(s, e).workers) <==> |s.queue| > PollingCount(s.workers)
  {
    match e
    case Check(w) =>
      HeldUpdate(s.workers, w, Exited, j);
      PollingUpdate(s.workers, w, Exited);
    case Poll(w) => PollKeepsDue(s, w, j);
    case Finish(w) =>
      HeldUpdate(s.workers, w, Ready, j);
      PollingUpdate(s.workers, w, Ready);
    case Read => TakeFirst(s.out, j);
    case Cancel =>
  }

  lemma StuckKept(s: State, e: Step)
    requires s.cancelled && Enabled(s, e)
    ensures Stuck(Next(s, e)) <==> Stuck(s)
  {
    forall j: nat
      ensures DueCount(Next(s, e), j) == DueCount(s, j) && Next(s, e).d == s.d
    {
      DueKept(s, e, j);
    }
    DueKept(s, e, 0);
  }

  lemma {:induction false} StuckOnRun(s: State, es: seq<Step>)
    requires s.cancelled && Legal(s, es)
    ensures Exec(s, es).cancelled && (Stuck(Exec(s, es)) <==> Stuck(s))
    decreases |es|
  {
    if es == [] {
    } else {
      StuckKept(s, es[0]);
      StuckOnRun(Next(s, es[0]), es[1..]);
    }
  }

  lemma {:induction false} NobodyLeft(workers: seq<Worker>, j: nat)
    requires forall w :: 0 <= w < |workers| ==> workers[w] == Exited
    ensures PollingCount(workers) == 0 && HeldCount(workers, j) == 0 && BusyCount(workers) == 0
  {
    if workers == [] {
    } else {
      NobodyLeft(workers[..|workers| - 1], j);
    }
  }

  lemma HangingExited(s: State, w: nat)
    requires Inv(s) && Hangs(s) && w < |s.workers|
    ensures s.workers[w] == Exited
  {
    assert !Enabled(s, Check(w)) && !Enabled(s, Poll(w)) && !Enabled(s, Finish(w));
    if s.workers[w].Busy? {
      WorkerNeverBlocks(s, w);
    }
  }

  lemma HangingIsStuck(s: State)
    requires Inv(s) && Hangs(s)
    ensures Stuck(s)
  {
    assert !Enabled(s, Read);
    forall w | 0 <= w < |s.workers|
      ensures s.workers[w] == Exited
    {
      HangingExited(s, w);
    }
    NobodyLeft(s.workers, 0);
    forall j: nat | DueCount(s, j) > 0
      ensures !Stops(s.d, j)
    {
      NobodyLeft(s.workers, j);
      assert j in multiset(s.read);
      var k :| 0 <= k < |s.read| && s.read[k] == j;
    }
  }

  lemma StuckNotDone(s: State)
    requires Inv(s) && Stuck(s)
    ensures !Done(s)
  {
    if s.read != [] {
      var last := s.read[|s.read| - 1];
      assert last in multiset(s.read);
      assert DueCount(s, last) > 0;
    }
  }

  // Any run on a cancelled context can be taken to where nothing is left to do.
  lemma {:induction false} Exhaust(s: State) returns (es: seq<Step>)
    requires Inv(s) && s.cancelled
    ensures Legal(s, es) && (Hangs(Exec(s, es)) || Done(Exec(s, es)))
    decreases Remaining(s)
  {
    if Hangs(s) || Done(s) {
      es := [];
    } else {
      var e :| e != Cancel && Enabled(s, e);
      InvKept(s, e);
      RemainingDecreases(s, e);
      var rest := Exhaust(Next(s, e));
      es := [e] + rest;
      assert es[1..] == rest;
    }
  }

  lemma CancelledRunEnds(s: State, es: seq<Step>)
    requires Inv(s) && s.cancelled && Legal(s, es)
    ensures Hangs(Exec(s, es)) ==> Stuck(s)
    ensures Done(Exec(s, es)) ==> !Stuck(s)
  {
    InvOnRun(s, es);
    StuckOnRun(s, es);
    if Hangs(Exec(s, es)) {
      HangingIsStuck(Exec(s, es));
    }
    if Stuck(s) {
      StuckNotDone(Exec(s, es));
    }
  }

  // The moment the context is cancelled, wherever the run is, decides the outcome: the collector
  // can hang exactly if more jobs are queued than workers poll and no result due is unbeatable,
  // and it can get through exactly otherwise.
  lemma CancelledHangsIff(s: State)
    requires Inv(s) && s.cancelled
    ensures (exists es :: Legal(s, es) && Hangs(Exec(s, es))) <==> Stuck(s)
    ensures (exists es :: Legal(s, es) && Done(Exec(s, es))) <==> !Stuck(s)
  {
    var end := Exhaust(s);
    forall es | Legal(s, es)
      ensures (Hangs(Exec(s, es)) ==> Stuck(s)) && (Done(Exec(s, es)) ==> !Stuck(s))
    {
      CancelledRunEnds(s, es);
    }
  }

  // ---------- the choice ----------

  // When the collector is through, in any run, what it read is a complete schedule of the jobs:
  // the client it picked has the highest version of all that succeed.
  lemma DoneIsComplete(s: State)
    requires Inv(s) && Done(s)
    ensures Complete(s.d, s.read)
  {
    if |s.read| == |s.d.jobs| {
      forall i: nat | i < |s.d.jobs|
        ensures i in s.read
      {
        NotHeld(s.workers, i);
        assert Places(s, i) == 1;
        assert multiset(s.read)[i] == 1;
      }
    }
  }

  lemma {:induction false} NotHeld(workers: seq<Worker>, j: nat)
    ensures BusyCount(workers) == 0 ==> HeldCount(workers, j) == 0
  {
    if workers == [] {
    } else {
      NotHeld(workers[..|workers| - 1], j);
    }
  }

  // Two runs of the same discovery, with any number of workers and any interleaving, settle on
  // the same version, or fail alike.
  lemma DiscoveryDeterministic(d: Discovery, cap1: nat, cap2: nat, n1: nat, n2: nat, es1: seq<Step>, es2: seq<Step>,
                               best1: Option<nat>, best2: Option<nat>, critical1: Option<nat>, critical2: Option<nat>)
    requires WellFormed(d) && |d.jobs| <= cap1 && |d.jobs| <= cap2
    requires Legal(Start(d, cap1, n1), es1) && Legal(Start(d, cap2, n2), es2)
    requires var s, t := Exec(Start(d, cap1, n1), es1), Exec(Start(d, cap2, n2), es2);
             && s.d == d && t.d == d && Readable(d, s.read) && Readable(d, t.read) && Done(s) && Done(t)
             && IsBestFirst(d, s.read, best1) && IsBestFirst(d, t.read, best2)
             && IsFirstCritical(d, s.read, critical1) && IsFirstCritical(d, t.read, critical2)
    ensures best1.None? <==> best2.None?
    ensures best1.Some? ==> best1.value < |d.jobs| && best2.value < |d.jobs|
                            && d.jobs[best1.value].version == d.jobs[best2.value].version
    ensures best1.None? ==> (critical1.None? <==> critical2.None?)
  {
    StartInv(d, cap1, n1);
    StartInv(d, cap2, n2);
    InvOnRun(Start(d, cap1, n1), es1);
    InvOnRun(Start(d, cap2, n2), es2);
    var s, t := Exec(Start(d, cap1, n1), es1), Exec(Start(d, cap2, n2), es2);
    DoneIsComplete(s);
    DoneIsComplete(t);
    ScheduleIndependent(d, s.read, t.read, best1, best2, critical1, critical2);
  }
}
