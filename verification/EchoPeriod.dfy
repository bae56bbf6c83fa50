/** One measurement period: the sender (task, SendICMPPacket, icmp) and the receiver
    (RecvICMPPacket) on one shared table, in every interleaving (measure/crontab.go,
    protocol/icmp.go). The sender writes the packet before it stores the table entry, and the
    receiver loads an entry before it stores the answer, so each has a gap. */
module EchoPeriod {
  import opened EchoMessage
  import opened Wrappers

  const DEFAULT_TTL: int := 64

  // Timestamps are in microseconds, RTTs in milliseconds.
  datatype Entry = Entry(seqNo: nat, rtt: real, ttl: int, sendTs: int, recvTs: int, valid: bool)

  // Between conn.Write and recv.Store the sender holds the entry it is about to store.
  datatype Sender = Idle | Written(seqNo: nat, sendTs: int)

  // Between recv.Load and recv.Store the receiver holds what it loaded.
  datatype Receiver = Waiting | Loaded(seqNo: nat, ttl: int, found: Option<Entry>)

  // sentAt is history: when each stored packet was sent.
  datatype State = State(n: nat, sequence: nat, packets: nat, table: map<nat, Entry>,
                         sender: Sender, receiver: Receiver, sentAt: map<nat, int>)

  datatype Event =
    | Write(now: int)
    | Store
    | Load(sent: nat, ttl: int)
    | Keep(now: int)

  function Init(n: nat): State {
    State(n, 1, 0, map[], Idle, Waiting, map[])
  }

  // The sequence number the receiver reads from the echo of packet k.
  function OnWire(k: nat): nat {
    GetSeq(GenSequence(k).0, GenSequence(k).1)
  }

  // Packets whose echo can arrive: the stored ones and the one just written.
  function InFlight(s: State): nat {
    s.packets + if s.sender.Written? then 1 else 0
  }

  function Lookup(table: map<nat, Entry>, k: nat): Option<Entry> {
    if k in table then Some(table[k]) else None
  }

  // A missing entry reads as the zero value: not valid, sent at 0.
  predicate FoundValid(found: Option<Entry>) {
    found.Some? && found.value.valid
  }

  function FoundSendTs(found: Option<Entry>): int {
    if found.Some? then found.value.sendTs else 0
  }

  predicate Enabled(s: State, e: Event) {
    match e
    case Write(_) => s.sender.Idle? && s.packets < s.n
    case Store => s.sender.Written?
    case Load(sent, ttl) => s.receiver.Waiting? && 1 <= sent <= InFlight(s) && 0 <= ttl <= 255
    case Keep(_) => s.receiver.Loaded?
  }

  // The TTL is read from a byte, so the code's test for -1 never fails.
  function Answered(r: Receiver, now: int): Entry
    requires r.Loaded?
  {
    var sendTs := FoundSendTs(r.found);
    Entry(r.seqNo, (now - sendTs) as real / 1000.0, DEFAULT_TTL - r.ttl, sendTs, now, r.ttl != -1)
  }

  function Next(s: State, e: Event): State
    requires Enabled(s, e)
  {
    match e
    case Write(now) => s.(sender := Written(s.sequence, now))
    case Store =>
      var k := s.sender.seqNo;
      s.(table := s.table[k := Entry(k, -1.0, 0, s.sender.sendTs, 0, false)],
         sentAt := s.sentAt[k := s.sender.sendTs],
         sender := Idle,
         packets := s.packets + 1,
         sequence := if s.sequence + 1 > s.n then 1 else s.sequence + 1)
    case Load(sent, ttl) => s.(receiver := Loaded(OnWire(sent), ttl, Lookup(s.table, OnWire(sent))))
    case Keep(now) =>
      var r := s.receiver;
      s.(receiver := Waiting,
         table := if FoundValid(r.found) then s.table else s.table[r.seqNo := Answered(r, now)])
  }

  predicate Legal(s: State, es: seq<Event>)
    decreases |es|
  {
    es == [] || (Enabled(s, es[0]) && Legal(Next(s, es[0]), es[1..]))
  }

  function Exec(s: State, es: seq<Event>): State
    requires Legal(s, es)
    decreases |es|
  {
    if es == [] then s else Exec(Next(s, es[0]), es[1..])
  }

  lemma Step(s: State, es: seq<Event>)
    requires es != [] && Enabled(s, es[0]) && Legal(Next(s, es[0]), es[1..])
    ensures Legal(s, es) && Exec(s, es) == Exec(Next(s, es[0]), es[1..])
  {
  }

  // ---------- what every interleaving keeps ----------

  // The numbers an echo can carry: those of the packets written, up to 65000, and 0 for any beyond.
  predicate CanArrive(s: State, k: nat) {
    if k == 0 then InFlight(s) > MAX_SEQUENCE else k <= InFlight(s) && k <= MAX_SEQUENCE
  }

  // The keys are the stored packets, at most the one being sent if its echo was early, and 0 if an
  // echo of a packet beyond 65000 was kept.
  ghost predicate KeysOk(s: State) {
    && s.packets <= s.n
    && s.sequence == (if s.packets == s.n then 1 else s.packets + 1)
    && (s.sender.Written? ==> s.packets < s.n && s.sender.seqNo == s.packets + 1)
    && (forall k :: 1 <= k <= s.packets ==> k in s.table)
    && (forall k :: k in s.table ==> s.table[k].seqNo == k && k <= InFlight(s))
    && (forall k :: k in s.table && (k == 0 || s.table[k].valid) ==> CanArrive(s, k) && s.table[k].valid)
    && (forall k :: k in s.sentAt <==> 1 <= k <= s.packets)
  }

  // The receiver never holds an invalid copy of an entry that is already valid.
  ghost predicate ReceiverOk(s: State) {
    s.receiver.Loaded? ==>
      var k, found := s.receiver.seqNo, s.receiver.found;
      && CanArrive(s, k) && 0 <= s.receiver.ttl <= 255
      && (k in s.table && s.table[k].valid ==> FoundValid(found))
      && (found.Some? && !found.value.valid ==> k <= s.packets && k in s.sentAt && found.value.sendTs == s.sentAt[k])
  }

  // An unanswered entry carries its true send time.
  ghost predicate SendTimesOk(s: State) {
    forall k :: k in s.table && !s.table[k].valid ==> k in s.sentAt && s.table[k].sendTs == s.sentAt[k]
  }

  // What an entry reports: an RTT in milliseconds that is the time between its two timestamps and
  // a hop count out of a byte once it is answered, and the placeholders before.
  predicate EntryOk(e: Entry) {
    if e.valid then e.rtt * 1000.0 == (e.recvTs - e.sendTs) as real && DEFAULT_TTL - 255 <= e.ttl <= DEFAULT_TTL
    else e.rtt == -1.0 && e.ttl == 0 && e.recvTs == 0
  }

  ghost predicate EntriesOk(s: State) {
    forall k :: k in s.table ==> EntryOk(s.table[k])
  }

  ghost predicate Inv(s: State) {
    KeysOk(s) && ReceiverOk(s) && SendTimesOk(s) && EntriesOk(s)
  }

  lemma OnWireIs(k: nat)
    ensures OnWire(k) == if k <= MAX_SEQUENCE then k else 0
  {
    SequenceRoundTripIff(k);
  }

  lemma StoreKeepsInv(s: State)
    requires Inv(s) && Enabled(s, Store)
    ensures Inv(Next(s, Store))
  {
    var t := Next(s, Store);
    assert KeysOk(t);
    assert ReceiverOk(t) && SendTimesOk(t) && EntriesOk(t);
  }

  lemma LoadKeepsInv(s: State, sent: nat, ttl: int)
    requires Inv(s) && Enabled(s, Load(sent, ttl))
    ensures Inv(Next(s, Load(sent, ttl)))
  {
    OnWireIs(sent);
    LoadedOk(s, OnWire(sent), ttl);
  }

  lemma LoadedOk(s: State, k: nat, ttl: int)
    requires Inv(s) && CanArrive(s, k) && 0 <= ttl <= 255
    ensures Inv(s.(receiver := Loaded(k, ttl, Lookup(s.table, k))))
  {
    var t := s.(receiver := Loaded(k, ttl, Lookup(s.table, k)));
    assert forall i :: CanArrive(t, i) <==> CanArrive(s, i);
    assert KeysOk(t) && SendTimesOk(t) && EntriesOk(t);
  }

  lemma KeepKeepsInv(s: State, now: int)
    requires Inv(s) && Enabled(s, Keep(now))
    ensures Inv(Next(s, Keep(now)))
  {
    var t := Next(s, Keep(now));
    if !FoundValid(s.receiver.found) {
      var e := Answered(s.receiver, now);
      assert e.valid && EntryOk(e) && t.table == s.table[s.receiver.seqNo := e];
    }
    assert KeysOk(t);
    assert SendTimesOk(t) && EntriesOk(t);
  }

  lemma InvKept(s: State, e: Event)
    requires Inv(s) && Enabled(s, e)
    ensures Inv(Next(s, e))
  {
    match e
    case Write(_) =>
    case Store => StoreKeepsInv(s);
    case Load(sent, ttl) => LoadKeepsInv(s, sent, ttl);
    case Keep(now) => KeepKeepsInv(s, now);
  }

  lemma {:induction false} InvOnRun(s: State, es: seq<Event>)
    requires Inv(s) && Legal(s, es)
    ensures Inv(Exec(s, es)) && Exec(s, es).n == s.n
    decreases |es|
  {
    if es == [] {
    } else {
      InvKept(s, es[0]);
      InvOnRun(Next(s, es[0]), es[1..]);
    }
  }

  // In every run of a period of any length: between sends the keys other than 0 are exactly the
  // packets sent so far, and the sequence counter is back at 1 after the last one.
  lemma PeriodKeys(n: nat, es: seq<Event>)
    requires Legal(Init(n), es)
    ensures var s := Exec(Init(n), es);
            && (s.sender.Idle? ==> forall k :: 1 <= k ==> (k in s.table <==> k <= s.packets))
            && (0 in s.table ==> InFlight(s) > MAX_SEQUENCE)
            && (s.packets == n ==> s.sender.Idle? && s.sequence == 1)
  {
    InvOnRun(Init(n), es);
  }

  // One more event at the end of a run.
  lemma {:induction false} Chain(s: State, es: seq<Event>, e: Event)
    requires Legal(s, es) && Enabled(Exec(s, es), e)
    ensures Legal(s, es + [e]) && Exec(s, es + [e]) == Next(Exec(s, es), e)
    decreases |es|
  {
    if es == [] {
      assert [] + [e] == [e] && [e][1..] == [];
      Step(s, [e]);
    } else {
      Chain(Next(s, es[0]), es[1..], e);
      assert (es + [e])[1..] == es[1..] + [e];
      Step(s, es + [e]);
    }
  }

  // A run that sends k packets while nothing comes back.
  lemma {:induction false} Sends(n: nat, k: nat) returns (es: seq<Event>)
    requires k <= n
    ensures Legal(Init(n), es)
    ensures var s := Exec(Init(n), es);
            && s.packets == k && s.sender.Idle? && s.receiver.Waiting?
            && forall i :: i in s.table ==> i != 0 && !s.table[i].valid
  {
    if k == 0 {
      es := [];
    } else {
      es := Sends(n, k - 1);
      var s := Exec(Init(n), es);
      InvOnRun(Init(n), es);
      Chain(Init(n), es, Write(0));
      Chain(Init(n), es + [Write(0)], Store);
      es := es + [Write(0)] + [Store];
    }
  }

  // A whole period in which the last echo is the only one: it is filed under 0, and nothing else is
  // answered.
  lemma FiledUnderZero(n: nat) returns (es: seq<Event>)
    requires n > MAX_SEQUENCE
    ensures Legal(Init(n), es)
    ensures var s := Exec(Init(n), es);
            && s.packets == n && s.sender.Idle? && 0 in s.table
            && forall i :: i in s.table ==> (s.table[i].valid <==> i == 0)
  {
    var before := Sends(n, n);
    OnWireIs(n);
    Chain(Init(n), before, Load(n, 60));
    es := before + [Load(n, 60)];
    Chain(Init(n), es, Keep(0));
    es := es + [Keep(0)];
  }

  ghost predicate KeysAreSent(s: State) {
    s.sender.Idle? ==> forall k :: k in s.table <==> 1 <= k <= s.packets
  }

  // ... and they are exactly the packets sent, in all runs, for periods of up to 65000 packets: the
  // echo of a later one is filed under 0.
  lemma PeriodKeysIff(n: nat)
    ensures (forall es :: Legal(Init(n), es) ==> KeysAreSent(Exec(Init(n), es))) <==> n <= MAX_SEQUENCE
  {
    if n <= MAX_SEQUENCE {
      forall es | Legal(Init(n), es)
        ensures KeysAreSent(Exec(Init(n), es))
      {
        InvOnRun(Init(n), es);
        PeriodKeys(n, es);
      }
    } else {
      var es := FiledUnderZero(n);
      assert !KeysAreSent(Exec(Init(n), es));
    }
  }

  // ... and every entry of every such run reports what its timestamps say.
  lemma EntriesReport(n: nat, es: seq<Event>, k: nat)
    requires Legal(Init(n), es) && k in Exec(Init(n), es).table
    ensures EntryOk(Exec(Init(n), es).table[k]) && Exec(Init(n), es).table[k].seqNo == k
  {
    InvOnRun(Init(n), es);
  }

  // ---------- the first reply is kept ----------

  lemma {:induction false} ValidStays(s: State, es: seq<Event>, k: nat)
    requires Inv(s) && Legal(s, es) && k <= s.packets && k in s.table && s.table[k].valid
    ensures var t := Exec(s, es); k <= t.packets && k in t.table && t.table[k] == s.table[k]
    decreases |es|
  {
    if es == [] {
    } else {
      InvKept(s, es[0]);
      ValidStays(Next(s, es[0]), es[1..], k);
    }
  }

  // Without another echo numbered k, a stored and unanswered k stays unanswered.
  lemma {:induction false} InvalidStays(s: State, es: seq<Event>, k: nat)
    requires Inv(s) && Legal(s, es) && 1 <= k <= InFlight(s)
    requires k <= s.packets ==> !s.table[k].valid
    requires s.receiver.Loaded? ==> s.receiver.seqNo != k
    requires forall e :: e in es && e.Load? ==> OnWire(e.sent) != k
    ensures var t := Exec(s, es); k <= t.packets ==> k in t.table && !t.table[k].valid
    decreases |es|
  {
    if es == [] {
    } else {
      InvKept(s, es[0]);
      assert es[0] in es;
      InvalidStays(Next(s, es[0]), es[1..], k);
    }
  }

  // A step that stores an answer to k after the sender stored k.
  predicate Answers(s: State, e: Event, k: nat) {
    && e.Keep? && s.receiver.Loaded? && s.receiver.seqNo == k && k <= s.packets
    && !(s.receiver.found.Some? && s.receiver.found.value.valid)
  }

  predicate SomeAnswer(s: State, es: seq<Event>, k: nat)
    requires Legal(s, es)
    decreases |es|
  {
    es != [] && (Answers(s, es[0], k) || SomeAnswer(Next(s, es[0]), es[1..], k))
  }

  lemma {:induction false} ValidIff(s: State, es: seq<Event>, k: nat)
    requires Inv(s) && Legal(s, es) && 1 <= k <= Exec(s, es).packets
    ensures k in Exec(s, es).table
    ensures Exec(s, es).table[k].valid <==> (k <= s.packets && s.table[k].valid) || SomeAnswer(s, es, k)
    decreases |es|
  {
    if es == [] {
    } else {
      var t := Next(s, es[0]);
      InvKept(s, es[0]);
      ValidIff(t, es[1..], k);
      OneStepValid(s, es[0], k);
    }
  }

  lemma OneStepValid(s: State, e: Event, k: nat)
    requires Inv(s) && Enabled(s, e) && 1 <= k
    ensures var t := Next(s, e);
            k <= t.packets && k in t.table && t.table[k].valid
            <==> (k <= s.packets && k in s.table && s.table[k].valid) || Answers(s, e, k)
  {
  }

  // In every run, duplicates and early echoes included: the entry of a sent packet ends up answered
  // if and only if some answer is stored after the sender stored the entry, by a receiver that did
  // not load an earlier answer; what is stored in the gap is overwritten.
  lemma AnswerCountsIff(n: nat, es: seq<Event>, k: nat)
    requires Legal(Init(n), es) && 1 <= k <= Exec(Init(n), es).packets
    ensures k in Exec(Init(n), es).table
    ensures Exec(Init(n), es).table[k].valid <==> SomeAnswer(Init(n), es, k)
  {
    ValidIff(Init(n), es, k);
  }

  // If the packet has one echo only: it counts exactly if its answer is stored after the entry.
  lemma OneAnswerCountsIff(s: State, now: int, es: seq<Event>)
    requires Inv(s) && s.receiver.Loaded? && s.receiver.seqNo != 0 && !FoundValid(s.receiver.found)
    requires Legal(Next(s, Keep(now)), es)
    requires forall e :: e in es && e.Load? ==> OnWire(e.sent) != s.receiver.seqNo
    ensures var k, t := s.receiver.seqNo, Exec(Next(s, Keep(now)), es);
            k <= t.packets ==> k in t.table && (t.table[k].valid <==> k <= s.packets)
  {
    var k := s.receiver.seqNo;
    InvKept(s, Keep(now));
    var s1 := Next(s, Keep(now));
    assert k in s1.table && s1.table[k].valid && s1.packets == s.packets && s1.receiver == Waiting;
    if k <= s.packets {
      ValidStays(s1, es, k);
    } else {
      InvalidStays(s1, es, k);
    }
  }

  // The recorded send time is the true one exactly if the entry was there when the receiver
  // loaded it (or the packet really was sent at time zero).
  lemma RttTrueIff(s: State, now: int)
    requires Inv(s) && s.receiver.Loaded? && !FoundValid(s.receiver.found) && 1 <= s.receiver.seqNo <= s.packets
    ensures var k := s.receiver.seqNo;
            var e := Next(s, Keep(now)).table[k];
            e.rtt == (now - s.sentAt[k]) as real / 1000.0 <==> s.receiver.found.Some? || s.sentAt[k] == 0
  {
  }

  // A run in which the only echo arrives in the gap: the packet counts as lost.
  lemma EarlyEchoLost() returns (es: seq<Event>)
    ensures es == [Write(5), Load(1, 60), Keep(6), Store] && Legal(Init(1), es)
    ensures var t := Exec(Init(1), es); t.packets == 1 && t.receiver == Waiting && 1 in t.table && !t.table[1].valid
  {
    es := [Write(5), Load(1, 60), Keep(6), Store];
    OnWireIs(1);
    var s1 := Next(Init(1), Write(5));
    var s2 := Next(s1, Load(1, 60));
    var s3 := Next(s2, Keep(6));
    var s4 := Next(s3, Store);
    assert Legal(s4, []) && Exec(s4, []) == s4;
    assert [Store][1..] == [];
    Step(s3, [Store]);
    assert [Keep(6), Store][1..] == [Store];
    Step(s2, [Keep(6), Store]);
    assert [Load(1, 60), Keep(6), Store][1..] == [Keep(6), Store];
    Step(s1, [Load(1, 60), Keep(6), Store]);
    assert es[1..] == [Load(1, 60), Keep(6), Store];
    Step(Init(1), es);
  }

  // The answer to k was loaded after the sender stored k.
  predicate LoadedAfterStore(s: State, es: seq<Event>, k: nat)
    requires Legal(s, es)
    decreases |es|
  {
    es != [] &&
    ((Answers(s, es[0], k) && s.receiver.found.Some?) || LoadedAfterStore(Next(s, es[0]), es[1..], k))
  }

  // The entry of k reports the time from sending k to storing the answer.
  predicate RttIsTrue(s: State, k: nat)
    requires k in s.table && k in s.sentAt
  {
    s.table[k].rtt == (s.table[k].recvTs - s.sentAt[k]) as real / 1000.0
  }

  lemma {:induction false} SentAtStays(s: State, es: seq<Event>, k: nat)
    requires Inv(s) && Legal(s, es) && k in s.sentAt
    ensures k in Exec(s, es).sentAt && Exec(s, es).sentAt[k] == s.sentAt[k]
    decreases |es|
  {
    if es == [] {
    } else {
      InvKept(s, es[0]);
      SentAtStays(Next(s, es[0]), es[1..], k);
    }
  }

  // An answered packet is not answered again.
  lemma {:induction false} NoSecondAnswer(s: State, es: seq<Event>, k: nat)
    requires Inv(s) && Legal(s, es) && k <= s.packets && k in s.table && s.table[k].valid
    ensures !LoadedAfterStore(s, es, k)
    decreases |es|
  {
    if es == [] {
    } else {
      InvKept(s, es[0]);
      ValidStays(s, [es[0]], k);
      NoSecondAnswer(Next(s, es[0]), es[1..], k);
    }
  }

  lemma {:induction false} RttOnRun(s: State, es: seq<Event>, k: nat)
    requires Inv(s) && Legal(s, es) && 1 <= k <= Exec(s, es).packets
    requires k <= s.packets ==> !s.table[k].valid
    ensures var t := Exec(s, es);
            && k in t.table && k in t.sentAt
            && (t.table[k].valid ==> (RttIsTrue(t, k) <==> LoadedAfterStore(s, es, k) || t.sentAt[k] == 0))
    decreases |es|
  {
    InvOnRun(s, es);
    if es == [] {
    } else {
      var e, t := es[0], Next(s, es[0]);
      InvKept(s, e);
      OneStepValid(s, e, k);
      if Answers(s, e, k) {
        AnswerStep(s, e, k);
        ValidStays(t, es[1..], k);
        SentAtStays(t, es[1..], k);
        NoSecondAnswer(t, es[1..], k);
      } else {
        RttOnRun(t, es[1..], k);
      }
    }
  }

  lemma AnswerStep(s: State, e: Event, k: nat)
    requires Inv(s) && Enabled(s, e) && 1 <= k && Answers(s, e, k)
    ensures var t := Next(s, e);
            && k <= t.packets && k in t.table && t.table[k].valid && k in t.sentAt
            && (RttIsTrue(t, k) <==> s.receiver.found.Some? || t.sentAt[k] == 0)
  {
    RttTrueIff(s, e.now);
  }

  // In every run: the RTT of a packet that counts is the true one if and only if its answer was
  // loaded after the sender stored the entry, or the packet was sent at time zero.
  lemma CountedRttIff(n: nat, es: seq<Event>, k: nat)
    requires Legal(Init(n), es) && 1 <= k <= Exec(Init(n), es).packets
    ensures var t := Exec(Init(n), es);
            && k in t.table && k in t.sentAt
            && (t.table[k].valid ==> (RttIsTrue(t, k) <==> LoadedAfterStore(Init(n), es, k) || t.sentAt[k] == 0))
  {
    RttOnRun(Init(n), es, k);
  }

  // The answer to k that counts: the TTL byte of the echo it was loaded from, and when it was
  // stored. byte is the one loaded last.
  function CountedAnswer(s: State, es: seq<Event>, k: nat, byte: int): Option<(int, int)>
    requires Legal(s, es)
    decreases |es|
  {
    if es == [] then None
    else
      match es[0]
      case Load(_, ttl) => CountedAnswer(Next(s, es[0]), es[1..], k, ttl)
      case Keep(now) =>
        if Answers(s, es[0], k) then Some((byte, now)) else CountedAnswer(Next(s, es[0]), es[1..], k, byte)
      case _ => CountedAnswer(Next(s, es[0]), es[1..], k, byte)
  }

  lemma {:induction false} CountedOnRun(s: State, es: seq<Event>, k: nat, byte: int)
    requires Inv(s) && Legal(s, es) && 1 <= k <= Exec(s, es).packets
    requires (k <= s.packets ==> !s.table[k].valid) && (s.receiver.Loaded? ==> s.receiver.ttl == byte)
    ensures var t, counted := Exec(s, es), CountedAnswer(s, es, k, byte);
            && k in t.table && (t.table[k].valid <==> counted.Some?)
            && (counted.Some? ==> t.table[k].ttl == 64 - counted.value.0 && t.table[k].recvTs == counted.value.1)
    decreases |es|
  {
    InvOnRun(s, es);
    if es == [] {
    } else {
      var e, t := es[0], Next(s, es[0]);
      InvKept(s, e);
      OneStepValid(s, e, k);
      if Answers(s, e, k) {
        ValidStays(t, es[1..], k);
      } else {
        CountedOnRun(t, es[1..], k, if e.Load? then e.ttl else byte);
      }
    }
  }

  // In every run: a packet counts if and only if it has a counted answer, and its entry then holds
  // 64 less the TTL byte of that echo and the time the answer was stored.
  lemma CountedEntry(n: nat, es: seq<Event>, k: nat)
    requires Legal(Init(n), es) && 1 <= k <= Exec(Init(n), es).packets
    ensures var t, counted := Exec(Init(n), es), CountedAnswer(Init(n), es, k, 0);
            && k in t.table && (t.table[k].valid <==> counted.Some?)
            && (counted.Some? ==> t.table[k].ttl == 64 - counted.value.0 && t.table[k].recvTs == counted.value.1)
  {
    CountedOnRun(Init(n), es, k, 0);
  }

  // Any byte can be the one that counts.
  lemma EachByteStored(byte: int)
    requires 0 <= byte <= 255
    ensures Legal(Init(1), [Write(5), Store, Load(1, byte)] + [Keep(6)])
    ensures var t := Exec(Init(1), [Write(5), Store, Load(1, byte)] + [Keep(6)]);
            1 in t.table && t.table[1] == Entry(1, 0.001, 64 - byte, 5, 6, true)
  {
    OnWireIs(1);
    ThreeSteps(Init(1), Write(5), Store, Load(1, byte));
    Chain(Init(1), [Write(5), Store, Load(1, byte)], Keep(6));
  }

  // When the k-th packet was written; written is the time of the last write.
  function WriteTime(s: State, es: seq<Event>, k: nat, written: int): Option<int>
    requires Legal(s, es)
    decreases |es|
  {
    if es == [] then None
    else
      match es[0]
      case Write(now) => WriteTime(Next(s, es[0]), es[1..], k, now)
      case Store => if s.packets + 1 == k then Some(written) else WriteTime(Next(s, es[0]), es[1..], k, written)
      case _ => WriteTime(Next(s, es[0]), es[1..], k, written)
  }

  lemma {:induction false} WriteTimeOnRun(s: State, es: seq<Event>, k: nat, written: int)
    requires Inv(s) && Legal(s, es) && s.packets < k <= Exec(s, es).packets
    requires s.sender.Written? ==> s.sender.sendTs == written
    ensures k in Exec(s, es).sentAt && WriteTime(s, es, k, written) == Some(Exec(s, es).sentAt[k])
    decreases |es|
  {
    if es == [] {
    } else {
      var e, t := es[0], Next(s, es[0]);
      InvKept(s, e);
      if e.Store? && s.packets + 1 == k {
        SentAtStays(t, es[1..], k);
      } else {
        WriteTimeOnRun(t, es[1..], k, if e.Write? then e.now else written);
      }
    }
  }

  // The send time recorded for a packet is the time of its write.
  lemma SentAtIsWriteTime(n: nat, es: seq<Event>, k: nat)
    requires Legal(Init(n), es) && 1 <= k <= Exec(Init(n), es).packets
    ensures k in Exec(Init(n), es).sentAt && WriteTime(Init(n), es, k, 0) == Some(Exec(Init(n), es).sentAt[k])
  {
    WriteTimeOnRun(Init(n), es, k, 0);
  }

  // Loaded in the gap and stored after it: the answer counts, with an RTT taken from time zero.
  lemma RttFromZero() returns (es: seq<Event>)
    ensures es == [Write(5), Load(1, 60), Store, Keep(6)] && Legal(Init(1), es)
    ensures var t := Exec(Init(1), es);
            1 in t.table && t.table[1].valid && t.sentAt == map[1 := 5] && t.table[1].rtt == 0.006
  {
    es := [Write(5), Load(1, 60), Store, Keep(6)];
    OnWireIs(1);
    var s1 := Next(Init(1), Write(5));
    var s2 := Next(s1, Load(1, 60));
    var s3 := Next(s2, Store);
    var s4 := Next(s3, Keep(6));
    assert Legal(s4, []) && Exec(s4, []) == s4;
    assert [Keep(6)][1..] == [];
    Step(s3, [Keep(6)]);
    assert [Store, Keep(6)][1..] == [Keep(6)];
    Step(s2, [Store, Keep(6)]);
    assert [Load(1, 60), Store, Keep(6)][1..] == [Store, Keep(6)];
    Step(s1, [Load(1, 60), Store, Keep(6)]);
    assert es[1..] == [Load(1, 60), Store, Keep(6)];
    Step(Init(1), es);
  }

  lemma {:induction false} ExecConcat(s: State, es: seq<Event>, more: seq<Event>)
    requires Legal(s, es) && Legal(Exec(s, es), more)
    ensures Legal(s, es + more) && Exec(s, es + more) == Exec(Exec(s, es), more)
    decreases |es|
  {
    if es == [] {
      assert es + more == more;
    } else {
      assert (es + more)[1..] == es[1..] + more;
      ExecConcat(Next(s, es[0]), es[1..], more);
      Step(s, es + more);
    }
  }

  lemma ThreeSteps(s: State, a: Event, b: Event, c: Event)
    requires Enabled(s, a) && Enabled(Next(s, a), b) && Enabled(Next(Next(s, a), b), c)
    ensures Legal(s, [a, b, c]) && Exec(s, [a, b, c]) == Next(Next(Next(s, a), b), c)
  {
    var s3 := Next(Next(Next(s, a), b), c);
    assert Legal(s3, []) && Exec(s3, []) == s3;
    assert [c][1..] == [];
    Step(Next(Next(s, a), b), [c]);
    assert [b, c][1..] == [c];
    Step(Next(s, a), [b, c]);
    assert [a, b, c][1..] == [b, c];
    Step(s, [a, b, c]);
  }

  lemma EarlyAnswer()
    ensures Legal(Init(1), [Write(5), Load(1, 60), Keep(6)])
    ensures var t := Exec(Init(1), [Write(5), Load(1, 60), Keep(6)]);
            && t.n == 1 && t.packets == 0 && t.sender == Written(1, 5) && t.receiver == Waiting
            && 1 in t.table && t.table[1].valid
  {
    OnWireIs(1);
    ThreeSteps(Init(1), Write(5), Load(1, 60), Keep(6));
  }

  // A duplicate loaded while an early answer still stands is not stored.
  lemma Skipped(s: State)
    requires s.n == 1 && s.packets == 0 && s.sender == Written(1, 5) && s.receiver == Waiting
    requires 1 in s.table && s.table[1].valid
    ensures Legal(s, [Load(1, 60), Store, Keep(7)])
    ensures var t := Exec(s, [Load(1, 60), Store, Keep(7)]); t.packets == 1 && 1 in t.table && !t.table[1].valid
  {
    OnWireIs(1);
    ThreeSteps(s, Load(1, 60), Store, Keep(7));
  }

  // So although a duplicate's answer comes last, the packet can count as lost.
  lemma DuplicateSkipped() returns (es: seq<Event>)
    ensures es == [Write(5), Load(1, 60), Keep(6), Load(1, 60), Store, Keep(7)] && Legal(Init(1), es)
    ensures var t := Exec(Init(1), es); t.packets == 1 && 1 in t.table && !t.table[1].valid
  {
    var early, late := [Write(5), Load(1, 60), Keep(6)], [Load(1, 60), Store, Keep(7)];
    EarlyAnswer();
    Skipped(Exec(Init(1), early));
    ExecConcat(Init(1), early, late);
    es := early + late;
  }
}
