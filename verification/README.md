# Network measurement agent: traceroute, SNMP and ICMP echo

A Dafny model of the parts of the agent whose correctness depends on interleavings, on
in-place updates or on arithmetic, with proofs of what they do in every run and on every input.
`dafny verify dfyconfig.toml` checks the whole project.

**Traceroute** (`traceroute/tracer.go`, `measure/trace.go`)

| file | content |
|---|---|
| `Wrappers` | a value that may be missing |
| `Probes` | the selection `handle` makes among outstanding probes, the reply it builds, the bounded push |
| `Sessions` | classes `Session` and `Tracer`: in-place compaction, `isDone`, the ID counter, the session table |
| `SessionLog` | one session as a step machine with the history of its probes and replies; match and push are separate steps |
| `TraceRun` | `Tracer.Trace` driving one session: ladder, drain, exits, in every interleaving with reply goroutines |
| `TraceTheorems` | what holds in every reachable state: accounting, ladder, exit, drain, the send/append gap |
| `TraceLimits` | exact limits: when the reply channel can overflow, when the exit can lose a reply, which `MaxHops` is live |
| `TracerWorld` | any number of sessions on one tracer: the wrapping counter, the table, the clock, isolation |
| `Sorting`, `Hops`, `TailCollapse` | the hop list: aggregation, sorting, folding of the destination's tail |
| `HopObjects` | the same as objects that are mutated, proved equal to the functions of `Hops` and `TailCollapse` |
| `Render` | the per-distance result array |

**ICMP echo and statistics** (`protocol/icmp.go`, `measure/crontab.go`, `statisticsAnalyse/`)

| file | content |
|---|---|
| `Checksum`, `EchoMessage` | the checksum loop against RFC 1071, the identifier and sequence bytes, the whole message |
| `EchoPeriod` | sender and receiver of one period on the shared table, each with its gap |
| `Collecting` | filling, sorting and cutting the list of answered sequence numbers |
| `PeriodReport` | the reported loss rate of a whole period against the packets sent and answered |
| `Statistics`, `Analysis` | mean, variance, jitter, quantiles over exact reals; the reported rows; the loss rate |

**SNMP** (`network/snmp_client.go`, `network/request_cache.go`)

| file | content |
|---|---|
| `DiscoveryFill`, `DiscoveryChoice`, `DiscoveryPool` | validation and queue fill, the early-stopping collector, the worker pool |
| `RequestCache`, `SnmpClient` | the caches, and get and walk against an agent with a transport that may fail |
| `Oid` | comparing OIDs, attaching an index, taking it off again |

A run is a sequence of enabled events from an initial state. `Reachable(cfg, l)` in `TraceRun`
quantifies over all of them, as do the theorems of `TracerWorld`, `EchoPeriod` and `DiscoveryPool`.

## What is not as it looks

For each of these the model follows the code. The theorems named say exactly when the obvious claim
holds, or that it never does, and show by a run or an input that it fails.

- `Trace` writes `DefaultConfig.MaxHops`, but `DefaultTracer` took its copy when the program started, so the
  requested bound holds only if the copy is within it: `TraceLimits.RequestedBoundIff`.
- `removeSession` drops every session of the address. The comment there assumes one session per address;
  `TestConcurrent` (traceroute/tracer_test.go:55-68) opens three: `TracerWorld.CloseServesOthersIff`, and
  `TracerWorld.SecondSessionUnserved` for a run. A session is served exactly until some session of its address
  closes: `TracerWorld.ServedIff`.
- A probe leaves the list before its reply is pushed, so `isDone` can win. Leaving through it means that every
  reply reached the callback for no configuration that sends at all: `TraceLimits.DoneMeansDeliveredIff`.
- A reply that arrives between the send and the append finds nothing, in any run: `TraceTheorems.GapAnswersMissed`.
- The reply channel drops nothing exactly if Count * MaxHops is at most 64: `TraceLimits.NeverDropsIff`.
- A list of two or more hops that are all destination-only is not folded: `TailCollapse.OneDestinationHopIff`.
- `checkSum` folds once and does not shift an odd last byte: `Checksum.ChecksumAgreesIff`.
- An echo stored before the sender's own store is overwritten, and one loaded before it has its RTT taken from
  time zero: `EchoPeriod.AnswerCountsIff`, `EchoPeriod.CountedRttIff`, with the runs `EarlyEchoLost`,
  `DuplicateSkipped` and `RttFromZero`.
- In periods of more than 65000 packets the later echoes are filed under the key 0: `EchoPeriod.PeriodKeysIff`. If
  nothing else is answered, a list of zeros is returned (`Collecting.PeriodSequences`, `PeriodSequencesIff`), and no
  loss is reported although every packet counts as lost (`PeriodReport.PeriodLossIff`, `LongPeriodLoss`).
- The jitter list is not sorted before its first entry, last entry and quantiles are read. The ends are right
  exactly under the conditions of `Analysis.JitterOrderIff` and `Analysis.JitterMaxTrueIff`. Reading quantiles off
  the list is right at every fraction exactly under the first of these, which makes the three reported ones right
  (`Analysis.JitterQuantiles`); they can be wrong (`WrongMedianExample`), and can agree without it
  (`QuartilesAgreeByChance`).
- Discovery blocks before it starts if version 3 is configured without communities: `DiscoveryFill.Fill`.
- The collector does not watch the parent context. What is queued, polled and due at the moment of a
  cancellation decides whether it hangs: `DiscoveryPool.CancelledHangsIff`.
- A walk caches its transport failure and replays it: `SnmpClient.Client.SNMPWalk`.
- `GetIndexAfterOID` compares strings, not components: `Oid.SubtreeIff`, `Oid.SubtreeExactly`.

## Model

| member | source | states |
|---|---|---|
| Probes.SelectMeans | traceroute/tracer.go:327-337 | a pass purges exactly the expired probes, hits exactly those in time with the response's ID, and keeps exactly those in time with another |
| Probes.SelectPartition | traceroute/tracer.go:327-338 | one pass splits the outstanding probes three ways and loses or duplicates none |
| Probes.SelectIncreasing | traceroute/tracer.go:335-338 | compaction keeps the send order of the probes |
| Probes.DistinctIdsOneHit | traceroute/tracer.go:331-334 | with distinct IDs at most one outstanding probe is hit |
| Probes.LastHit | traceroute/tracer.go:331-334 | the request found is the last probe in time with the response's ID, none if there is none |
| Probes.ReplyAnswers | traceroute/tracer.go:343-357 | a reply carries the responder's address, the time from its probe to its response, within the timeout, and the TTL used up on the way plus one, but at least 1 |
| Sessions.Session.Register | traceroute/tracer.go:298-300 | Ping's append, and that it is the machine's register step |
| Sessions.Session.IsDone | traceroute/tracer.go:310-319 | true exactly if every outstanding probe has a TTL above the bound, and then exactly the driver in that state returns |
| Sessions.Session.Match | traceroute/tracer.go:322-339 | the in-place compaction keeps exactly the probes in time with another ID, in order, and finds the last one in time with the response's ID |
| Sessions.Session.Handle | traceroute/tracer.go:321-360 | probes and channel after a response: what stays outstanding, what is pushed, and that this is the machine's match followed by its push |
| Sessions.Tracer.NextId | traceroute/tracer.go:221 | the counter wraps at 2^32 and the ID is its low half |
| Sessions.Tracer.NewSession | traceroute/tracer.go:231-238 | the session is appended to its address's entry, other entries stay |
| Sessions.Tracer.RemoveSession | traceroute/tracer.go:240-254 | the whole entry of the address goes, the session's probes are abandoned, other sessions keep theirs |
| Sessions.Tracer.ServeReply | traceroute/tracer.go:256-264 | every session of the address handles the response, no session of another address changes |
| SessionLog.MatchKeepsProbes | traceroute/tracer.go:326-339 | a match moves probes between outstanding, purged and matched and loses none |
| SessionLog.MatchKeepsReplies | traceroute/tracer.go:340-357 | each reply is made for its own matched probe, and each matched probe answers at most one reply |
| SessionLog.NextKeepsInv | traceroute/tracer.go:292-360 | probe and reply accounting survive every step, and the channel hands replies on in the order they were accepted |
| SessionLog.RepliesBounded | traceroute/tracer.go:321-360 | replies are in transit, in the channel, delivered or dropped, and never outnumber matched probes |
| SessionLog.ExactlyOnePlace | traceroute/tracer.go:292-360 | a registered probe is in exactly one of outstanding, purged, matched, abandoned, once |
| SessionLog.UniqueMatch | traceroute/tracer.go:327-357 | with distinct IDs a response in time takes exactly its probe and makes exactly one reply for it |
| SessionLog.MatchKeepsIff | traceroute/tracer.go:327-338 | a response leaves a probe outstanding if and only if it is in time and has another ID |
| SessionLog.MatchTakesIff | traceroute/tracer.go:327-338 | it purges exactly the expired probes and matches exactly those in time with its ID |
| SessionLog.MatchAnswersIff | traceroute/tracer.go:340-342 | a response makes a reply if and only if an outstanding probe in time has its ID |
| SessionLog.PendingDecreases | traceroute/tracer.go:94-111 | 3 x outstanding + 2 x replies in transit + replies in the channel strictly drops with every match or purge, push and receive |
| TraceRun.LadderInvKept | traceroute/tracer.go:70-89 | every event keeps the ladder's shape: rounds send 1, 2, 3, ... never above the bound in force |
| TraceRun.BoundKept | traceroute/tracer.go:81-83 | max stays the least of MaxHops and the hop counts of the destination replies consumed |
| TraceRun.ExitKept | traceroute/tracer.go:90-105 | after leaving through isDone no covered probe is or becomes outstanding |
| TraceRun.InvKept | traceroute/tracer.go:60-112 | one event keeps accounting, ladder, bound and exit conditions together |
| TraceRun.SessionStepSound | traceroute/tracer.go:60-112 | each event of the driver or a goroutine does to the session exactly one session step or none |
| TraceRun.ReachableInv | traceroute/tracer.go:60-112 | all of these conditions hold in every reachable state |
| TraceTheorems.Accounting | traceroute/tracer.go:292-360 | in every reachable state: each probe in one place, each reply for its own distinct matched probe and a response with its ID, RTT the time between the two and <= Timeout, 1 <= Hops <= TTL + 1 |
| TraceTheorems.PurgedIff | traceroute/tracer.go:327-330 | in every run a probe is purged if and only if some response was handled while it was outstanding and expired |
| TraceTheorems.DeliveredHops | traceroute/tracer.go:344-357 | every reply handed to the callback has between 1 and MaxHops + 1 hops and an RTT within the timeout |
| TraceTheorems.RegisteredWithinBudget | traceroute/tracer.go:71-73 | one call sends at most Count x MaxHops probes |
| TraceTheorems.NothingDropped | traceroute/tracer.go:352-359 | with Count x MaxHops <= 64 the default branch of the push never fires, however many goroutines reply |
| TraceTheorems.LadderComplete | traceroute/tracer.go:70-89 | every round sends each TTL from 1 without gaps, a finished one at least up to the final bound, and the probes registered are these, in order |
| TraceTheorems.ExitTakenIff | traceroute/tracer.go:90-105 | the driver returns at an isDone test if and only if every outstanding probe is above the bound, and goes on waiting otherwise |
| TraceTheorems.AllAnsweredMeansAnswered | traceroute/tracer.go:101-105 | leaving through isDone: every registered probe the final bound covers was matched or had expired |
| TraceTheorems.DrainIsFinite | traceroute/tracer.go:90-111 | after the ladder the number of consuming steps is bounded by the pending measure, whatever the schedule |
| TraceTheorems.WaitsCanEnd | traceroute/tracer.go:74-111 | a reply or a cancellation is heard in the select of either loop, the deadline in the drain; the last two return at once and change nothing else |
| TraceTheorems.OutcomeIff | traceroute/tracer.go:71-111 | a run returns a cancellation, the deadline or a failed send if and only if it has one; the session is closed if and only if it was closed |
| TraceTheorems.NeverStuck | traceroute/tracer.go:60-112 | in every reachable state the driver can step until it has returned; then Close waits exactly for the replies in transit, which can be pushed |
| TraceTheorems.TraceIsFinite | traceroute/tracer.go:60-112 | every call takes at most 10 x the probe budget + Count + 5 steps with the pushes, whatever is heard, on every schedule |
| TraceTheorems.GapAnswersMissed | traceroute/tracer.go:294-301 | whatever responses are served between send and append, the probe is unanswered and outstanding afterwards |
| TraceLimits.SilentRun | traceroute/tracer.go:71-89 | against a silent network the ladder reaches every number of probes up to its budget |
| TraceLimits.RequestedBoundIff | traceroute/tracer.go:475-489 | all probes of all runs respect the requested MaxHops if and only if the tracer's own copy is within it, or sends nothing |
| TraceLimits.ReplyLostAtExit | traceroute/tracer.go:338-359 | for every configuration that sends, a reachable exit through isDone with a reply made and none delivered |
| TraceLimits.DoneMeansDeliveredIff | traceroute/tracer.go:90-105 | leaving through isDone means, in all runs, that every reply made was delivered if and only if the configuration sends no probe |
| TraceLimits.ExitLeavingProbe | traceroute/tracer.go:90-105 | for every configuration with two TTLs or more, a reachable exit with a probe above the bound outstanding |
| TraceLimits.ExitLeavesProbesIff | traceroute/tracer.go:90-105 | the exit can leave probes outstanding if and only if the configuration sends more than one TTL |
| TraceLimits.Flood | traceroute/tracer.go:352-359 | with more than 64 unread replies outstanding there is a continuation that drops one |
| TraceLimits.NeverDropsIff | traceroute/tracer.go:285 | no run drops a reply if and only if Count x MaxHops <= 64 |
| TracerWorld.Isolation | traceroute/tracer.go:256-264 | any run of the tracer, projected on one session, is a run of that session alone with the same result |
| TracerWorld.RequestStamp | traceroute/tracer.go:221-223 | IDs follow the number of requests modulo 65536, undisturbed by the 32-bit wrap |
| TracerWorld.NothingEarlyOnRun | traceroute/tracer.go:220-229 | every run keeps: no response that a session heard is stamped later than the clock, and the clock never goes back |
| TracerWorld.LiveIdsDistinct | traceroute/tracer.go:221-223 | while fewer than 65536 requests separate live probes, their IDs differ |
| TracerWorld.RequestFits | traceroute/tracer.go:220-229 | in every run the request built from the shared counter is one the session's ladder can send next |
| TracerWorld.OpensAnyTime | traceroute/tracer.go:281-289 | a session can be opened at any time on any address; it is in the table at once, and every other session, the table for it and the counter stay |
| TracerWorld.TableKept | traceroute/tracer.go:231-254 | with one session per address every event keeps the table equal to the open sessions |
| TracerWorld.TableAlwaysExact | traceroute/tracer.go:231-254 | so after any such run from the start each address maps to exactly its open session |
| TracerWorld.CloseServesOthersIff | traceroute/tracer.go:243-244 | after a close all other open sessions are still served if and only if none shares the address |
| TracerWorld.SecondSessionUnserved | traceroute/tracer.go:240-244 | a run from the start after which an open session is not served, because another of its address closed |
| TracerWorld.ServedIff | traceroute/tracer.go:231-264 | after any run from the start a session is served if and only if no session of its address closed since it was opened |
| TracerWorld.UnservedHearsNothing | traceroute/tracer.go:243-264 | a session that is out of the table never matches a probe or makes a reply again |
| TracerWorld.NoSessionDrops | traceroute/tracer.go:352-359 | no session of any run of the tracer drops a reply when Count x MaxHops <= 64 |
| TracerWorld.OneReplyPerAnswer | traceroute/tracer.go:220-229 | after any run, a response in time consumes exactly its probe and makes exactly one reply; every other probe in time stays outstanding, and only expired ones are purged |
| Sorting.SortCorrect | traceroute/tracer.go:495-497 | the sort is an ordered permutation |
| Sorting.SortUnique | traceroute/tracer.go:495-497 | every ordered permutation is this list when equal keys mean equal elements |
| Hops.CollectedCorrect | traceroute/tracer.go:454-491 | distinct distances, non-empty hops, distinct addresses; each node holds exactly its replies in arrival order |
| Hops.CollectedConserves | traceroute/tracer.go:454-491 | flattening the hops gives back exactly the multiset of replies |
| Hops.ArrivalOrderIrrelevant | traceroute/tracer.go:479-491 | distance -> address -> multiset of RTTs is the same for every permutation of the arrivals |
| TailCollapse.TailStart | traceroute/tracer.go:498-507 | the index found is where the maximal destination-only suffix begins |
| TailCollapse.SortHopsOk | traceroute/tracer.go:495-497 | sorting gives strictly increasing distances and keeps every hop |
| TailCollapse.AnySortAgrees | traceroute/tracer.go:495-497 | any library sort of the collected hops gives this very list |
| TailCollapse.CollapseKeepsOrder | traceroute/tracer.go:498-515 | folding keeps the distances strictly increasing and the first distance |
| TailCollapse.CollapseIdempotent | traceroute/tracer.go:498-515 | a second pass changes nothing |
| TailCollapse.OneDestinationHopIff | traceroute/tracer.go:499-515 | at most one trailing destination-only hop is left, if and only if not all of two or more hops were destination-only |
| TailCollapse.CollapseConserves | traceroute/tracer.go:510-513 | folding loses no RTT sample and moves none to another address |
| TailCollapse.TraceResultCorrect | traceroute/tracer.go:475-517 | the result has every RTT of every reply once, under its address, in strictly increasing distance |
| TailCollapse.SortedHolds | traceroute/tracer.go:479-497 | after sorting each hop holds exactly the replies from its distance, in arrival order |
| TailCollapse.TraceResultHolds | traceroute/tracer.go:498-517 | the result is the prefix unchanged and one hop with all destination RTTs of the tail's distances, nearest first |
| HopObjects.Hop.Add | traceroute/tracer.go:454-468 | the first node of the reply's address grows, or a node is added at the end; the place of that node is returned |
| HopObjects.Trail.Find | traceroute/tracer.go:479-484 | the scan finds the first hop at the distance, or the end of the list |
| HopObjects.Trail.Record | traceroute/tracer.go:479-491 | the callback on hop objects equals the recording function; no hop of another distance changes |
| HopObjects.Trail.SortByDistance | traceroute/tracer.go:495-497 | sorting moves the same objects into order |
| HopObjects.Trail.FindTail | traceroute/tracer.go:498-507 | the scan from the back finds where the destination-only tail begins |
| HopObjects.Trail.GatherTail | traceroute/tracer.go:510-512 | the tail's RTTs concatenated in distance order |
| HopObjects.Trail.CollapseTail | traceroute/tracer.go:498-515 | the in-place fold equals the folding function |
| HopObjects.Trace | traceroute/tracer.go:475-517 | no hops on an error other than a deadline; otherwise callback, sort and fold on objects give the result that TraceResultCorrect and TraceResultHolds describe |
| Render.Mean | measure/trace.go:146-150 | the mean RTT in milliseconds; the count is never zero |
| Render.MeanLaws | measure/trace.go:146-150 | a million nanoseconds are a millisecond, and the mean of two lists together weighs them by their lengths |
| Render.RenderHop | measure/trace.go:145-157 | the slot shows the hop's last node, no other slot changes |
| Render.Render | measure/trace.go:136-160 | no write out of range; a slot is "*" exactly when no hop has its distance, otherwise it shows that hop's last node and its mean |
| Render.ResultRenderable | measure/trace.go:139-151 | every result of Trace on replies of at least one hop can be rendered, and its last distance is within the largest hop count |
| Render.PipelineTotal | measure/trace.go:125-160 | at every moment of every run the replies delivered so far render, in at most MaxHops + 1 slots |
| Checksum.CheckSum | protocol/icmp.go:297-314 | the loop, wrapping at 2^32 and adding an odd last byte unshifted, computes the specified value |
| Checksum.NoOverflow | protocol/icmp.go:303-311 | up to 131072 bytes the accumulator never wraps, not even in the fold |
| Checksum.ChecksumAgreesIff | protocol/icmp.go:297-314 | up to 131072 bytes: equals the Internet checksum of section 1 of RFC 1071 if and only if one fold suffices and no non-zero odd last byte remains |
| Checksum.ChecksumAgreesAtAnyLength | protocol/icmp.go:297-314 | the same for messages of any length, where the accumulator may wrap: exactly when the lost carries and the missing shift add up to a multiple of 65535, unless the fold comes to 0 for a sum that does not |
| Checksum.OffByOneCarry | protocol/icmp.go:311 | for even lengths the only other outcome is off by exactly one carry |
| Checksum.LostCarryExample | protocol/icmp.go:311 | six bytes on which the code and RFC 1071 differ |
| Checksum.StampedVerifiesIff | protocol/icmp.go:522-524 | up to 131072 bytes: the stamped message sums to 0xFFFF in one's complement, as RFC 792 requires, under exactly the same condition |
| Checksum.StampedVerifiesAtAnyLength | protocol/icmp.go:522-524 | at any length: exactly when what is lost is a multiple of 65535 |
| EchoMessage.SequenceRoundTripIff | protocol/icmp.go:287-322 | getSeq inverts genSequence on exactly the numbers up to 65000 |
| EchoMessage.SequenceRoundTripBack | protocol/icmp.go:287-322 | genSequence inverts getSeq on exactly the bytes that read as at most 65000 |
| EchoMessage.FillRandData | protocol/icmp.go:551-557 | the filler goes from byte 28 to the end, the header stays |
| EchoMessage.BuildEcho | protocol/icmp.go:507-524 | header, filler and the checksum stamped into bytes 2 and 3 |
| EchoMessage.EchoReadsBack | protocol/icmp.go:514-524 | what the receiver reads back: type, code, identifier, filler, and the sequence number exactly up to 65000; and when the message checks |
| EchoPeriod.InvKept | protocol/icmp.go:541-542 | table keys, send times and the receiver's copy stay consistent under every step of sender and receiver |
| EchoPeriod.PeriodKeys | protocol/icmp.go:450-460 | for every period length: after k sends the keys other than 0 are exactly 1..k, 0 is one only past 65000, and Sequence is back at 1 after N |
| EchoPeriod.PeriodKeysIff | protocol/icmp.go:287-295 | the keys are exactly 1..k in all runs if and only if the period has at most 65000 packets |
| EchoPeriod.FiledUnderZero | protocol/icmp.go:287-295 | for every longer period, a run in which the only answered key is 0 |
| EchoPeriod.EntriesReport | protocol/icmp.go:376-391 | in every run an answered entry's RTT is the time between its timestamps and its TTL is out of a byte, an unanswered one holds the placeholders |
| EchoPeriod.ValidStays | protocol/icmp.go:373-393 | an answered stored entry never changes again: the first reply is kept |
| EchoPeriod.AnswerCountsIff | protocol/icmp.go:541-542 | in every run, duplicates included, a packet ends up answered if and only if some answer is stored after the sender stored the entry, by a receiver that found no earlier answer |
| EchoPeriod.OneAnswerCountsIff | protocol/icmp.go:541-542 | with no further echo of its number, an answer counts if and only if it is stored after the entry |
| EchoPeriod.InvalidStays | protocol/icmp.go:357-395 | without an echo of its own an entry stays unanswered |
| EchoPeriod.RttTrueIff | protocol/icmp.go:359-393 | one store: the RTT recorded is the true one if and only if the entry was there when the receiver loaded it, or was sent at time zero |
| EchoPeriod.CountedRttIff | protocol/icmp.go:359-393 | every run: a counted packet reports its true RTT if and only if its answer was loaded after the sender stored the entry, or it was sent at time zero |
| EchoPeriod.CountedEntry | protocol/icmp.go:372-393 | every run: a counted packet's entry holds 64 less the TTL byte of the echo whose answer counts, and the time that answer was stored |
| EchoPeriod.EachByteStored | protocol/icmp.go:372-393 | for each of the 256 TTL bytes a legal run stores 64 less the byte |
| EchoPeriod.SentAtIsWriteTime | protocol/icmp.go:529-542 | every run: the send time kept for a packet is the time of its write |
| EchoPeriod.EarlyEchoLost | protocol/icmp.go:541-542 | a run whose one echo arrives in the gap and is lost |
| EchoPeriod.DuplicateSkipped | protocol/icmp.go:359-393 | a run in which a duplicate is stored last and the packet is lost all the same |
| EchoPeriod.RttFromZero | protocol/icmp.go:359-393 | a run in which the echo counts with an RTT taken from time zero |
| Collecting.Fill | measure/crontab.go:74-96 | the array holds the answered keys and then zeros; no index is out of range |
| Collecting.Pigeonhole | measure/crontab.go:89-94 | distinct keys from 1 to N are at most N many |
| Collecting.KeysFit | measure/crontab.go:89-94 | the answered keys of any period, the 0 included, never overrun the array |
| Collecting.SortInPlace | measure/crontab.go:106-108 | the array ends as the ordered permutation of itself |
| Collecting.SortPadded | measure/crontab.go:106-116 | the zeros come first, then the sorted keys |
| Collecting.CutZeros | measure/crontab.go:109-117 | cutting the zero prefix leaves exactly the sorted keys; an array of zeros only stays whole |
| Collecting.Collect | measure/crontab.go:74-117 | the list returned: empty if nothing was answered, else the sorted answered keys other than 0, or N zeros if 0 is the only one |
| Collecting.CollectedSequences | measure/crontab.go:74-117 | it is strictly increasing and holds exactly the packets seen answered, if and only if 0 is not the only key answered |
| Collecting.PeriodVisits | measure/crontab.go:78-96 | the table of every run of a period meets what the collection needs of it |
| Collecting.PeriodSequences | measure/crontab.go:32-117 | over every run of a period of any length, the list returned is strictly increasing and holds exactly the packets with an answer stored after their entry, if and only if 0 is not the only key answered |
| Collecting.ZerosReturned | measure/crontab.go:109-117 | for every period of more than 65000 packets, a run that returns as many zeros as there are packets |
| Collecting.PeriodSequencesIff | measure/crontab.go:32-117 | the list returned is right in all runs if and only if the period has at most 65000 packets |
| Statistics.Average | statisticsAnalyse/basicComputer.go:5-13 | the loop computes the mean the identities are about; no number for an empty list |
| Statistics.Variance | statisticsAnalyse/basicComputer.go:14-23 | the loop computes the variance the identities are about; no number for an empty list |
| Statistics.Jitter | statisticsAnalyse/basicComputer.go:24-31 | the absolute deviations, in sample order |
| Statistics.Quantile | statisticsAnalyse/basicComputer.go:33-54 | three interpolated quantiles, every index in range; zeros for an empty sample |
| Statistics.JitterVariance | statisticsAnalyse/basicComputer.go:14-31 | variance of the deviations = variance - (mean deviation)^2 |
| Statistics.VarianceBound | statisticsAnalyse/basicComputer.go:14-23 | variance <= (avg - min) x (max - avg) |
| Statistics.AverageBetween | statisticsAnalyse/basicComputer.go:5-13 | the mean lies between the ends of a sorted sample |
| Statistics.InterpolateMonotone | statisticsAnalyse/basicComputer.go:38-50 | on a sorted sample a later position never reads a smaller value |
| Statistics.EvenlySpaced | statisticsAnalyse/basicComputer.go:38-50 | the quantiles of evenly spaced values lie on their line |
| Statistics.NeighboursDecide | statisticsAnalyse/basicComputer.go:38-50 | a quantile depends on the two entries next to its position only |
| Statistics.QuantileAffine | statisticsAnalyse/basicComputer.go:38-50 | a change of unit and origin carries over to the quantiles |
| Analysis.PreRtts | statisticsAnalyse/calculate.go:52-63 | the positive values in order, or -1 alone |
| Analysis.PreTTLs | statisticsAnalyse/calculate.go:65-76 | the positive values in order, or -1 alone |
| Analysis.PreSampleCount | statisticsAnalyse/calculate.go:52-76 | exactly the positive values stay, as often as they occur; without any the sample is -1 alone |
| Analysis.MissingPacketIgnored | statisticsAnalyse/analyse.go:63-77 | a packet without an entry changes none of the fourteen RTT numbers, and its TTL is no sample |
| Analysis.RttToAllStatistics | statisticsAnalyse/calculate.go:8-39 | the 14 reported numbers, and the input left sorted |
| Analysis.TTLToStatistics | statisticsAnalyse/calculate.go:41-50 | the 7 reported numbers, and the input left sorted |
| Analysis.OrderStatistics | statisticsAnalyse/calculate.go:8-50 | for any input min <= q25 <= q50 <= q75 <= max and min <= avg <= max, RTT and TTL |
| Analysis.StatisticsIdentities | statisticsAnalyse/calculate.go:12-37 | for any input: jitterVariance = variance - jitterAvg^2 >= 0, jitter ends avg - min and max - avg, variance at most their product |
| Analysis.LargestDeviation | statisticsAnalyse/calculate.go:22-23 | the larger of the reported jitter ends is the true largest deviation |
| Analysis.JitterMaxTrueIff | statisticsAnalyse/calculate.go:23 | the reported jitterMax is the largest jitter if and only if the mean is at most the mid-range |
| Analysis.JitterOrderIff | statisticsAnalyse/calculate.go:18-22 | the jitter list is ordered, and its first entry least, if and only if no value lies strictly between the minimum and its mirror image in the mean |
| Analysis.UnorderedJitterExample | statisticsAnalyse/calculate.go:18-23 | a sample whose first jitter is the largest |
| Analysis.JitterQuantiles | statisticsAnalyse/calculate.go:18-21 | reading quantiles off the jitter list is right at every fraction if and only if no value lies strictly between the minimum and its mirror image; the three reported ones are then the true ones |
| Analysis.JitterQuantilesWithin | statisticsAnalyse/calculate.go:18-23 | for any input the three reported jitter quantiles lie between 0 and the largest deviation |
| Analysis.WrongMedianExample | statisticsAnalyse/calculate.go:18-21 | a sample whose reported median jitter is 0 and whose true one is 1 |
| Analysis.QuartilesAgreeByChance | statisticsAnalyse/calculate.go:18-21 | a sample outside that condition whose three reported quantiles are right |
| Analysis.GetResult | statisticsAnalyse/analyse.go:56-92 | the 22 numbers reported for a list of sequence numbers and the table; the loss of an empty table is no number |
| Analysis.ReportedRtt | statisticsAnalyse/analyse.go:64-75 | the RTT taken for a packet is a whole number of hundredths, less than 0.01 below the entry's, and 0 without an entry |
| Analysis.LossRateAccurate | statisticsAnalyse/analyse.go:78-86 | for distinct packets of the table, the rate lies in [0, 1) and less than 0.01 below the fraction of the table they leave out |
| PeriodReport.ShortPeriodLoss | statisticsAnalyse/analyse.go:78-86 | in every run of a period of up to 65000 packets with something collected, the reported loss lies in [0, 1) and less than 0.01 below the fraction of the packets sent that went unanswered |
| PeriodReport.ReportedTtls | statisticsAnalyse/analyse.go:63-77 | the TTL sample of a period of up to 65000 packets: for each packet collected, 64 less the TTL byte of the echo that counts |
| PeriodReport.LongPeriodLoss | statisticsAnalyse/analyse.go:78-86 | for every longer period, a run that reports no loss although every packet counts as lost |
| PeriodReport.PeriodLossIff | statisticsAnalyse/analyse.go:78-86 | the reported loss is that accurate in all runs if and only if the period has at most 65000 packets |
| DiscoveryFill.Validate | network/snmp_client.go:75-97 | which configurations are rejected and with what; the two availability flags |
| DiscoveryFill.FillFitsIff | network/snmp_client.go:99-131 | the jobs fit the queue if and only if there is a community, or no port, or no version 3 |
| DiscoveryFill.JobsAreCombinations | network/snmp_client.go:104-131 | the jobs are exactly the combinations of a configured port, version and community, with no community for version 3 |
| DiscoveryFill.FillPorts | network/snmp_client.go:104-131 | the nested loops queue exactly the jobs in order, and block exactly if they exceed the capacity |
| DiscoveryFill.Fill | network/snmp_client.go:99-131 | the fill blocks for ever exactly if version 3 is asked for on some port without any community |
| DiscoveryChoice.FilledIsWellFormed | network/snmp_client.go:83-131 | what is queued and the two flags fit together as the collector needs |
| DiscoveryChoice.Collect | network/snmp_client.go:140-177 | the collector picks the first arrival of the highest version read and the first non-network error read, and stops early only at an unbeatable success |
| DiscoveryChoice.BestOfAll | network/snmp_client.go:155-184 | the client has the highest version of all attempts that succeed, read or unread; none only if all fail |
| DiscoveryChoice.FirstOfItsVersion | network/snmp_client.go:155-176 | it is the first to arrive of the successes of its version |
| DiscoveryChoice.ScheduleIndependent | network/snmp_client.go:143-188 | two complete arrival orders choose the same version, or fail alike |
| DiscoveryChoice.CriticalOfAll | network/snmp_client.go:145-153 | if all fail, a non-network error is reported if and only if some attempt has one |
| DiscoveryPool.InvKept | network/snmp_client.go:191-212 | every step of worker, collector or cancellation keeps the job accounting |
| DiscoveryPool.EachJobOnce | network/snmp_client.go:191-212 | over every schedule each job is queued, held, answered or read: exactly one, once |
| DiscoveryPool.WorkerNeverBlocks | network/snmp_client.go:206 | a worker with a result always finds room in the output channel |
| DiscoveryPool.CollectorProgresses | network/snmp_client.go:143-144 | while the context is live and the collector waits, some other step is possible, given a worker |
| DiscoveryPool.RemainingDecreases | network/snmp_client.go:191-212 | every step but a cancellation brings the end nearer |
| DiscoveryPool.CollectorFinishes | network/snmp_client.go:143-177 | an uncancelled run is bounded in length and never hangs |
| DiscoveryPool.CancelledCollectorHangs | network/snmp_client.go:143-144 | a parent context cancelled at once leaves the collector waiting for ever, with any number of workers |
| DiscoveryPool.DueKept | network/snmp_client.go:191-212 | once the context is cancelled, no step changes which results are still to come |
| DiscoveryPool.CancelledHangsIff | network/snmp_client.go:143-212 | in any cancelled state of any run the collector can hang if and only if more jobs are queued than workers poll and no result due is unbeatable, and can get through exactly otherwise |
| DiscoveryPool.CancelledRunEnds | network/snmp_client.go:143-212 | no continuation can end the other way |
| DiscoveryPool.DoneIsComplete | network/snmp_client.go:143-177 | when the collector is through, what it read is a complete schedule in the sense of BestOfAll |
| DiscoveryPool.DiscoveryDeterministic | network/snmp_client.go:133-188 | any two finished runs, with any numbers of workers, settle on the same version or fail alike |
| RequestCache.RequestCache.GetSuccessfulRequests | network/request_cache.go:30-40 | exactly the entries without an error |
| SnmpClient.HitsMissesPartition | network/snmp_client.go:390-409 | hits and misses together are exactly the names requested, counted; hits are cached, misses are not |
| SnmpClient.HitsMissesInOrder | network/snmp_client.go:391-405 | hits and misses each keep the order of the request |
| SnmpClient.BatchesCorrect | network/snmp_client.go:414-421 | the batches concatenate to the misses in order, have 1 to MaxOids names each, and are ceil(n / MaxOids) many |
| SnmpClient.GetTransparent | network/snmp_client.go:390-457 | serving hits first changes neither the multiset of answers nor the verdict |
| SnmpClient.CachedGetIsFree | network/snmp_client.go:390-414 | a get makes no request if and only if every name is cached |
| SnmpClient.Client.SetMaxOIDs | network/snmp_client.go:585-594 | refused below 1 and for version 1; MaxOids stays at least 1, and 1 for version 1, as construction leaves it |
| SnmpClient.Client.Lookup | network/snmp_client.go:390-406 | hits in order with their cached answers, misses in order, and the verdict so far |
| SnmpClient.Client.RequestAll | network/snmp_client.go:414-451 | one request a batch, all answers in order, every answered name cached if the cache is on; a lost request ends it after a prefix of the batches |
| SnmpClient.Client.SNMPGet | network/snmp_client.go:385-458 | a completed get returns the same multiset and verdict as uncached, hits first then misses; only misses are requested, and nothing if every name is cached |
| SnmpClient.Client.SNMPWalk | network/snmp_client.go:461-529 | the walk agrees with the uncached one exactly unless it replays a cached transport failure; what it sends, and what it leaves in the caches |
| SnmpClient.Client.WalkAgent | network/snmp_client.go:477-528 | bulk walk first unless version 1, plain walk if that was lost; the result and the error are cached |
| SnmpClient.WireStep | network/snmp_client.go:414-489 | what the client's invariant says of all requests sent: version 1 sends no bulk walk and one name a get; otherwise a plain walk only follows the lost bulk walk it stands in for |
| SnmpClient.Client.HasSuccessfulCachedRequest | network/snmp_client.go:537-539 | true exactly if some cached name was found at the agent |
| SnmpClient.History | network/snmp_client.go:385-534 | over any history of gets, walks, toggles and failures, what comes back is the agent's, and a get of names listed by earlier caching walks sends no request |
| Oid.AtoiIff | network/snmp_client.go:869-876 | a component reads as n if and only if it is an optional sign, leading zeros and the decimal of n, and n fits 64 bits |
| Oid.CmpIsLex | network/snmp_client.go:861-887 | on well-formed OIDs Cmp is the lexicographic order of the integer components |
| Oid.CmpTotalOrder | network/snmp_client.go:861-887 | antisymmetric, transitive, and 0 exactly if the component lists agree |
| Oid.CmpErrsIff | network/snmp_client.go:869-876 | an error if and only if a malformed component is met before the first difference, and the receiver is blamed if and only if its own is malformed there |
| Oid.BasePrecedesIndexed | network/snmp_client.go:890-897 | a well-formed base precedes every OID made from it by AddIndex, and equals it exactly if the index is only dots |
| Oid.IndexOrder | network/snmp_client.go:861-897 | decimal indices of one well-formed base are ordered as the numbers they write, if and only if the base does not end in two dots; then the comparison fails |
| Oid.IndexRoundTrip | network/snmp_client.go:850-897 | for all strings GetIndexAfterOID(AddIndex(b, i), b) succeeds and gives i without its surrounding dots |
| Oid.LeadingDotIgnored | network/snmp_client.go:884-897 | one leading dot of either argument makes no difference to the index |
| Oid.StraddlingExample | network/snmp_client.go:854-857 | "1.23" is accepted as below "1.2" |
| Oid.SubtreeIff | network/snmp_client.go:850-858 | when it succeeds, the base's components are a prefix of the OID's if and only if the match ends at a component boundary |
| Oid.SubtreeExactly | network/snmp_client.go:850-858 | on OIDs with at most a leading dot, success at a boundary is exactly the subtree relation |

## Left out

- Raw sockets, ICMP and IP header parsing and marshalling, `gosnmp`, `resty`: a response is (address, ID, TTL, time), an agent is a fixed function that echoes the requested names in order, a transport is a predicate on request numbers.
- Addresses are in the short form of `shortIP`, so that `IP.Equal` is equality; byte forms of one address are not distinguished.
- Floating point: reals are exact and do not round; NaN and the infinities are one value, NotFinite, which only a mean, a variance or a loss rate of nothing gives. `math.Floor` and the conversion to `int` are kept.
- Library sorting, including the non-strict comparator at measure/crontab.go:106-108, is an insertion sort here; SortUnique and AnySortAgrees show that any correct sort gives the same lists.
- HopObjects.Hop.Add: nodes are values inside their hop and Add returns the place of one instead of a pointer, so a caller that writes through the pointer is not captured; hops themselves are objects.
- HopObjects.Trace: takes the replies its callback received and the error the tracer ended with; TraceRun says which replies these can be.
- Render.Render: a slot keeps the address and the mean as numbers; their printing is not modelled.
- Locks: each locked region is one atomic step, and the push of a reply is a separate one; `removeSession` waits for `serveReply`, so Close is enabled only when no reply of its session is in transit.
- TracerWorld.Isolation: `serveReply` over several sessions of one address appears as one match per session, in any order and interleaved, which includes the order of the code.
- TraceLimits.NeverDropsIff: quantifies over runs of one session with any IDs; TracerWorld.NoSessionDrops carries the safe direction over to the shared counter.
- TraceTheorems.DrainIsFinite: the deadline is an event that may come at any time in the drain; real time is not bounded.
- Analysis.JitterQuantiles: for the three reported quantiles alone the condition is sufficient, not necessary, as QuartilesAgreeByChance shows; it is exact for all fractions together.
- TracerWorld.SecondSessionUnserved: for configurations that send; the table does not depend on the others.
- TracerWorld.LiveIdsDistinct: needs fewer than 65536 requests between live probes; beyond that IDs repeat, as in the code.
- EchoPeriod.PeriodKeys: echoes are of packets that were sent; numbers nobody sent, from another process with the same identifier, are not modelled.
- Collecting.PeriodSequences: `Range` shows one state of the table; an answer stored while it runs may or may not be seen.
- The waiting loop of `task` for the last packet, pacing, tickers and log lines: time passes only through the timestamps of events.
- PeriodReport.PeriodLossIff: a period in which nothing is collected reports the fixed list of measure/ping.go:251-257, which is not part of this model.
- Analysis.GetResult: the table is the one seen when it is called; entries of a foreign type, which nothing stores, are not modelled.
- DiscoveryPool.DiscoveryDeterministic: the outcome of an attempt does not depend on when it is made; which of several clients of the same version is chosen does depend on arrival, and Collect says which.
- SnmpClient.Client.SNMPWalk: a lost walk request delivers nothing, and the agent's answers do not change between a bulk and a plain walk.
- Credentials, SNMPv3 parameters, MaxRepetitions, response value decoding, and the other getters and setters of the client: wrappers and lookup tables.
- Logging, YAML loading, file watching, storage and upload, HTTP push, AES, system monitoring, `timerSave`, `RecvAllIcmpPacket`, IP counting and tag handling: plumbing, or only easier members.
