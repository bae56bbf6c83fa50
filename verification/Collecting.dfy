/** The end of a measurement period (measure/crontab.go, task): the answered sequence numbers
    are written into a zeroed array in the order the table is visited, sorted, and the zero
    prefix is cut off. */
module Collecting {
  import opened EchoMessage
  import opened EchoPeriod
  import opened Sorting

  function AsReal(k: nat): real {
    k as real
  }

  // Table visits: a key and the entry seen there.
  type Visit = (nat, Entry)

  // Range visits no key twice; a key is a packet of the period, or the 0 under which the echoes of
  // packets beyond 65000 are filed, and no other packet beyond 65000 is ever answered.
  ghost predicate VisitsOk(visits: seq<Visit>, n: nat) {
    && (forall i :: 0 <= i < |visits| && visits[i].1.valid ==> ValidKey(visits[i].0, n))
    && (forall i, j :: 0 <= i < j < |visits| ==> visits[i].0 != visits[j].0)
  }

  predicate ValidKey(k: nat, n: nat) {
    if k == 0 then n > MAX_SEQUENCE else k <= n && k <= MAX_SEQUENCE
  }

  function ValidKeys(visits: seq<Visit>): seq<nat> {
    if visits == [] then []
    else
      var front, v := ValidKeys(visits[..|visits| - 1]), visits[|visits| - 1];
      if v.1.valid then front + [v.0] else front
  }

  lemma {:induction false} ValidKeysMember(visits: seq<Visit>, k: nat)
    ensures k in ValidKeys(visits) <==> exists v :: v in visits && v.0 == k && v.1.valid
  {
    if visits == [] {
    } else {
      ValidKeysMember(visits[..|visits| - 1], k);
      assert visits == visits[..|visits| - 1] + [visits[|visits| - 1]];
    }
  }

  ghost predicate Distinct(s: seq<nat>) {
    forall i, j :: 0 <= i < j < |s| ==> s[i] != s[j]
  }

  lemma AppendDistinct(s: seq<nat>, k: nat)
    requires Distinct(s)
    ensures k !in s ==> Distinct(s + [k])
  {
  }

  lemma {:induction false} ValidKeysOk(visits: seq<Visit>, n: nat)
    requires VisitsOk(visits, n)
    ensures Distinct(ValidKeys(visits))
    ensures forall k :: k in ValidKeys(visits) ==> ValidKey(k, n)
  {
    if visits == [] {
    } else {
      var front := visits[..|visits| - 1];
      ValidKeysOk(front, n);
      var last := visits[|visits| - 1];
      forall k | k in ValidKeys(front)
        ensures k != last.0
      {
        ValidKeysMember(front, k);
        var v :| v in front && v.0 == k && v.1.valid;
        var i :| 0 <= i < |front| && front[i] == v;
        assert visits[i].0 != last.0;
      }
      AppendDistinct(ValidKeys(front), last.0);
    }
  }

  // Distinct numbers from 1 to n are at most n many: the array is never overrun.
  lemma {:induction false} Pigeonhole(s: seq<nat>, n: nat)
    requires Distinct(s) && forall k :: k in s ==> 1 <= k <= n
    ensures |s| <= n
    decreases n
  {
    assert s != [] ==> s[0] in s;
    if n in s {
      var i :| 0 <= i < |s| && s[i] == n;
      var rest := s[..i] + s[i + 1..];
      forall k | k in rest
        ensures 1 <= k <= n - 1
      {
        var j :| 0 <= j < |rest| && rest[j] == k;
        var j' := if j < i then j else j + 1;
        assert k == s[j'] && s[j'] in s && s[j'] != s[i];
      }
      Pigeonhole(rest, n - 1);
    } else if n > 0 {
      Pigeonhole(s, n - 1);
    }
  }

  function Shifted(s: seq<nat>): seq<nat> {
    seq(|s|, i requires 0 <= i < |s| => s[i] + 1)
  }

  // The keys of a period, the 0 included, are at most as many as its packets.
  lemma KeysFit(s: seq<nat>, n: nat)
    requires Distinct(s) && forall k :: k in s ==> ValidKey(k, n)
    ensures |s| <= n
  {
    if n <= MAX_SEQUENCE {
      Pigeonhole(s, n);
    } else {
      var up := Shifted(s);
      forall k | k in up
        ensures 1 <= k <= MAX_SEQUENCE + 1
      {
        var i :| 0 <= i < |up| && up[i] == k;
        assert s[i] in s;
      }
      Pigeonhole(up, MAX_SEQUENCE + 1);
    }
  }

  function ZeroSeq(m: nat): seq<nat> {
    seq(m, _ => 0)
  }

  // sort.Slice: any algorithm gives this result, since equal keys are equal numbers.
  method SortInPlace(a: array<nat>)
    modifies a
    ensures a[..] == Sort(old(a[..]), AsReal)
  {
    var sorted := Sort(a[..], AsReal);
    SortCorrect(a[..], AsReal);
    SameLength(a[..], sorted);
    for i := 0 to a.Length
      invariant a[..i] == sorted[..i]
    {
      a[i] := sorted[i];
    }
  }

  lemma NumbersAreKeys(m: multiset<nat>)
    ensures KeyInjective(m, AsReal)
  {
  }

  // Zeros after positive keys sort to zeros before the sorted keys.
  lemma SortWithZeros(keys: seq<nat>, m: nat)
    requires forall k :: k in keys ==> 1 <= k
    ensures Sort(keys + ZeroSeq(m), AsReal) == ZeroSeq(m) + Sort(keys, AsReal)
  {
    var sorted := Sort(keys, AsReal);
    var out := ZeroSeq(m) + sorted;
    SortCorrect(keys, AsReal);
    NumbersAreKeys(multiset(keys + ZeroSeq(m)));
    SortMembers(keys, AsReal);
    forall i, j | 0 <= i < j < |out|
      ensures AsReal(out[i]) <= AsReal(out[j])
    {
      if i >= m {
        assert AsReal(sorted[i - m]) <= AsReal(sorted[j - m]);
      }
    }
    SortUnique(keys + ZeroSeq(m), out, AsReal);
  }

  function Nonzero(s: seq<nat>): (r: seq<nat>)
    ensures forall k :: k in r ==> 1 <= k
  {
    if s == [] then []
    else if s[|s| - 1] == 0 then Nonzero(s[..|s| - 1])
    else Nonzero(s[..|s| - 1]) + [s[|s| - 1]]
  }

  lemma {:induction false} NonzeroMember(s: seq<nat>, k: nat)
    ensures k in Nonzero(s) <==> k in s && k != 0
  {
    if s == [] {
    } else {
      NonzeroMember(s[..|s| - 1], k);
      assert s == s[..|s| - 1] + [s[|s| - 1]];
    }
  }

  lemma {:induction false} NonzeroCount(s: seq<nat>, k: nat)
    ensures multiset(Nonzero(s))[k] == if k == 0 then 0 else multiset(s)[k]
    ensures |Nonzero(s)| == |s| - multiset(s)[0]
  {
    if s == [] {
    } else {
      NonzeroCount(s[..|s| - 1], k);
      assert s == s[..|s| - 1] + [s[|s| - 1]];
    }
  }

  lemma {:induction false} ZeroSeqCount(m: nat, k: nat)
    ensures multiset(ZeroSeq(m))[k] == if k == 0 then m else 0
  {
    if m == 0 {
      assert ZeroSeq(0) == [];
    } else {
      ZeroSeqCount(m - 1, k);
      assert ZeroSeq(m) == ZeroSeq(m - 1) + [0];
    }
  }

  lemma ConcatCount(a: seq<nat>, b: seq<nat>, k: nat)
    ensures multiset(a + b)[k] == multiset(a)[k] + multiset(b)[k]
  {
  }

  // s, filled up with zeros to length n.
  function Padded(s: seq<nat>, n: nat): seq<nat>
    requires |s| <= n
  {
    s + ZeroSeq(n - |s|)
  }

  // Padded, a list is a permutation of its entries other than 0, padded.
  lemma PaddedCount(keys: seq<nat>, n: nat, k: nat)
    requires |keys| <= n
    ensures |Nonzero(keys)| <= n && multiset(Padded(keys, n))[k] == multiset(Padded(Nonzero(keys), n))[k]
  {
    NonzeroCount(keys, k);
    ZeroSeqCount(n - |keys|, k);
    ZeroSeqCount(n - |Nonzero(keys)|, k);
    ConcatCount(keys, ZeroSeq(n - |keys|), k);
    ConcatCount(Nonzero(keys), ZeroSeq(n - |Nonzero(keys)|), k);
  }

  lemma SortPermuted(a: seq<nat>, b: seq<nat>)
    requires multiset(a) == multiset(b)
    ensures Sort(a, AsReal) == Sort(b, AsReal)
  {
    SortCorrect(b, AsReal);
    NumbersAreKeys(multiset(a));
    SortUnique(a, Sort(b, AsReal), AsReal);
  }

  lemma PaddedPermuted(keys: seq<nat>, n: nat)
    requires |keys| <= n
    ensures |Nonzero(keys)| <= n && multiset(Padded(keys, n)) == multiset(Padded(Nonzero(keys), n))
  {
    PaddedCount(keys, n, 0);
    var a: multiset<nat> := multiset(Padded(keys, n));
    var b: multiset<nat> := multiset(Padded(Nonzero(keys), n));
    forall k: nat
      ensures a[k] == b[k]
    {
      PaddedCount(keys, n, k);
    }
  }

  // Sorted, the keys other than 0 come last, in order.
  lemma SortPadded(keys: seq<nat>, n: nat)
    requires |keys| <= n
    ensures |Nonzero(keys)| <= n
    ensures Sort(Padded(keys, n), AsReal) == ZeroSeq(n - |Nonzero(keys)|) + Sort(Nonzero(keys), AsReal)
  {
    PaddedPermuted(keys, n);
    SortPermuted(Padded(keys, n), Padded(Nonzero(keys), n));
    SortWithZeros(Nonzero(keys), n - |Nonzero(keys)|);
  }

  // The array of the period, filled with the answered sequence numbers.
  method Fill(visits: seq<Visit>, n: nat) returns (a: array<nat>, validNum: nat)
    requires VisitsOk(visits, n)
    ensures fresh(a) && validNum == |ValidKeys(visits)| <= n == a.Length
    ensures a[..] == Padded(ValidKeys(visits), n)
  {
    ValidKeysOk(visits, n);
    KeysFit(ValidKeys(visits), n);
    a := new nat[n](_ => 0);
    validNum := 0;
    for i := 0 to |visits|
      invariant validNum == |ValidKeys(visits[..i])| <= n
      invariant a[..validNum] == ValidKeys(visits[..i])
      invariant forall k :: validNum <= k < n ==> a[k] == 0
    {
      assert visits[..i + 1][..i] == visits[..i];
      if visits[i].1.valid {
        PrefixFits(visits, i + 1, n);
        a[validNum] := visits[i].0;
        validNum := validNum + 1;
      }
    }
    assert visits[..|visits|] == visits;
  }

  lemma PrefixFits(visits: seq<Visit>, i: nat, n: nat)
    requires VisitsOk(visits, n) && i <= |visits|
    ensures |ValidKeys(visits[..i])| <= n
  {
    ValidKeysOk(visits[..i], n);
    KeysFit(ValidKeys(visits[..i]), n);
  }

  // Cuts the zeros off the front of a sorted array; an array of zeros only stays whole.
  method CutZeros(a: array<nat>, ghost zeros: nat, ghost positive: seq<nat>) returns (sequences: seq<nat>)
    requires a[..] == ZeroSeq(zeros) + positive && forall k :: k in positive ==> 1 <= k
    ensures sequences == if positive == [] then a[..] else positive
  {
    assert positive != [] ==> positive[0] in positive && a[..][zeros] == positive[0];
    var zeroLocation := 0;
    for i := 0 to a.Length
      invariant i <= zeros && zeroLocation == 0
    {
      assert i < zeros ==> a[..][i] == 0;
      assert a[i] == a[..][i];
      if a[i] != 0 {
        zeroLocation := i;
        break;
      }
    }
    sequences := a[zeroLocation..];
  }

  // What is returned: nothing if nothing was answered, the sorted keys without the 0; and if the 0
  // is the one key answered, as many zeros as the period has packets.
  function Collected(visits: seq<Visit>, n: nat): seq<nat> {
    var keys := ValidKeys(visits);
    if keys == [] then []
    else if Nonzero(keys) == [] then ZeroSeq(n)
    else Sort(Nonzero(keys), AsReal)
  }

  // task, from the visit of the table on.
  method Collect(visits: seq<Visit>, n: nat) returns (sequences: seq<nat>)
    requires VisitsOk(visits, n)
    ensures sequences == Collected(visits, n)
  {
    var a, validNum := Fill(visits, n);
    ghost var keys := ValidKeys(visits);
    SortMembers(Nonzero(keys), AsReal);
    if validNum == 0 {
      return [];
    }
    SortPadded(keys, n);
    SortInPlace(a);
    sequences := CutZeros(a, n - |Nonzero(keys)|, Sort(Nonzero(keys), AsReal));
  }

  lemma {:induction false} DistinctCount(s: seq<nat>, k: nat)
    requires Distinct(s)
    ensures multiset(s)[k] <= 1
  {
    if s == [] {
    } else {
      DistinctCount(s[1..], k);
      TailMultiset(s);
    }
  }

  lemma SortedDistinct(keys: seq<nat>)
    requires Distinct(keys)
    ensures var out := Sort(keys, AsReal); forall i, j :: 0 <= i < j < |out| ==> out[i] < out[j]
  {
    var out := Sort(keys, AsReal);
    SortCorrect(keys, AsReal);
    forall i, j | 0 <= i < j < |out|
      ensures out[i] < out[j]
    {
      assert AsReal(out[i]) <= AsReal(out[j]);
      DistinctCount(keys, out[i]);
      if out[i] == out[j] {
        Repeated(out, i, j);
      }
    }
  }

  lemma {:induction false} NonzeroDistinct(s: seq<nat>)
    requires Distinct(s)
    ensures Distinct(Nonzero(s))
  {
    if s == [] {
    } else {
      var front, last := s[..|s| - 1], s[|s| - 1];
      NonzeroDistinct(front);
      NonzeroMember(front, last);
      AppendDistinct(Nonzero(front), last);
    }
  }

  ghost predicate SeenAnswered(visits: seq<Visit>, k: nat) {
    exists v :: v in visits && v.0 == k && v.1.valid
  }

  ghost predicate OnlyZeroAnswered(visits: seq<Visit>) {
    SeenAnswered(visits, 0) && forall k :: SeenAnswered(visits, k) ==> k == 0
  }

  // The result is strictly increasing and holds exactly the packets seen answered, unless 0 is the
  // one key answered: then, and only then, it is not.
  lemma CollectedSequences(visits: seq<Visit>, n: nat)
    requires VisitsOk(visits, n)
    ensures var sequences := Collected(visits, n);
            && (forall i, j :: 0 <= i < j < |sequences| ==> sequences[i] < sequences[j])
            && (forall k :: k in sequences <==> k != 0 && SeenAnswered(visits, k))
            <==> !OnlyZeroAnswered(visits)
  {
    var keys := ValidKeys(visits);
    var out := Collected(visits, n);
    ValidKeysOk(visits, n);
    NonzeroDistinct(keys);
    SortedDistinct(Nonzero(keys));
    forall k
      ensures k in keys <==> SeenAnswered(visits, k)
      ensures k in Sort(Nonzero(keys), AsReal) <==> k != 0 && SeenAnswered(visits, k)
    {
      ValidKeysMember(visits, k);
      NonzeroMember(keys, k);
      SortMembers(Nonzero(keys), AsReal);
    }
    if keys == [] {
      assert !SeenAnswered(visits, 0);
    } else if Nonzero(keys) == [] {
      NonzeroMember(keys, keys[0]);
      assert keys[0] in keys;
      assert out[0] == 0;
    } else {
      var k := Nonzero(keys)[0];
      assert k in Nonzero(keys);
      NonzeroMember(keys, k);
      assert SeenAnswered(visits, k) && out == Sort(Nonzero(keys), AsReal);
    }
  }

  // ---------- the period as a whole ----------

  // The table as Range shows it: every entry once.
  ghost predicate Shows(visits: seq<Visit>, table: map<nat, Entry>) {
    && (forall v :: v in visits <==> v.0 in table && v.1 == table[v.0])
    && (forall i, j :: 0 <= i < j < |visits| ==> visits[i].0 != visits[j].0)
  }

  lemma PeriodVisits(n: nat, es: seq<Event>, visits: seq<Visit>)
    requires Legal(Init(n), es) && Shows(visits, Exec(Init(n), es).table)
    ensures VisitsOk(visits, n)
    ensures forall k :: SeenAnswered(visits, k) <==>
              k in Exec(Init(n), es).table && Exec(Init(n), es).table[k].valid
  {
    InvOnRun(Init(n), es);
    var s := Exec(Init(n), es);
    forall i | 0 <= i < |visits| && visits[i].1.valid
      ensures ValidKey(visits[i].0, n)
    {
      assert visits[i] in visits;
      assert CanArrive(s, visits[i].0);
    }
    forall k
      ensures SeenAnswered(visits, k) <==> k in s.table && s.table[k].valid
    {
      if k in s.table && s.table[k].valid {
        assert (k, s.table[k]) in visits;
      }
    }
  }

  // The returned list is strictly increasing and holds exactly the packets of which some answer was
  // stored after the sender's own entry.
  ghost predicate ListRight(n: nat, es: seq<Event>, visits: seq<Visit>)
    requires Legal(Init(n), es)
  {
    var sequences := Collected(visits, n);
    && (forall i, j :: 0 <= i < j < |sequences| ==> sequences[i] < sequences[j])
    && (forall k :: k in sequences <==> 1 <= k <= n && SomeAnswer(Init(n), es, k))
  }

  // A run of a whole period, and the table it leaves as Range shows it.
  ghost predicate WholePeriod(n: nat, es: seq<Event>, visits: seq<Visit>) {
    Legal(Init(n), es) && Exec(Init(n), es).packets == n && Shows(visits, Exec(Init(n), es).table)
  }

  // From the sender's first packet to the returned list, for every interleaving of a period of any
  // length: the list is right exactly if 0 is not the only key answered.
  lemma PeriodSequences(n: nat, es: seq<Event>, visits: seq<Visit>)
    requires WholePeriod(n, es, visits)
    ensures ListRight(n, es, visits) <==> !OnlyZeroAnswered(visits)
  {
    PeriodVisits(n, es, visits);
    CollectedSequences(visits, n);
    forall k: nat
      ensures k != 0 && SeenAnswered(visits, k) <==> 1 <= k <= n && SomeAnswer(Init(n), es, k)
    {
      SeenIsAnswered(n, es, visits, k);
    }
  }

  lemma SeenIsAnswered(n: nat, es: seq<Event>, visits: seq<Visit>, k: nat)
    requires WholePeriod(n, es, visits)
    ensures k != 0 && SeenAnswered(visits, k) <==> 1 <= k <= n && SomeAnswer(Init(n), es, k)
  {
    InvOnRun(Init(n), es);
    PeriodKeys(n, es);
    PeriodVisits(n, es, visits);
    if 1 <= k <= n {
      AnswerCountsIff(n, es, k);
    }
  }

  lemma {:induction false} ListTable(table: map<nat, Entry>) returns (visits: seq<Visit>)
    ensures Shows(visits, table)
    decreases |table|
  {
    if table == map[] {
      visits := [];
    } else {
      var k :| k in table;
      var front := ListTable(table - {k});
      visits := front + [(k, table[k])];
      forall v
        ensures v in visits <==> v.0 in table && v.1 == table[v.0]
      {
        assert v in visits <==> v in front || v == (k, table[k]);
      }
      assert forall i :: 0 <= i < |front| ==> front[i] in front;
    }
  }

  lemma OnlyZeroGivesZeros(visits: seq<Visit>, n: nat)
    requires OnlyZeroAnswered(visits)
    ensures Collected(visits, n) == ZeroSeq(n)
  {
    var keys := ValidKeys(visits);
    ValidKeysMember(visits, 0);
    assert 0 in keys;
    if Nonzero(keys) != [] {
      var k := Nonzero(keys)[0];
      assert k in Nonzero(keys);
      NonzeroMember(keys, k);
      ValidKeysMember(visits, k);
      assert SeenAnswered(visits, k);
    }
  }

  // Every period of more than 65000 packets has a run that returns nothing but zeros.
  lemma ZerosReturned(n: nat) returns (es: seq<Event>, visits: seq<Visit>)
    requires n > MAX_SEQUENCE
    ensures WholePeriod(n, es, visits) && OnlyZeroAnswered(visits)
    ensures 0 in Exec(Init(n), es).table && Collected(visits, n) == ZeroSeq(n)
  {
    es := FiledUnderZero(n);
    var table := Exec(Init(n), es).table;
    visits := ListTable(table);
    PeriodVisits(n, es, visits);
    assert SeenAnswered(visits, 0);
    OnlyZeroGivesZeros(visits, n);
  }

  // The list is right in all runs exactly for periods of up to 65000 packets.
  lemma PeriodSequencesIff(n: nat)
    ensures (forall es, visits :: WholePeriod(n, es, visits) ==> ListRight(n, es, visits)) <==> n <= MAX_SEQUENCE
  {
    if n <= MAX_SEQUENCE {
      forall es, visits | WholePeriod(n, es, visits)
        ensures ListRight(n, es, visits)
      {
        PeriodKeys(n, es);
        PeriodVisits(n, es, visits);
        PeriodSequences(n, es, visits);
      }
    } else {
      var es, visits := ZerosReturned(n);
      PeriodSequences(n, es, visits);
    }
  }
}
