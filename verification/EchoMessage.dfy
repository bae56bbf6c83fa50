/** Building an echo request in place and reading its identifier and sequence number back
    (protocol/icmp.go). */
module EchoMessage {
  import opened Checksum

  // Sequence numbers above this are all sent as zero.
  const MAX_SEQUENCE: nat := 65000

  const HEADER: nat := 28

  function GenIdentifier(id: nat): (Byte, Byte) {
    ((id / 256) % 256, id % 256)
  }

  function GenSequence(v: nat): (Byte, Byte) {
    if v > MAX_SEQUENCE then (0, 0) else ((v / 256) % 256, v % 256)
  }

  function GetSeq(seq1: Byte, seq2: Byte): nat {
    Word(seq1, seq2)
  }

  // getSeq inverts genSequence on exactly the numbers up to 65000.
  lemma SequenceRoundTripIff(v: nat)
    ensures GetSeq(GenSequence(v).0, GenSequence(v).1) == v <==> v <= MAX_SEQUENCE
  {
    if v <= MAX_SEQUENCE {
      assert v / 256 < 256;
    }
  }

  lemma SequenceRoundTripBack(seq1: Byte, seq2: Byte)
    ensures GenSequence(GetSeq(seq1, seq2)) == (seq1, seq2) <==> GetSeq(seq1, seq2) <= MAX_SEQUENCE
  {
    var h: int := seq1;
    assert (h * 256 + seq2) / 256 == h;
  }

  // Type 8, code 0, a zero checksum, identifier, sequence number, then zeros.
  function HeaderByte(id: nat, seqNo: nat, k: int): Byte {
    if k == 0 then 8
    else if k == 4 then GenIdentifier(id).0
    else if k == 5 then GenIdentifier(id).1
    else if k == 6 then GenSequence(seqNo).0
    else if k == 7 then GenSequence(seqNo).1
    else 0
  }

  // The message before its checksum.
  function Blank(id: nat, seqNo: nat, fill: seq<Byte>): seq<Byte> {
    seq(HEADER, k => HeaderByte(id, seqNo, k)) + fill
  }

  // fillRandData: the filler goes from index 28 to the end.
  method FillRandData(msg: array<Byte>, fill: seq<Byte>)
    requires msg.Length == HEADER + |fill|
    modifies msg
    ensures msg[..] == old(msg[..HEADER]) + fill
  {
    for i := HEADER to msg.Length
      invariant msg[..HEADER] == old(msg[..HEADER])
      invariant forall k :: HEADER <= k < i ==> msg[k] == fill[k - HEADER]
    {
      msg[i] := fill[i - HEADER];
    }
    assert msg[HEADER..] == fill;
    assert msg[..] == msg[..HEADER] + msg[HEADER..];
  }

  method FillHeader(msg: array<Byte>, id: nat, seqNo: nat)
    requires msg.Length >= HEADER && forall k :: 0 <= k < msg.Length ==> msg[k] == 0
    modifies msg
    ensures forall k :: 0 <= k < HEADER ==> msg[k] == HeaderByte(id, seqNo, k)
  {
    msg[0], msg[1], msg[2], msg[3] := 8, 0, 0, 0;
    msg[4], msg[5] := GenIdentifier(id).0, GenIdentifier(id).1;
    msg[6], msg[7] := GenSequence(seqNo).0, GenSequence(seqNo).1;
  }

  // icmp: zeroed buffer, header bytes, filler, then the checksum stamp.
  method BuildEcho(size: nat, id: nat, seqNo: nat, fill: seq<Byte>) returns (msg: array<Byte>)
    requires size >= HEADER && |fill| == size - HEADER
    ensures fresh(msg) && msg[..] == Stamp(Blank(id, seqNo, fill), CodeChecksum(Blank(id, seqNo, fill)))
  {
    msg := new Byte[size](_ => 0);
    FillHeader(msg, id, seqNo);
    FillRandData(msg, fill);
    assert msg[..] == Blank(id, seqNo, fill);
    var check := CheckSum(msg);
    msg[2] := check / 256;
    msg[3] := check % 256;
  }

  lemma IdentifierRoundTrip(id: nat)
    requires id < 0x1_0000
    ensures Word(GenIdentifier(id).0, GenIdentifier(id).1) == id
  {
    assert id / 256 < 256;
  }

  // What the receiver reads from the echoed bytes, and when the message checks.
  lemma EchoReadsBack(id: nat, seqNo: nat, fill: seq<Byte>)
    requires id < 0x1_0000 && HEADER + |fill| <= 131072
    ensures var msg := Stamp(Blank(id, seqNo, fill), CodeChecksum(Blank(id, seqNo, fill)));
            && msg[0] == 8 && msg[1] == 0
            && Word(msg[4], msg[5]) == id && msg[HEADER..] == fill
            && (GetSeq(msg[6], msg[7]) == seqNo <==> seqNo <= MAX_SEQUENCE)
            && (Verifies(msg) <==> OneFoldSuffices(Blank(id, seqNo, fill)) && LastByteAligned(Blank(id, seqNo, fill)))
  {
    IdentifierRoundTrip(id);
    SequenceRoundTripIff(seqNo);
    var blank := Blank(id, seqNo, fill);
    StampedVerifiesIff(blank);
    var msg := Stamp(blank, CodeChecksum(blank));
    assert forall k :: 4 <= k < 8 ==> msg[k] == blank[k] == HeaderByte(id, seqNo, k);
  }
}
