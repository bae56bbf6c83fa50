/** The echo message and its checksum (protocol/icmp.go): when the 32-bit sum with a single
    fold agrees with the Internet checksum of RFC 1071, section 1, and when the receiver's
    check of RFC 792 passes. */
module Checksum {

  type Byte = x: int | 0 <= x < 256

  const UINT32: nat := 0x1_0000_0000

  // ---------- the standard ----------

  function Word(high: Byte, low: Byte): nat {
    var h: int := high;
    h * 256 + low
  }

  // Sum of the big-endian 16-bit words of an even number of bytes.
  function WordSum(d: seq<Byte>): nat
    requires |d| % 2 == 0
  {
    if d == [] then 0 else WordSum(d[..|d| - 2]) + Word(d[|d| - 2], d[|d| - 1])
  }

  function EvenPart(d: seq<Byte>): seq<Byte> {
    d[..|d| - |d| % 2]
  }

  // An odd last byte is padded on the right: it is the high half of its word.
  function PaddedSum(d: seq<Byte>): nat {
    WordSum(EvenPart(d)) + if |d| % 2 == 0 then 0 else Word(d[|d| - 1], 0)
  }

  // One's-complement addition folds carries until none is left.
  function Fold(x: nat): (r: nat)
    ensures r <= 0xFFFF
  {
    if x < 0x1_0000 then x else Fold(x / 0x1_0000 + x % 0x1_0000)
  }

  function InternetChecksum(d: seq<Byte>): nat {
    0xFFFF - Fold(PaddedSum(d))
  }

  // The receiver's test: the one's-complement sum of the whole message is all ones.
  predicate Verifies(d: seq<Byte>) {
    Fold(PaddedSum(d)) == 0xFFFF
  }

  // ---------- the code ----------

  // The code adds an odd last byte unshifted.
  function CodeSum(d: seq<Byte>): nat {
    WordSum(EvenPart(d)) + if |d| % 2 == 0 then 0 else d[|d| - 1]
  }

  // What the code returns from its 32-bit accumulator: one fold, complement, truncate.
  function FromAccumulator(sum: nat): nat {
    0xFFFF - ((sum + sum / 0x1_0000) % UINT32) % 0x1_0000
  }

  function CodeChecksum(d: seq<Byte>): nat {
    FromAccumulator(CodeSum(d) % UINT32)
  }

  lemma AddMod(a: nat, b: nat)
    ensures (a % UINT32 + b) % UINT32 == (a + b) % UINT32
  {
    var q := a / UINT32;
    assert a + b == q * UINT32 + (a % UINT32 + b);
    AddMultiple(q, a % UINT32 + b);
  }

  lemma AddMultiple(q: nat, r: nat)
    ensures (q * UINT32 + r) % UINT32 == r % UINT32
  {
    var k := r / UINT32;
    assert q * UINT32 + r == (q + k) * UINT32 + r % UINT32;
  }

  lemma WordSumStep(d: seq<Byte>, i: nat)
    requires i + 2 <= |d| && i % 2 == 0
    ensures WordSum(d[..i + 2]) == WordSum(d[..i]) + Word(d[i], d[i + 1])
  {
    assert d[..i + 2][..i] == d[..i];
  }

  lemma AccumulatorStep(d: seq<Byte>, i: nat)
    requires i + 2 <= |d| && i % 2 == 0
    ensures (WordSum(d[..i]) % UINT32 + Word(d[i], d[i + 1])) % UINT32 == WordSum(d[..i + 2]) % UINT32
  {
    WordSumStep(d, i);
    AddMod(WordSum(d[..i]), Word(d[i], d[i + 1]));
  }

  lemma EvenPartIs(d: seq<Byte>, i: nat)
    requires i % 2 == 0 && i <= |d| < i + 2
    ensures EvenPart(d) == d[..i]
  {
  }

  // The accumulator after the loop, with the odd byte added if there is one.
  lemma LastByte(d: seq<Byte>, i: nat)
    requires i % 2 == 0 && i <= |d| < i + 2
    ensures i == |d| ==> CodeSum(d) % UINT32 == WordSum(d[..i]) % UINT32
    ensures i < |d| ==> CodeSum(d) % UINT32 == (WordSum(d[..i]) % UINT32 + d[i]) % UINT32
  {
    EvenPartIs(d, i);
    if i < |d| {
      AddMod(WordSum(EvenPart(d)), d[i]);
    }
  }

  method CheckSum(data: array<Byte>) returns (check: nat)
    ensures check == CodeChecksum(data[..])
  {
    ghost var d := data[..];
    var sum, index, length := 0, 0, data.Length;
    while length > 1
      invariant 0 <= length && index + length == data.Length && index % 2 == 0
      invariant sum == WordSum(d[..index]) % UINT32
    {
      AccumulatorStep(d, index);
      sum := (sum + Word(data[index], data[index + 1])) % UINT32;
      index := index + 2;
      length := length - 2;
    }
    LastByte(d, index);
    if length > 0 {
      sum := (sum + data[index]) % UINT32;
    }
    check := FromAccumulator(sum);
  }

  // ---------- agreement ----------

  // The two halves of the word sum do not carry past 16 bits when added.
  predicate OneFoldSuffices(d: seq<Byte>) {
    CodeSum(d) % 0x1_0000 + CodeSum(d) / 0x1_0000 < 0x1_0000
  }

  predicate LastByteAligned(d: seq<Byte>) {
    |d| % 2 == 0 || d[|d| - 1] == 0
  }

  lemma {:induction false} WordSumBound(d: seq<Byte>)
    requires |d| % 2 == 0
    ensures WordSum(d) <= |d| / 2 * 0xFFFF
  {
    if d == [] {
    } else {
      WordSumBound(d[..|d| - 2]);
      assert |d| / 2 == (|d| - 2) / 2 + 1;
    }
  }

  // Up to 131072 bytes the accumulator never wraps, not even in the fold.
  lemma NoOverflow(d: seq<Byte>)
    requires |d| <= 131072
    ensures CodeSum(d) < UINT32 && CodeSum(d) + CodeSum(d) / 0x1_0000 < UINT32
  {
    WordSumBound(EvenPart(d));
    if |d| % 2 == 1 {
      assert |EvenPart(d)| / 2 <= 65535;
    }
  }

  // Folding to the end is reduction modulo 65535, with 65535 in place of 0 for non-zero sums.
  lemma {:induction false} FoldIsMod(x: nat)
    ensures Fold(x) == if x == 0 then 0 else (x - 1) % 0xFFFF + 1
  {
    if x >= 0x1_0000 {
      var q := x / 0x1_0000;
      var y := q + x % 0x1_0000;
      FoldIsMod(y);
      assert x - 1 == q * 0xFFFF + (y - 1);
      ShiftMod(q, y - 1);
    }
  }

  lemma ShiftMod(q: nat, r: nat)
    ensures (q * 0xFFFF + r) % 0xFFFF == r % 0xFFFF
  {
    var k := r / 0xFFFF;
    assert q * 0xFFFF + r == (q + k) * 0xFFFF + r % 0xFFFF;
  }

  // The two halves of a sum, added.
  function Halves(s: nat): nat {
    s % 0x1_0000 + s / 0x1_0000
  }

  lemma RemainderIs(q: nat, r: nat)
    requires r < 0x1_0000
    ensures (q * 0x1_0000 + r) % 0x1_0000 == r
  {
  }

  // The code's single fold of s, in terms of its halves.
  lemma SingleFold(s: nat)
    requires s + s / 0x1_0000 < UINT32
    ensures Halves(s) == s - s / 0x1_0000 * 0xFFFF
    ensures 0xFFFF - FromAccumulator(s) == if Halves(s) < 0x1_0000 then Halves(s) else Halves(s) - 0x1_0000
  {
    var h, y := s / 0x1_0000, Halves(s);
    assert s + h == h * 0x1_0000 + y;
    if y < 0x1_0000 {
      RemainderIs(h, y);
    } else {
      assert s + h == (h + 1) * 0x1_0000 + (y - 0x1_0000);
      RemainderIs(h + 1, y - 0x1_0000);
    }
  }

  // What shifting the odd last byte would have added.
  function Unshifted(d: seq<Byte>): nat {
    if |d| % 2 == 0 then 0 else
    var b: int := d[|d| - 1];
    255 * b
  }

  lemma UnshiftedIs(d: seq<Byte>)
    ensures PaddedSum(d) == CodeSum(d) + Unshifted(d)
    ensures Unshifted(d) <= 65025 && (Unshifted(d) == 0 <==> LastByteAligned(d))
  {
  }

  lemma Fits(s: nat)
    requires s < UINT32
    ensures s % UINT32 == s
  {
  }

  lemma Sums(d: seq<Byte>)
    requires |d| <= 131072
    ensures PaddedSum(d) == CodeSum(d) + Unshifted(d)
    ensures CodeSum(d) + CodeSum(d) / 0x1_0000 < UINT32 && CodeChecksum(d) == FromAccumulator(CodeSum(d))
    ensures Unshifted(d) <= 65025 && (Unshifted(d) == 0 <==> LastByteAligned(d))
    ensures OneFoldSuffices(d) <==> Halves(CodeSum(d)) < 0x1_0000
  {
    NoOverflow(d);
    Fits(CodeSum(d));
    UnshiftedIs(d);
  }

  lemma FoldCongruent(x: nat) returns (m: int)
    ensures x - Fold(x) == m * 0xFFFF && 0 <= Fold(x) <= 0xFFFF && (Fold(x) == 0 <==> x == 0)
  {
    FoldIsMod(x);
    m := if x == 0 then 0 else (x - 1) / 0xFFFF;
  }

  // The carries a message loses, to the 32-bit wrap and to the single fold, and what an odd last
  // byte would have added in its place.
  function Lost(d: seq<Byte>): nat {
    CodeSum(d) / UINT32 + Halves(CodeSum(d) % UINT32) / 0x1_0000 + Unshifted(d)
  }

  // The accumulator may wrap in the fold: the low half does not notice.
  lemma AnySingleFold(s: nat)
    requires s < UINT32
    ensures 0 <= 0xFFFF - FromAccumulator(s) == Halves(s) % 0x1_0000 <= 0xFFFF
    ensures s == 0 ==> FromAccumulator(s) == 0xFFFF
  {
    var h, l := s / 0x1_0000, s % 0x1_0000;
    assert s + h == h * 0x1_0000 + (h + l);
    LowHalf(s + h);
    LowOf(h, h + l);
  }

  lemma LowHalf(x: nat)
    ensures (x % UINT32) % 0x1_0000 == x % 0x1_0000
  {
    var q := x / UINT32;
    assert x == (q * 0x1_0000) * 0x1_0000 + x % UINT32;
    LowOf(q * 0x1_0000, x % UINT32);
  }

  lemma LowOf(q: nat, r: nat)
    ensures (q * 0x1_0000 + r) % 0x1_0000 == r % 0x1_0000
  {
    assert q * 0x1_0000 + r == (q + r / 0x1_0000) * 0x1_0000 + r % 0x1_0000;
  }

  // The padded sum, the code's result and what is lost, modulo 65535.
  lemma LostModulo(d: seq<Byte>) returns (m: int)
    ensures PaddedSum(d) - (0xFFFF - CodeChecksum(d)) == m * 0xFFFF + Lost(d)
    ensures 0 <= 0xFFFF - CodeChecksum(d) == Halves(CodeSum(d) % UINT32) % 0x1_0000 <= 0xFFFF
    ensures PaddedSum(d) == 0 ==> CodeChecksum(d) == 0xFFFF
  {
    UnshiftedIs(d);
    m := CarriesModulo(CodeSum(d));
    AnySingleFold(CodeSum(d) % UINT32);
  }

  // A wrap and a carry each take one off the residue modulo 65535.
  lemma CarriesModulo(c: nat) returns (m: int)
    ensures c == 0 ==> c % UINT32 == 0
    ensures var y := Halves(c % UINT32); c - y % 0x1_0000 == m * 0xFFFF + c / UINT32 + y / 0x1_0000
  {
    var k, a := c / UINT32, c % UINT32;
    var h, y := a / 0x1_0000, Halves(a);
    var q, r := y / 0x1_0000, y % 0x1_0000;
    assert c == k * UINT32 + a;
    assert a == h * 0x1_0000 + (y - h);
    assert y == q * 0x1_0000 + r;
    m := k * 0x1_0001 + h + q;
  }

  lemma ResidueIff(p: nat, f: nat, g: nat, lost: nat, m: int, n: int)
    requires p - f == n * 0xFFFF && p - g == m * 0xFFFF + lost
    requires f <= 0xFFFF && g <= 0xFFFF && (f == 0 <==> p == 0)
    requires p == 0 ==> g == 0
    ensures f == g <==> lost % 0xFFFF == 0 && (g == 0 ==> p == 0)
  {
    assert f - g == (m - n) * 0xFFFF + lost;
    if f == g {
      assert lost == (n - m) * 0xFFFF;
    } else if lost % 0xFFFF == 0 {
      assert f - g == (m - n + lost / 0xFFFF) * 0xFFFF;
    }
  }

  // For a message of any length, with the wrap: the checksum is the Internet checksum exactly when
  // what is lost is a multiple of 65535, unless the fold comes to 0 for a sum that does not.
  lemma ChecksumAgreesAtAnyLength(d: seq<Byte>)
    ensures CodeChecksum(d) == InternetChecksum(d)
            <==> Lost(d) % 0xFFFF == 0 && (Halves(CodeSum(d) % UINT32) % 0x1_0000 == 0 ==> PaddedSum(d) == 0)
  {
    var p := PaddedSum(d);
    var n := FoldCongruent(p);
    var m := LostModulo(d);
    ResidueIff(p, Fold(p), 0xFFFF - CodeChecksum(d), Lost(d), m, n);
  }

  // Up to 131072 bytes too little is lost to make up a multiple of 65535.
  lemma LittleLost(d: seq<Byte>)
    requires |d| <= 131072
    ensures Lost(d) % 0xFFFF == 0 <==> OneFoldSuffices(d) && LastByteAligned(d)
    ensures Lost(d) % 0xFFFF == 0 && Halves(CodeSum(d) % UINT32) % 0x1_0000 == 0 ==> PaddedSum(d) == 0
  {
    Sums(d);
    Fits(CodeSum(d));
    SmallLost(CodeSum(d), Unshifted(d));
  }

  lemma SmallLost(s: nat, u: nat)
    requires s < UINT32 && u <= 65025
    ensures var lost := s / UINT32 + Halves(s) / 0x1_0000 + u;
            && (lost % 0xFFFF == 0 <==> Halves(s) < 0x1_0000 && u == 0)
            && (lost % 0xFFFF == 0 && Halves(s) % 0x1_0000 == 0 ==> s == 0)
  {
    assert s / UINT32 == 0 && 0 <= Halves(s) < 0x2_0000;
    assert Halves(s) == 0 ==> s == 0;
  }

  // For every message of at most 131072 bytes, of either parity: the code computes the Internet
  // checksum exactly when one fold suffices and there is no non-zero odd last byte.
  lemma ChecksumAgreesIff(d: seq<Byte>)
    requires |d| <= 131072
    ensures CodeChecksum(d) == InternetChecksum(d) <==> OneFoldSuffices(d) && LastByteAligned(d)
  {
    ChecksumAgreesAtAnyLength(d);
    LittleLost(d);
  }

  // On an even number of bytes the only possible error is one lost carry.
  lemma OffByOneCarry(d: seq<Byte>)
    requires |d| <= 131072 && |d| % 2 == 0 && !OneFoldSuffices(d)
    ensures CodeChecksum(d) == InternetChecksum(d) + 1
  {
    Sums(d);
    SingleFold(CodeSum(d));
    FoldLostCarry(CodeSum(d));
  }

  lemma FoldLostCarry(s: nat)
    requires s + s / 0x1_0000 < UINT32 && Halves(s) >= 0x1_0000
    ensures Fold(s) == Halves(s) - 0xFFFF
  {
    var y := Halves(s);
    assert y / 0x1_0000 == 1;
    assert Fold(s) == Fold(y) == Fold(y / 0x1_0000 + y % 0x1_0000);
  }

  // Three words whose halves carry: the code is off by one.
  lemma LostCarryExample()
    ensures CodeChecksum([0xFF, 0xFF, 0xFF, 0xFF, 0, 1]) != InternetChecksum([0xFF, 0xFF, 0xFF, 0xFF, 0, 1])
  {
    var d: seq<Byte> := [0xFF, 0xFF, 0xFF, 0xFF, 0, 1];
    assert EvenPart(d) == d;
    assert d[..4] == [0xFF, 0xFF, 0xFF, 0xFF] && d[..4][..2] == [0xFF, 0xFF] && d[..2][..0] == [];
    assert WordSum(d[..2]) == 0xFFFF;
    assert WordSum(d[..4]) == 0x1_FFFE;
    assert WordSum(d) == 0x1_FFFF;
    ChecksumAgreesIff(d);
  }

  // ---------- the receiver's check ----------

  function Stamp(d: seq<Byte>, check: nat): seq<Byte>
    requires |d| >= 4 && check < 0x1_0000
  {
    d[2 := check / 256][3 := check % 256]
  }

  lemma {:induction false} StampWordSum(d: seq<Byte>, check: nat)
    requires |d| >= 4 && |d| % 2 == 0 && check < 0x1_0000 && d[2] == d[3] == 0
    ensures WordSum(Stamp(d, check)) == WordSum(d) + check
  {
    var front, s := d[..|d| - 2], Stamp(d, check);
    if |d| == 4 {
      assert s[..2] == d[..2];
    } else {
      assert s[..|d| - 2] == Stamp(front, check);
      StampWordSum(front, check);
    }
  }

  lemma StampSum(d: seq<Byte>, check: nat)
    requires |d| >= 4 && check < 0x1_0000 && d[2] == d[3] == 0
    ensures PaddedSum(Stamp(d, check)) == PaddedSum(d) + check
  {
    assert EvenPart(Stamp(d, check)) == Stamp(EvenPart(d), check);
    StampWordSum(EvenPart(d), check);
  }

  // The message of any length with the code's checksum in bytes 2 and 3 passes the receiver's check
  // exactly when what is lost is a multiple of 65535.
  lemma StampedVerifiesAtAnyLength(d: seq<Byte>)
    requires |d| >= 4 && d[2] == d[3] == 0
    ensures Verifies(Stamp(d, CodeChecksum(d))) <==> Lost(d) % 0xFFFF == 0
  {
    var x := PaddedSum(d) + CodeChecksum(d);
    StampSum(d, CodeChecksum(d));
    var m := LostModulo(d);
    var n := FoldCongruent(x);
    ResidueIff(x, Fold(x), 0xFFFF, Lost(d), m, n);
  }

  // Up to 131072 bytes: exactly when one fold sufficed and there is no non-zero odd last byte.
  lemma StampedVerifiesIff(d: seq<Byte>)
    requires 4 <= |d| <= 131072 && d[2] == d[3] == 0
    ensures Verifies(Stamp(d, CodeChecksum(d))) <==> OneFoldSuffices(d) && LastByteAligned(d)
  {
    StampedVerifiesAtAnyLength(d);
    LittleLost(d);
  }
}
