/** The internet checksum of internal/probe/latency.go (section 1 of RFC 1071), and the echo request that carries it. */
module Checksum {

  type byte = b: int | 0 <= b < 0x100

  // The longest buffer whose words cannot overflow a uint32 accumulator.
  const MAX_BUFFER := 131074

  // ----- reference definitions -----

  // A big-endian 16-bit word.
  function Word(hi: nat, lo: nat): nat {
    hi * 0x100 + lo
  }

  // The big-endian 16-bit words of b added up exactly, an odd last byte padded with zero.
  function WordSum(b: seq<byte>): nat {
    if b == [] then 0
    else if |b| == 1 then Word(b[0], 0)
    else Word(b[0], b[1]) + WordSum(b[2..])
  }

  // One's-complement addition: the carry out of bit 15 is added back in.
  function EndAround(x: nat, y: nat): nat {
    if x + y > 0xffff then x + y - 0xffff else x + y
  }

  // The 16-bit one's-complement sum of RFC 1071.
  function OnesSum(b: seq<byte>): nat {
    if b == [] then 0
    else if |b| == 1 then Word(b[0], 0)
    else EndAround(Word(b[0], b[1]), OnesSum(b[2..]))
  }

  // The one's-complement residue of a number: zero stays zero, every other multiple of 0xffff is 0xffff.
  function Residue(n: nat): (r: nat)
    ensures r <= 0xffff && (r == 0 <==> n == 0)
  {
    if n == 0 then 0 else if n % 0xffff == 0 then 0xffff else n % 0xffff
  }

  // ----- the code -----

  method IcmpChecksum(b: array<byte>) returns (c: nat)
    ensures c <= 0xffff
    ensures c == 0xffff - Residue(WordSum(b[..]) % 0x1_0000_0000)
    ensures b.Length <= MAX_BUFFER ==> c == 0xffff - OnesSum(b[..])
  {
    hide Accumulated, WordSum, OnesSum, Residue;
    var sum := 0;
    var i := 0;
    ghost var all := b[..];
    AccumulateNothing(all);
    while i + 1 < b.Length
      invariant 0 <= i <= b.Length && i % 2 == 0
      invariant sum == Accumulated(all, i)
    {
      AccumulateWord(all, i);
      sum := (sum + Word(b[i], b[i + 1])) % 0x1_0000_0000;
      i := i + 2;
    }
    AccumulateEnd(all, i);
    if b.Length % 2 == 1 {
      sum := (sum + Word(b[b.Length - 1], 0)) % 0x1_0000_0000;
    }
    ghost var total := sum;
    while sum / 0x10000 != 0
      invariant 0 <= sum < 0x1_0000_0000
      invariant Residue(sum) == Residue(total)
      decreases sum
    {
      FoldStep(sum);
      sum := sum % 0x10000 + sum / 0x10000;
    }
    assert sum == Residue(total) by {
      SmallResidue(sum);
    }
    FoldedTotal(all);
    return 0xffff - sum;
  }

  // The echo request of icmpPing: header, sequence number and payload, then the checksum of it all
  // stored in its own field.
  method EchoRequest() returns (pkt: array<byte>)
    ensures fresh(pkt) && pkt.Length == 16
    ensures pkt[0] == 8 && pkt[1] == 0 && pkt[4] == pkt[5] == pkt[6] == 0 && pkt[7] == 1
    ensures pkt[8..] == [0x75, 0x63, 0x6d, 0x6f, 0x6e, 0x70, 0x69, 0x6e]
    ensures OnesSum(pkt[..]) == 0xffff
  {
    pkt := new byte[16](i => 0);
    pkt[0] := 8;
    pkt[6], pkt[7] := 0, 1;
    var payload: seq<byte> := [0x75, 0x63, 0x6d, 0x6f, 0x6e, 0x70, 0x69, 0x6e];
    for i := 0 to 8
      invariant pkt[0] == 8 && pkt[7] == 1 && forall j :: 1 <= j < 7 ==> pkt[j] == 0
      invariant forall j :: 0 <= j < i ==> pkt[8 + j] == payload[j]
    {
      pkt[8 + i] := payload[i];
    }
    var c := IcmpChecksum(pkt);
    ghost var zeroed := pkt[..];
    pkt[2], pkt[3] := c / 0x100, c % 0x100;
    assert pkt[..] == Store(zeroed, 2, c);
    StoredChecksumVerifies(zeroed, 2);
    assert pkt[8..] == payload;
  }

  // ----- the accumulator -----

  // The uint32 accumulator after the words before i.
  ghost function Accumulated(b: seq<byte>, i: nat): int
    requires i <= |b|
  {
    (WordSum(b) - WordSum(b[i..])) % 0x1_0000_0000
  }

  lemma AccumulateNothing(b: seq<byte>)
    ensures Accumulated(b, 0) == 0
  {
    assert b[0..] == b;
  }

  // Adding modulo 2^32 step by step is adding modulo 2^32 once.
  lemma Wraps(x: int, y: int)
    ensures (x % 0x1_0000_0000 + y) % 0x1_0000_0000 == (x + y) % 0x1_0000_0000
  {}

  lemma AccumulateWord(b: seq<byte>, i: nat)
    requires i + 1 < |b|
    ensures Accumulated(b, i + 2) == (Accumulated(b, i) + Word(b[i], b[i + 1])) % 0x1_0000_0000
  {
    assert b[i..][2..] == b[i + 2..];
    Wraps(WordSum(b) - WordSum(b[i..]), Word(b[i], b[i + 1]));
  }

  lemma AccumulateEnd(b: seq<byte>, i: nat)
    requires i <= |b| <= i + 1
    ensures WordSum(b) % 0x1_0000_0000 ==
            if i == |b| then Accumulated(b, i) else (Accumulated(b, i) + Word(b[i], 0)) % 0x1_0000_0000
  {
    if i < |b| {
      assert b[i..] == [b[i]];
      Wraps(WordSum(b) - WordSum(b[i..]), Word(b[i], 0));
    }
  }

  lemma {:induction false} WordSumBound(b: seq<byte>)
    ensures WordSum(b) <= |b| / 2 * 0xffff + |b| % 2 * 0xff00
  {
    if |b| >= 2 {
      WordSumBound(b[2..]);
    }
  }

  lemma NoOverflow(b: seq<byte>)
    requires |b| <= MAX_BUFFER
    ensures WordSum(b) < 0x1_0000_0000
  {
    WordSumBound(b);
  }

  lemma {:induction false} AllOnes(n: nat)
    ensures WordSum(seq(n, i => 0xff)) == n / 2 * 0xffff + n % 2 * 0xff00
  {
    var b: seq<byte> := seq(n, i => 0xff);
    if n >= 2 {
      AllOnes(n - 2);
      assert b[2..] == seq(n - 2, i => 0xff);
    }
  }

  // The exact length up to which no buffer can overflow the accumulator.
  lemma OverflowFreeIff(n: nat)
    ensures (forall b: seq<byte> :: |b| == n ==> WordSum(b) < 0x1_0000_0000) <==> n <= MAX_BUFFER
  {
    forall b: seq<byte> | |b| == n && n <= MAX_BUFFER ensures WordSum(b) < 0x1_0000_0000 {
      NoOverflow(b);
    }
    AllOnes(n);
    var ones: seq<byte> := seq(n, i => 0xff);
    assert |ones| == n;
  }

  // ----- folding -----

  // Adding the high half to the low half keeps the residue.
  lemma FoldStep(sum: nat)
    requires sum / 0x10000 != 0
    ensures sum % 0x10000 + sum / 0x10000 < sum
    ensures Residue(sum % 0x10000 + sum / 0x10000) == Residue(sum)
  {
    var q, r := sum / 0x10000, sum % 0x10000;
    assert sum == q * 0xffff + (q + r);
    ModPlusMultiple(q + r, q);
  }

  lemma SmallResidue(n: nat)
    requires n <= 0xffff
    ensures Residue(n) == n
  {}

  lemma ModPlusMultiple(n: nat, q: nat)
    ensures (n + q * 0xffff) % 0xffff == n % 0xffff
  {}

  lemma ResidueAdd(x: nat, y: nat)
    requires x <= 0xffff
    ensures EndAround(x, Residue(y)) == Residue(x + y)
  {
    var q := y / 0xffff;
    assert y == y % 0xffff + q * 0xffff;
    ModPlusMultiple(x + y % 0xffff, q);
  }

  // The folded accumulator is the one's-complement sum.
  lemma {:induction false} ResidueIsOnesSum(b: seq<byte>)
    ensures OnesSum(b) == Residue(WordSum(b))
  {
    if |b| >= 2 {
      ResidueIsOnesSum(b[2..]);
      ResidueAdd(Word(b[0], b[1]), WordSum(b[2..]));
    }
  }

  lemma FoldedTotal(b: seq<byte>)
    ensures |b| <= MAX_BUFFER ==> Residue(WordSum(b) % 0x1_0000_0000) == OnesSum(b)
  {
    ResidueIsOnesSum(b);
    if |b| <= MAX_BUFFER {
      NoOverflow(b);
    }
  }

  // ----- verification by the receiver -----

  lemma {:induction false} StoreWord(b: seq<byte>, off: nat, hi: byte, lo: byte)
    requires off % 2 == 0 && off + 1 < |b| && b[off] == b[off + 1] == 0
    ensures WordSum(b[off := hi][off + 1 := lo]) == WordSum(b) + hi * 0x100 + lo
  {
    var stored := b[off := hi][off + 1 := lo];
    if off == 0 {
      assert stored[2..] == b[2..];
    } else {
      StoreWord(b[2..], off - 2, hi, lo);
      assert stored[2..] == b[2..][off - 2 := hi][off - 1 := lo];
    }
  }

  function Store(b: seq<byte>, off: nat, c: nat): (stored: seq<byte>)
    requires off + 1 < |b| && c <= 0xffff
    ensures |stored| == |b|
  {
    var hi: byte, lo: byte := c / 0x100, c % 0x100;
    b[off := hi][off + 1 := lo]
  }

  // Storing the checksum of a buffer big-endian in a zeroed field at an even offset makes the
  // checksum of the buffer zero.
  lemma StoredChecksumVerifies(b: seq<byte>, off: nat)
    requires off % 2 == 0 && off + 1 < |b| && b[off] == b[off + 1] == 0
    ensures OnesSum(b) <= 0xffff
    ensures 0xffff - OnesSum(Store(b, off, 0xffff - OnesSum(b))) == 0
  {
    ResidueIsOnesSum(b);
    var c := 0xffff - OnesSum(b);
    var stored := Store(b, off, c);
    StoreWord(b, off, c / 0x100, c % 0x100);
    ResidueIsOnesSum(stored);
    ComplementCancels(WordSum(b));
  }

  lemma ComplementCancels(s: nat)
    ensures Residue(s + (0xffff - Residue(s))) == 0xffff
  {
    var q := s / 0xffff;
    assert s == s % 0xffff + q * 0xffff;
    ModPlusMultiple(s % 0xffff + (0xffff - Residue(s)), q);
  }
}
