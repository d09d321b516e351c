/** The Internet checksums of shared/net/checksums.c (RFC 1071; the pseudo-header of
    RFC 768), over bytes. */
module Checksum {
  import opened Division
  import opened MachineTypes

  function Be16(v: U16): (r: seq<U8>) ensures |r| == 2 { [v / 0x100, v % 0x100] }
  function Le16(v: U16): (r: seq<U8>) ensures |r| == 2 { [v % 0x100, v / 0x100] }
  function Be32(v: U32): (r: seq<U8>) ensures |r| == 4 { Be16(v / 0x1_0000) + Be16(v % 0x1_0000) }

  function Word(high: U8, low: U8): U16 { 0x100 * (high as int) + low }

  /** The 16-bit words of an even number of bytes, added up in little-endian order. */
  function SumLe(b: seq<U8>): nat
    requires |b| % 2 == 0
  {
    if b == [] then 0 else SumLe(b[..|b| - 2]) + Word(b[|b| - 1], b[|b| - 2])
  }

  /** ... in network order, an odd last byte padded with zero. */
  function SumBe(b: seq<U8>): nat {
    if b == [] then 0
    else if |b| % 2 == 1 then SumBe(b[..|b| - 1]) + Word(b[|b| - 1], 0)
    else SumBe(b[..|b| - 2]) + Word(b[|b| - 2], b[|b| - 1])
  }

  /** `while (sum >> 16) sum = (sum & 0xFFFF) + (sum >> 16)`. */
  function Fold(sum: nat): (r: U16)
    decreases sum
  {
    if sum < 0x1_0000 then sum else Fold(sum % 0x1_0000 + sum / 0x1_0000)
  }

  /** Folding is one's-complement reduction: it keeps the residue modulo 65535, and
      gives 0 for 0 only. */
  lemma {:induction false} FoldResidue(sum: nat)
    ensures Fold(sum) % 0xFFFF == sum % 0xFFFF
    ensures Fold(sum) == 0 <==> sum == 0
    decreases sum
  {
    if sum >= 0x1_0000 {
      FoldResidue(sum % 0x1_0000 + sum / 0x1_0000);
      CarryResidue(sum % 0x1_0000, sum / 0x1_0000);
    }
  }

  lemma CarryResidue(low: nat, high: nat)
    ensures (low + 0x1_0000 * high) % 0xFFFF == (low + high) % 0xFFFF
  {
    Shift(low + high, high);
  }

  lemma FoldsToOnes(sum: nat)
    ensures Fold(sum) == 0xFFFF <==> sum > 0 && sum % 0xFFFF == 0
  {
    FoldResidue(sum);
  }

  // --- Byte order independence (section 2(B) of RFC 1071) ---

  /** Swapping the bytes of every word multiplies the sum by 256 modulo 65535. */
  lemma {:induction false} SwappedSum(b: seq<U8>)
    requires |b| % 2 == 0
    ensures SumBe(b) % 0xFFFF == 0x100 * SumLe(b) % 0xFFFF
    ensures SumBe(b) == 0 <==> SumLe(b) == 0
  {
    if b != [] {
      var front, b0, b1 := b[..|b| - 2], b[|b| - 2], b[|b| - 1];
      var be, le, high, low := SumBe(front), SumLe(front), Word(b0, b1), Word(b1, b0);
      assert SumBe(b) == be + high && SumLe(b) == le + low;
      SwappedSum(front);
      SwapStep(be, le, b0, b1);
      hide *;
    }
  }

  lemma SwapStep(be: nat, le: nat, b0: U8, b1: U8)
    requires be % 0xFFFF == 0x100 * le % 0xFFFF
    ensures (be + Word(b0, b1)) % 0xFFFF == 0x100 * (le + Word(b1, b0)) % 0xFFFF
    ensures Word(b0, b1) == 0 <==> Word(b1, b0) == 0
  {
    var q := be / 0xFFFF - 0x100 * le / 0xFFFF;
    assert be - 0x100 * le == 0xFFFF * q;
    assert 0x100 * (le + Word(b1, b0)) == be + Word(b0, b1) + 0xFFFF * (b1 - q);
    Shift(be + Word(b0, b1), b1 - q);
    hide *;
  }

  lemma Shift(a: int, q: int)
    ensures (a + 0xFFFF * q) % 0xFFFF == a % 0xFFFF
  {
    DivModIs(a + 0xFFFF * q, 0xFFFF, a / 0xFFFF + q, a % 0xFFFF);
  }

  /** So a sum is a multiple of 65535 in one byte order exactly if it is in the other. */
  lemma OrderIndependent(b: seq<U8>)
    requires |b| % 2 == 0
    ensures SumBe(b) % 0xFFFF == 0 <==> SumLe(b) % 0xFFFF == 0
  {
    hide *;
    SwappedSum(b);
    ShiftedMultiple(SumLe(b));
  }

  /** 256 has an inverse modulo 65535. */
  lemma ShiftedMultiple(s: nat)
    ensures 0x100 * s % 0xFFFF == 0 <==> s % 0xFFFF == 0
  {
    if 0x100 * s % 0xFFFF == 0 {
      DivModIs(s, 0xFFFF, 0x100 * (0x100 * s / 0xFFFF) - s, 0);
    } else if s % 0xFFFF == 0 {
      DivModIs(0x100 * s, 0xFFFF, 0x100 * (s / 0xFFFF), 0);
    }
  }

  lemma {:induction false} SumLeConcat(a: seq<U8>, b: seq<U8>)
    requires |a| % 2 == 0 && |b| % 2 == 0
    ensures SumLe(a + b) == SumLe(a) + SumLe(b)
  {
    if b == [] {
      assert a + b == a;
    } else {
      SumLeConcat(a, b[..|b| - 2]);
      assert (a + b)[..|a + b| - 2] == a + b[..|b| - 2];
    }
  }

  lemma SumBeSnoc(b: seq<U8>, tail: seq<U8>)
    requires |b| % 2 == 0 && 1 <= |tail| <= 2
    ensures SumBe(b + tail) == SumBe(b) + Word(tail[0], if |tail| == 2 then tail[1] else 0)
  {
    var all := b + tail;
    assert all[..|b|] == b && all[|b|] == tail[0];
    hide Word;
    if |tail| == 2 {
      assert all[|b| + 1] == tail[1] && |all| % 2 == 0;
      assert SumBe(all) == SumBe(all[..|b|]) + Word(all[|b|], all[|b| + 1]);
    } else {
      assert |all| % 2 == 1;
      assert SumBe(all) == SumBe(all[..|b|]) + Word(all[|b|], 0);
    }
  }

  lemma {:induction false} SumBeConcat(a: seq<U8>, b: seq<U8>)
    requires |a| % 2 == 0
    ensures SumBe(a + b) == SumBe(a) + SumBe(b)
    decreases |b|
  {
    hide SumBe, Word;
    if b == [] {
      assert a + b == a;
      SumBeEmpty(b);
      assert b[..0] == b;
    } else {
      var n := if |b| % 2 == 1 then |b| - 1 else |b| - 2;
      var front, tail := b[..n], b[n..];
      SumBeConcat(a, front);
      SumBeSnoc(front, tail);
      SumBeSnoc(a + front, tail);
      assert front + tail == b && a + front + tail == a + b;
    }
  }

  lemma WordSums(v: U16)
    ensures SumLe(Le16(v)) == v && SumBe(Be16(v)) == v
  {
    assert Le16(v)[..0] == [] && Be16(v)[..0] == [];
  }

  // --- The checksum loops ---

  lemma {:induction false} SumLeBound(b: seq<U8>)
    requires |b| % 2 == 0
    ensures SumLe(b) <= 0xFFFF * (|b| / 2)
  {
    if b != [] {
      SumLeBound(b[..|b| - 2]);
    }
  }

  lemma {:induction false} SumBeBound(b: seq<U8>)
    ensures SumBe(b) <= 0xFFFF * ((|b| + 1) / 2)
  {
    if |b| % 2 == 1 {
      SumBeBound(b[..|b| - 1]);
    } else if b != [] {
      SumBeBound(b[..|b| - 2]);
    }
  }

  method FoldSum(sum0: U32) returns (sum: U16)
    ensures sum == Fold(sum0)
  {
    var s: U32 := sum0;
    while s >= 0x1_0000
      invariant Fold(s) == Fold(sum0)
      decreases s
    {
      s := s % 0x1_0000 + s / 0x1_0000;
    }
    sum := s;
  }

  /** `checksum16` of `len` little-endian words; the 32-bit sum cannot overflow for up
      to 65537 of them. */
  method Checksum16(data: array<U8>, p: nat, len: nat) returns (c: U16)
    requires p + 2 * len <= data.Length && len <= 0x1_0001
    ensures c == 0xFFFF - Fold(SumLe(data[p..p + 2 * len]))
  {
    var sum: U32 := 0;
    for i := 0 to len
      invariant sum == SumLe(data[p..p + 2 * i])
    {
      var prefix := data[p..p + 2 * i + 2];
      assert prefix[..|prefix| - 2] == data[p..p + 2 * i];
      SumLeBound(prefix);
      sum := sum + Word(data[p + 2 * i + 1], data[p + 2 * i]);
    }
    var folded := FoldSum(sum);
    c := 0xFFFF - folded;
  }

  /** The twelve bytes that RFC 768 puts in front of a segment for its checksum. */
  function PseudoHeader(srcIp: U32, dstIp: U32, protocol: U8, length: U16): (r: seq<U8>)
    ensures |r| == 12
  {
    Be32(srcIp) + Be32(dstIp) + [0, protocol] + Be16(length)
  }

  lemma DoubleWordSum(v: U32)
    ensures SumBe(Be32(v)) == v / 0x1_0000 + v % 0x1_0000
  {
    hide SumBe, Be16;
    WordSums(v / 0x1_0000);
    WordSums(v % 0x1_0000);
    SumBeConcat(Be16(v / 0x1_0000), Be16(v % 0x1_0000));
  }

  lemma PseudoHeaderSum(srcIp: U32, dstIp: U32, protocol: U8, length: U16)
    ensures SumBe(PseudoHeader(srcIp, dstIp, protocol, length))
         == srcIp / 0x1_0000 + srcIp % 0x1_0000 + dstIp / 0x1_0000 + dstIp % 0x1_0000 + protocol as int + length
  {
    hide SumBe, Be16, Be32;
    DoubleWordSum(srcIp);
    DoubleWordSum(dstIp);
    WordSums(protocol as int);
    WordSums(length);
    assert Be16(protocol as int) == [0, protocol] by {
      ByteWord(protocol);
    }
    SumBeConcat(Be32(srcIp), Be32(dstIp));
    SumBeConcat(Be32(srcIp) + Be32(dstIp), [0, protocol]);
    SumBeConcat(Be32(srcIp) + Be32(dstIp) + [0, protocol], Be16(length));
  }

  lemma ByteWord(v: U8)
    ensures Be16(v as int) == [0, v]
  {
  }

  lemma SumBeStep(b: seq<U8>, i: nat)
    requires i % 2 == 0 && i + 2 <= |b| <= 0xFFFF
    ensures SumBe(b[..i + 2]) == SumBe(b[..i]) + Word(b[i], b[i + 1]) <= 0xFFFF * 0x8000
  {
    var prefix := b[..i + 2];
    assert prefix[..i] == b[..i];
    SumBeBound(prefix);
  }

  lemma SumBeTail(b: seq<U8>)
    requires |b| % 2 == 1 && |b| <= 0xFFFF
    ensures SumBe(b) == SumBe(b[..|b| - 1]) + Word(b[|b| - 1], 0) <= 0xFFFF * 0x8000
  {
    SumBeBound(b);
  }

  lemma SumBeEmpty(b: seq<U8>)
    ensures SumBe(b[..0]) == 0
  {
  }

  /** The word loop of `checksum16_pipv4` and its odd last byte; the 32-bit sum cannot
      overflow and the 16-bit index stays in range for any length. */
  method AddWords(start: U32, payload: array<U8>, p: nat, length: U16) returns (sum: U32)
    requires p + length <= payload.Length && start <= 0x6_0000
    ensures sum == start + SumBe(payload[p..p + length])
  {
    hide SumBe, Word;
    sum := start;
    ghost var data := payload[p..p + length];
    SumBeEmpty(data);
    var i: U16 := 0;
    while i + 1 < length
      invariant i % 2 == 0 && i <= length
      invariant sum == start + SumBe(data[..i])
      decreases length - i
    {
      SumBeStep(data, i);
      sum := sum + Word(payload[p + i], payload[p + i + 1]);
      i := i + 2;
    }
    if length % 2 == 1 {
      SumBeTail(data);
      sum := sum + Word(payload[p + length - 1], 0);
    } else {
      assert data[..i] == data;
    }
  }

  /** `checksum16_pipv4`: the checksum of the pseudo-header followed by the bytes, although
      the pseudo-header is nowhere in memory. */
  method ChecksumPseudo(srcIp: U32, dstIp: U32, protocol: U8, payload: array<U8>, p: nat, length: U16) returns (c: U16)
    requires p + length <= payload.Length
    ensures c == 0xFFFF - Fold(SumBe(PseudoHeader(srcIp, dstIp, protocol, length) + payload[p..p + length]))
  {
    hide Fold, SumBe, PseudoHeader;
    var sum: U32 := srcIp / 0x1_0000;
    sum := sum + srcIp % 0x1_0000;
    sum := sum + dstIp / 0x1_0000;
    sum := sum + dstIp % 0x1_0000;
    sum := sum + protocol as int;
    sum := sum + length;
    PseudoHeaderSum(srcIp, dstIp, protocol, length);
    SumBeConcat(PseudoHeader(srcIp, dstIp, protocol, length), payload[p..p + length]);
    sum := AddWords(sum, payload, p, length);
    var folded := FoldSum(sum);
    c := 0xFFFF - folded;
  }
}
