/** `memset` and `memcpy` of shared/std/memfunctions.c: 32-byte blocks, then 8-byte
    words, then single bytes, on little-endian memory. */
module MemFunctions {
  import opened Division
  import opened MachineTypes

  /** U8 `j` of a 32-bit value in memory. */
  function ByteOf(val: U32, j: nat): U8
    requires j < 4
  {
    if j == 0 then val % 0x100 else if j == 1 then val / 0x100 % 0x100
    else if j == 2 then val / 0x1_0000 % 0x100 else val / 0x100_0000
  }

  /** `((uint64_t)val << 32) | val` in memory. */
  function Pattern(val: U32): (p: seq<U8>)
    ensures |p| == 8
  {
    seq(8, j requires 0 <= j < 8 => ByteOf(val, j % 4))
  }

  /** The bytes filled or copied in whole 8-byte words. */
  function Whole(count: nat): nat { count / 8 * 8 }

  /** 32-byte blocks, the 8-byte words left, and the bytes left. */
  function Blocks(count: nat): nat { count / 32 }
  function Words(count: nat): nat { count % 32 / 8 }
  function Rest(count: nat): nat { count % 8 }

  lemma Parts(count: nat)
    ensures Whole(count) == 32 * Blocks(count) + 8 * Words(count)
    ensures count == Whole(count) + Rest(count)
  {
    DivModIs(count, 8, 4 * (count / 32) + count % 32 / 8, count % 32 % 8);
  }

  /** What `memset(dest, val, count)` leaves in byte `i`: the whole words repeat the
      32-bit value, the last count % 8 bytes repeat only its low byte. */
  function MemsetByte(val: U32, count: nat, i: nat): U8 {
    if i < Whole(count) then ByteOf(val, i % 4) else ByteOf(val, 0)
  }

  method StoreWord(dest: array<U8>, p: nat, word: seq<U8>)
    requires |word| == 8 && p + 8 <= dest.Length
    modifies dest
    ensures dest[..] == old(dest[..p]) + word + old(dest[p + 8..])
  {
    for j := 0 to 8
      invariant forall k {:trigger dest[k]} :: 0 <= k < dest.Length ==>
        dest[k] == if p <= k < p + j then word[k - p] else old(dest[k])
    {
      dest[p + j] := word[j];
    }
  }

  /** Bytes p .. p+n of `d` are as `memset` leaves them, the others as in `was`. */
  ghost predicate SetUpTo(d: seq<U8>, was: seq<U8>, p: nat, n: nat, val: U32, count: nat)
    requires |d| == |was|
  {
    forall i {:trigger d[i]} :: 0 <= i < |d| ==> d[i] == if p <= i < p + n then MemsetByte(val, count, i - p) else was[i]
  }

  lemma PatternStep(d: seq<U8>, d': seq<U8>, was: seq<U8>, p: nat, n: nat, m: nat, val: U32, count: nat)
    requires |d| == |d'| == |was| && p + n + 8 <= |d| && n == 8 * m && n + 8 <= Whole(count)
    requires SetUpTo(d, was, p, n, val, count)
    requires d' == d[..p + n] + Pattern(val) + d[p + n + 8..]
    ensures SetUpTo(d', was, p, n + 8, val, count)
  {
    hide Whole;
    forall i {:trigger d'[i]} | 0 <= i < |d'|
      ensures d'[i] == if p <= i < p + n + 8 then MemsetByte(val, count, i - p) else was[i]
    {
      if p + n <= i < p + n + 8 {
        assert d'[i] == Pattern(val)[i - p - n];
        SamePlaceInWord(i - p - n, m);
      } else {
        assert d'[i] == d[i];
      }
    }
  }

  lemma SamePlaceInWord(j: nat, m: nat)
    ensures (8 * m + j) % 4 == j % 4
  {
    DivModIs(8 * m + j, 4, 2 * m + j / 4, j % 4);
  }

  lemma TailStep(d: seq<U8>, d': seq<U8>, was: seq<U8>, p: nat, n: nat, val: U32, count: nat)
    requires |d| == |was| && p + n < |d| && Whole(count) <= n
    requires SetUpTo(d, was, p, n, val, count) && d' == d[p + n := ByteOf(val, 0)]
    ensures SetUpTo(d', was, p, n + 1, val, count)
  {
    hide Whole, ByteOf;
  }

  /** `d64[i] = pattern` for `words` words, `m` words into the fill. */
  method SetWords(dest: array<U8>, p: nat, m: nat, words: nat, val: U32, count: nat, ghost was: seq<U8>)
    requires p + 8 * (m + words) <= dest.Length && 8 * (m + words) <= Whole(count) && |was| == dest.Length
    requires SetUpTo(dest[..], was, p, 8 * m, val, count)
    modifies dest
    ensures SetUpTo(dest[..], was, p, 8 * (m + words), val, count)
  {
    hide SetUpTo, Pattern, Whole;
    for i := 0 to words
      invariant SetUpTo(dest[..], was, p, 8 * (m + i), val, count)
    {
      ghost var d := dest[..];
      StoreWord(dest, p + 8 * (m + i), Pattern(val));
      PatternStep(d, dest[..], was, p, 8 * (m + i), m + i, val, count);
    }
  }

  lemma NothingSet(was: seq<U8>, p: nat, val: U32, count: nat)
    ensures SetUpTo(was, was, p, 0, val, count)
  {
  }

  method Memset(dest: array<U8>, p: nat, val: U32, count: nat)
    requires p + count <= dest.Length
    modifies dest
    ensures SetUpTo(dest[..], old(dest[..]), p, count, val, count)
  {
    hide SetUpTo, MemsetByte, ByteOf, Pattern, Whole, Blocks, Words, Rest;
    ghost var was := dest[..];
    NothingSet(was, p, val, count);
    Parts(count);
    var blocks, remaining := Blocks(count), Words(count);
    for b := 0 to blocks
      invariant SetUpTo(dest[..], was, p, 8 * (4 * b), val, count)
    {
      SetWords(dest, p, 4 * b, 4, val, count, was);
    }
    SetWords(dest, p, 4 * blocks, remaining, val, count, was);
    var d8 := p + 32 * blocks + 8 * remaining;
    for i := 0 to Rest(count)
      invariant SetUpTo(dest[..], was, p, Whole(count) + i, val, count)
    {
      ghost var d := dest[..];
      dest[d8 + i] := ByteOf(val, 0);
      TailStep(d, dest[..], was, p, Whole(count) + i, val, count);
    }
  }

  ghost predicate CopiedUpTo(d: seq<U8>, was: seq<U8>, p: nat, n: nat, s: seq<U8>, q: nat)
    requires |d| == |was| && q + n <= |s|
  {
    forall i {:trigger d[i]} :: 0 <= i < |d| ==> d[i] == if p <= i < p + n then s[q + (i - p)] else was[i]
  }

  lemma CopyStep(d: seq<U8>, d': seq<U8>, was: seq<U8>, p: nat, n: nat, s: seq<U8>, q: nat)
    requires |d| == |was| && p + n + 8 <= |d| && q + n + 8 <= |s|
    requires CopiedUpTo(d, was, p, n, s, q) && d' == d[..p + n] + s[q + n..q + n + 8] + d[p + n + 8..]
    ensures |d'| == |was| && CopiedUpTo(d', was, p, n + 8, s, q)
  {
  }

  lemma CopyByteStep(d: seq<U8>, d': seq<U8>, was: seq<U8>, p: nat, n: nat, s: seq<U8>, q: nat)
    requires |d| == |was| && p + n < |d| && q + n < |s|
    requires CopiedUpTo(d, was, p, n, s, q) && d' == d[p + n := s[q + n]]
    ensures CopiedUpTo(d', was, p, n + 1, s, q)
  {
  }

  /** `d64[i] = s64[i]` for `words` words, `n` bytes into the copy. */
  method CopyWords(dest: array<U8>, p: nat, src: array<U8>, q: nat, n: nat, words: nat, ghost was: seq<U8>)
    requires p + n + 8 * words <= dest.Length && q + n + 8 * words <= src.Length && dest != src && |was| == dest.Length
    requires CopiedUpTo(dest[..], was, p, n, src[..], q)
    modifies dest
    ensures CopiedUpTo(dest[..], was, p, n + 8 * words, src[..], q)
  {
    hide CopiedUpTo;
    for i := 0 to words
      invariant CopiedUpTo(dest[..], was, p, n + 8 * i, src[..], q)
    {
      ghost var d := dest[..];
      StoreWord(dest, p + n + 8 * i, src[q + n + 8 * i..q + n + 8 * i + 8]);
      CopyStep(d, dest[..], was, p, n + 8 * i, src[..], q);
    }
  }

  lemma NothingCopied(was: seq<U8>, p: nat, s: seq<U8>, q: nat)
    requires q <= |s|
    ensures CopiedUpTo(was, was, p, 0, s, q)
  {
  }

  method Memcpy(dest: array<U8>, p: nat, src: array<U8>, q: nat, count: nat)
    requires p + count <= dest.Length && q + count <= src.Length && dest != src
    modifies dest
    ensures CopiedUpTo(dest[..], old(dest[..]), p, count, src[..], q)
  {
    hide CopiedUpTo, Whole, Blocks, Words, Rest;
    ghost var was := dest[..];
    NothingCopied(was, p, src[..], q);
    Parts(count);
    var blocks, remaining := Blocks(count), Words(count);
    for b := 0 to blocks
      invariant CopiedUpTo(dest[..], was, p, 32 * b, src[..], q)
    {
      CopyWords(dest, p, src, q, 32 * b, 4, was);
    }
    CopyWords(dest, p, src, q, 32 * blocks, remaining, was);
    var done := 32 * blocks + 8 * remaining;
    for i := 0 to Rest(count)
      invariant CopiedUpTo(dest[..], was, p, done + i, src[..], q)
    {
      ghost var d := dest[..];
      dest[p + done + i] := src[q + done + i];
      CopyByteStep(d, dest[..], was, p, done + i, src[..], q);
    }
  }

  // --- Seen as 32-bit words ---

  function WordOf(b0: U8, b1: U8, b2: U8, b3: U8): U32 {
    b0 + 0x100 * b1 + 0x1_0000 * b2 + 0x100_0000 * b3
  }

  lemma WordOfBytes(val: U32)
    ensures WordOf(ByteOf(val, 0), ByteOf(val, 1), ByteOf(val, 2), ByteOf(val, 3)) == val
  {
    assert val / 0x1_0000 == val / 0x100 / 0x100;
    assert val / 0x100_0000 == val / 0x1_0000 / 0x100;
    assert val == val / 0x100 * 0x100 + ByteOf(val, 0);
    assert val / 0x100 == val / 0x1_0000 * 0x100 + ByteOf(val, 1);
    assert val / 0x1_0000 == val / 0x100_0000 * 0x100 + ByteOf(val, 2);
  }

  /** Word `k` of `n` after `memset(dest, val, 4 * n)`: an odd last word gets the low
      byte four times. */
  function MemsetWord(val: U32, n: nat, k: nat): U32 {
    if k < n / 2 * 2 then val else val % 0x100 * 0x101_0101
  }

  lemma MemsetWords(val: U32, n: nat, k: nat)
    requires k < n
    ensures WordOf(MemsetByte(val, 4 * n, 4 * k), MemsetByte(val, 4 * n, 4 * k + 1),
                   MemsetByte(val, 4 * n, 4 * k + 2), MemsetByte(val, 4 * n, 4 * k + 3)) == MemsetWord(val, n, k)
  {
    hide Whole, ByteOf, WordOf;
    WordOfBytes(val);
    WordOfSame(ByteOf(val, 0));
    WholeWords(n, k);
    assert ByteOf(val, 0) == val % 0x100 by {
      LowByte(val);
    }
  }

  lemma LowByte(val: U32)
    ensures ByteOf(val, 0) == val % 0x100
  {
  }

  lemma WordOfSame(b: U8)
    ensures WordOf(b, b, b, b) == b * 0x101_0101
  {
  }

  /** The four bytes of word `k` of `n` are all filled in whole words, or none is. */
  lemma WholeWords(n: nat, k: nat)
    requires k < n
    ensures if k < n / 2 * 2 then 4 * k + 3 < Whole(4 * n) else Whole(4 * n) <= 4 * k
    ensures 4 * k % 4 == 0 && (4 * k + 1) % 4 == 1 && (4 * k + 2) % 4 == 2 && (4 * k + 3) % 4 == 3
  {
    DivModIs(4 * n, 8, n / 2, 4 * (n % 2));
    DivModIs(4 * k, 4, k, 0);
    DivModIs(4 * k + 1, 4, k, 1);
    DivModIs(4 * k + 2, 4, k, 2);
    DivModIs(4 * k + 3, 4, k, 3);
  }

  /** The 32-bit value stored at byte `a`. */
  function WordAt(d: seq<U8>, a: nat): U32
    requires a + 4 <= |d|
  {
    WordOf(d[a], d[a + 1], d[a + 2], d[a + 3])
  }

  /** `words` is what memory holds from byte `base` on. */
  ghost predicate Holds(d: seq<U8>, base: nat, words: seq<U32>) {
    && base + 4 * |words| <= |d|
    && forall k {:trigger words[k]} :: 0 <= k < |words| ==> WordAt(d, base + 4 * k) == words[k]
  }

  function Filled(val: U32, n: nat): (words: seq<U32>)
    ensures |words| == n
  {
    seq(n, k requires 0 <= k < n => MemsetWord(val, n, k))
  }

  /** `memset` of `4 * n` bytes on `n` words. */
  lemma MemsetHolds(d: seq<U8>, was: seq<U8>, base: nat, n: nat, val: U32)
    requires |d| == |was| && base + 4 * n <= |d| && SetUpTo(d, was, base, 4 * n, val, 4 * n)
    ensures Holds(d, base, Filled(val, n))
  {
    hide WordOf, MemsetByte, MemsetWord;
    var words := Filled(val, n);
    forall k {:trigger words[k]} | 0 <= k < n
      ensures WordAt(d, base + 4 * k) == words[k]
    {
      MemsetWords(val, n, k);
      assert d[base + 4 * k] == MemsetByte(val, 4 * n, 4 * k);
    }
  }

  /** `words` with those from `from` to `from + n` taken from `source`. */
  function Overlaid(words: seq<U32>, source: seq<U32>, from: nat, n: nat): seq<U32>
    requires |words| == |source| && from + n <= |words|
  {
    words[..from] + source[from..from + n] + words[from + n..]
  }

  /** `memcpy` of `4 * n` bytes between the same places of two buffers. */
  lemma MemcpyHolds(d: seq<U8>, was: seq<U8>, s: seq<U8>, p: nat, q: nat, words: seq<U32>, source: seq<U32>, from: nat, n: nat)
    requires Holds(was, p, words) && Holds(s, q, source) && |words| == |source| && from + n <= |words|
    requires |d| == |was| && CopiedUpTo(d, was, p + 4 * from, 4 * n, s, q + 4 * from)
    ensures Holds(d, p, Overlaid(words, source, from, n))
  {
    hide WordOf;
    var after := Overlaid(words, source, from, n);
    forall k {:trigger after[k]} | 0 <= k < |after|
      ensures WordAt(d, p + 4 * k) == after[k]
    {
      if from <= k < from + n {
        assert after[k] == source[k];
      } else {
        assert after[k] == words[k];
      }
    }
  }

  /** A colour fill reaches every word exactly when the words pair up or the colour
      repeats one byte. */
  lemma MemsetUniform(val: U32, n: nat)
    ensures (forall k {:trigger MemsetWord(val, n, k)} :: 0 <= k < n ==> MemsetWord(val, n, k) == val)
       <==> n % 2 == 0 || val == val % 0x100 * 0x101_0101
  {
    if n % 2 == 1 {
      assert MemsetWord(val, n, n - 1) == val % 0x100 * 0x101_0101;
    }
  }
}
