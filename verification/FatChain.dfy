/** Cluster chains of kernel/filesystem/fat32.cpp: `count_FAT` and `read_cluster`. */
module FatChain {
  import opened Counting
  import opened MachineTypes

  const END: nat := 0x0FFF_FFF8

  /** An entry at which `count_FAT` stops. */
  predicate Ends(entry: U32) { entry >= END || entry == 0 }

  /** `chain` are the clusters of the chain that starts at `first`, in order. */
  ghost predicate Chain(fat: seq<U32>, first: nat, chain: seq<nat>)
    decreases |chain|
  {
    && chain != [] && chain[0] == first && first < |fat|
    && if |chain| == 1 then Ends(fat[first]) else !Ends(fat[first]) && Chain(fat, fat[first], chain[1..])
  }

  lemma {:induction false} ChainUnique(fat: seq<U32>, first: nat, a: seq<nat>, b: seq<nat>)
    requires Chain(fat, first, a) && Chain(fat, first, b)
    ensures a == b
    decreases |a|
  {
    if |a| > 1 {
      ChainUnique(fat, fat[first], a[1..], b[1..]);
      assert a == [a[0]] + a[1..] && b == [b[0]] + b[1..];
    }
  }

  lemma {:induction false} ChainSuffix(fat: seq<U32>, first: nat, chain: seq<nat>, i: nat)
    requires Chain(fat, first, chain) && i < |chain|
    ensures Chain(fat, chain[i], chain[i..])
    decreases i
  {
    if i > 0 {
      ChainSuffix(fat, fat[first], chain[1..], i - 1);
      assert chain[1..][i - 1..] == chain[i..];
    } else {
      assert chain[0..] == chain;
    }
  }

  /** What a chain says about its `i`th cluster. */
  lemma ChainAt(fat: seq<U32>, first: nat, chain: seq<nat>, i: nat)
    requires Chain(fat, first, chain) && i < |chain|
    ensures chain[i] < |fat| && (Ends(fat[chain[i]]) <==> i == |chain| - 1)
    ensures i + 1 < |chain| ==> fat[chain[i]] == chain[i + 1]
  {
    ChainSuffix(fat, first, chain, i);
    if i + 1 < |chain| {
      assert chain[i..][1..][0] == chain[i + 1];
    }
  }

  /** A chain that ends does not come back to a cluster. */
  lemma ChainDistinct(fat: seq<U32>, first: nat, chain: seq<nat>)
    requires Chain(fat, first, chain)
    ensures forall i, j :: 0 <= i < j < |chain| ==> chain[i] != chain[j]
  {
    forall i, j | 0 <= i < j < |chain|
      ensures chain[i] != chain[j]
    {
      ChainSuffix(fat, first, chain, i);
      ChainSuffix(fat, first, chain, j);
      assert |chain[i..]| != |chain[j..]|;
      if chain[i] == chain[j] {
        ChainUnique(fat, chain[i], chain[i..], chain[j..]);
      }
    }
  }

  /** So it is no longer than the table. */
  lemma ChainBound(fat: seq<U32>, first: nat, chain: seq<nat>)
    requires Chain(fat, first, chain)
    ensures |chain| <= |fat|
  {
    ChainDistinct(fat, first, chain);
    forall k | 0 <= k < |chain|
      ensures chain[k] < |fat|
    {
      ChainAt(fat, first, chain, k);
    }
    Pigeonhole(chain, |fat|);
  }

  /** The cluster `n` steps down from `c`; it stays put at an end. */
  function Follow(fat: seq<U32>, c: nat, n: nat): nat
    decreases n
  {
    if n == 0 || c >= |fat| || Ends(fat[c]) then c else Follow(fat, fat[c], n - 1)
  }

  lemma {:induction false} FollowChain(fat: seq<U32>, first: nat, chain: seq<nat>, n: nat)
    requires Chain(fat, first, chain) && n + 1 >= |chain|
    ensures Follow(fat, first, n) == chain[|chain| - 1] < |fat| && Ends(fat[chain[|chain| - 1]])
    decreases n
  {
    if |chain| > 1 {
      FollowChain(fat, fat[first], chain[1..], n - 1);
    }
  }

  lemma {:induction false} FollowEnds(fat: seq<U32>, first: nat, n: nat) returns (chain: seq<nat>)
    requires first < |fat| && Follow(fat, first, n) < |fat| && Ends(fat[Follow(fat, first, n)])
    requires forall c :: 0 <= c < |fat| ==> Ends(fat[c]) || fat[c] < |fat|
    ensures Chain(fat, first, chain)
    decreases n
  {
    if Ends(fat[first]) {
      return [first];
    }
    chain := FollowEnds(fat, fat[first], n - 1);
    assert ([first] + chain)[1..] == chain;
    chain := [first] + chain;
  }

  ghost predicate HasChain(fat: seq<U32>, first: nat) {
    exists chain: seq<nat> :: Chain(fat, first, chain)
  }

  /** In a table whose entries are in range, a chain either ends within as many steps as
      the table has entries, or `count_FAT` never stops. */
  lemma EndsOrNever(fat: seq<U32>, first: nat)
    requires first < |fat| && forall c :: 0 <= c < |fat| ==> Ends(fat[c]) || fat[c] < |fat|
    ensures HasChain(fat, first) <==> FollowedEnds(fat, first, |fat|)
    ensures forall n: nat :: FollowedEnds(fat, first, n) ==> FollowedEnds(fat, first, |fat|)
  {
    hide Chain;
    if HasChain(fat, first) {
      var chain :| Chain(fat, first, chain);
      ChainEnds(fat, first, chain);
    }
    forall n: nat | FollowedEnds(fat, first, n)
      ensures FollowedEnds(fat, first, |fat|) && HasChain(fat, first)
    {
      var chain := FollowEnds(fat, first, n);
      ChainEnds(fat, first, chain);
    }
  }

  lemma ChainEnds(fat: seq<U32>, first: nat, chain: seq<nat>)
    requires Chain(fat, first, chain)
    ensures FollowedEnds(fat, first, |fat|)
  {
    hide Chain;
    ChainBound(fat, first, chain);
    FollowChain(fat, first, chain, |fat|);
  }

  ghost predicate FollowedEnds(fat: seq<U32>, first: nat, n: nat) {
    Follow(fat, first, n) < |fat| && Ends(fat[Follow(fat, first, n)])
  }

  /** `count_FAT` of a chain that ends: its length. */
  method CountFat(fat: array<U32>, first: nat, ghost chain: seq<nat>) returns (count: nat)
    requires Chain(fat[..], first, chain)
    ensures count == |chain| <= fat.Length
  {
    hide Chain;
    ChainBound(fat[..], first, chain);
    ChainFirst(fat[..], first, chain);
    ChainAt(fat[..], first, chain, 0);
    var entry := fat[first];
    count := 1;
    while entry < 0x0FFF_FFF8 && entry != 0
      invariant 1 <= count <= |chain|
      invariant chain[count - 1] < fat.Length && entry == fat[chain[count - 1]]
      decreases |chain| - count
    {
      ChainAt(fat[..], first, chain, count - 1);
      ChainAt(fat[..], first, chain, count);
      entry := fat[entry];
      count := count + 1;
    }
    ChainAt(fat[..], first, chain, count - 1);
  }

  lemma ChainFirst(fat: seq<U32>, first: nat, chain: seq<nat>)
    requires Chain(fat, first, chain)
    ensures chain != [] && chain[0] == first
  {
  }

  // --- Reading ---

  /** The first sector of cluster `c` on a disk, for clusters of `size` sectors. */
  function SectorOf(start: nat, size: nat, c: nat): int { start + (c - 2) * size }

  /** The data area starts with cluster 2, and clusters lie there back to back. */
  lemma ClustersTile(start: nat, size: nat, c: nat, d: nat)
    ensures SectorOf(start, size, 2) == start && SectorOf(start, size, c + 1) == SectorOf(start, size, c) + size
    ensures c < d ==> SectorOf(start, size, c) + size <= SectorOf(start, size, d)
  {
    Stretch(c, c + 1, size);
    if c < d {
      Stretch(c, d, size);
      Stretch(c + 1, d, size);
    }
  }

  lemma Stretch(c: int, d: int, size: nat)
    ensures (d - 2) * size == (c - 2) * size + (d - c) * size
    ensures c <= d ==> (d - c) * size >= 0
    ensures d == c + 1 ==> (d - c) * size == size
  {
  }

  /** Where cluster `i` of a file is in the buffer. */
  function Offset(i: nat, size: nat): nat { i * size }

  lemma OffsetIs(i: nat, size: nat)
    ensures Offset(i, size) == i * size
  {
  }

  lemma ClusterIs<S>(disk: seq<S>, start: nat, size: nat, c: nat)
    requires ClusterOnDisk(disk, start, size, c)
    ensures var sector := start + (c - 2) * size;
      0 <= sector && sector + size <= |disk| && Cluster(disk, start, size, c) == disk[sector..sector + size]
  {
  }

  /** The clusters of a chain are all on the disk. */
  ghost predicate OnDisk<S>(disk: seq<S>, start: nat, size: nat, chain: seq<nat>) {
    forall k :: 0 <= k < |chain| ==> ClusterOnDisk(disk, start, size, chain[k])
  }

  predicate ClusterOnDisk<S>(disk: seq<S>, start: nat, size: nat, c: nat) {
    2 <= c && 0 <= SectorOf(start, size, c) && SectorOf(start, size, c) + size <= |disk|
  }

  function Cluster<S>(disk: seq<S>, start: nat, size: nat, c: nat): (r: seq<S>)
    requires ClusterOnDisk(disk, start, size, c)
    ensures |r| == size
  {
    disk[SectorOf(start, size, c)..SectorOf(start, size, c) + size]
  }

  /** The sectors of a file, cluster after cluster. */
  ghost function Contents<S>(disk: seq<S>, start: nat, size: nat, chain: seq<nat>): (r: seq<S>)
    requires OnDisk(disk, start, size, chain)
    ensures |r| == Offset(|chain|, size)
  {
    if chain == [] then []
    else Contents(disk, start, size, chain[..|chain| - 1]) + Cluster(disk, start, size, chain[|chain| - 1])
  }

  lemma ContentsNext<S>(disk: seq<S>, start: nat, size: nat, chain: seq<nat>, i: nat)
    requires OnDisk(disk, start, size, chain) && i < |chain|
    ensures OnDisk(disk, start, size, chain[..i]) && OnDisk(disk, start, size, chain[..i + 1])
    ensures Contents(disk, start, size, chain[..i + 1])
         == Contents(disk, start, size, chain[..i]) + Cluster(disk, start, size, chain[i])
  {
    assert chain[..i + 1][..i] == chain[..i];
  }

  lemma {:induction false} OffsetNext(i: nat, n: nat, size: nat)
    requires i < n
    ensures Offset(i + 1, size) == Offset(i, size) + size <= Offset(n, size)
    decreases n
  {
    OneMore(i, size);
    if i + 1 < n {
      OffsetNext(i, n - 1, size);
      OneMore(n - 1, size);
    }
  }

  lemma OneMore(i: nat, size: nat)
    ensures Offset(i + 1, size) == Offset(i, size) + size
  {
  }

  /** `disk_read` into the buffer at `at`. */
  method DiskRead<S>(disk: seq<S>, sector: nat, count: nat, buffer: array<S>, at: nat)
    requires sector + count <= |disk| && at + count <= buffer.Length
    modifies buffer
    ensures buffer[..] == old(buffer[..at]) + disk[sector..sector + count] + old(buffer[at + count..])
  {
    forall i | 0 <= i < count {
      buffer[at + i] := disk[sector + i];
    }
  }

  function Zeros<S>(zero: S, n: nat): (r: seq<S>)
    ensures |r| == n
  {
    seq(n, _ => zero)
  }

  /** What `read_cluster` leaves in a buffer of `total` sectors after `n` clusters. */
  ghost predicate ReadUpTo<S>(buffer: seq<S>, disk: seq<S>, zero: S, start: nat, size: nat, chain: seq<nat>, n: nat) {
    n <= |chain| && OnDisk(disk, start, size, chain[..n]) && Offset(n, size) <= |buffer|
    && buffer == Contents(disk, start, size, chain[..n]) + Zeros(zero, |buffer| - Offset(n, size))
  }

  lemma ReadNone<S>(buffer: seq<S>, disk: seq<S>, zero: S, start: nat, size: nat, chain: seq<nat>)
    requires buffer == Zeros(zero, |buffer|)
    ensures ReadUpTo(buffer, disk, zero, start, size, chain, 0)
  {
    assert Offset(0, size) == 0;
    assert chain[..0] == [];
  }

  lemma ReadNext<S>(buffer: seq<S>, disk: seq<S>, zero: S, start: nat, size: nat, chain: seq<nat>, n: nat, buffer': seq<S>)
    requires ReadUpTo(buffer, disk, zero, start, size, chain, n) && n < |chain| && OnDisk(disk, start, size, chain)
    requires Offset(n, size) + size <= |buffer| == |buffer'| && Offset(n + 1, size) == Offset(n, size) + size
    requires ClusterOnDisk(disk, start, size, chain[n])
    requires buffer' == buffer[..Offset(n, size)] + Cluster(disk, start, size, chain[n]) + buffer[Offset(n, size) + size..]
    ensures ReadUpTo(buffer', disk, zero, start, size, chain, n + 1)
  {
    ContentsNext(disk, start, size, chain, n);
    hide Contents, OnDisk, Offset, Cluster;
    var done, at := Contents(disk, start, size, chain[..n]), Offset(n, size);
    assert buffer[..at] == done;
    assert buffer[at + size..] == Zeros(zero, |buffer| - at - size);
  }

  /** `read_cluster` of at most as many clusters as the chain has, or of more if the chain
      ends with an end marker: the file, then zeros. */
  method ReadCluster<S>(fat: array<U32>, disk: seq<S>, zero: S, start: nat, size: nat, count: nat, first: nat,
                        ghost chain: seq<nat>)
    returns (buffer: array<S>)
    requires Chain(fat[..], first, chain) && OnDisk(disk, start, size, chain)
    requires count <= |chain| || LastEntry(fat[..], chain) >= END
    ensures fresh(buffer) && buffer.Length == Offset(count, size)
    ensures ReadUpTo(buffer[..], disk, zero, start, size, chain, if count < |chain| then count else |chain|)
  {
    hide Chain, OnDisk, Contents, Offset, SectorOf, Cluster, ReadUpTo, Zeros;
    OffsetIs(count, size);
    buffer := new S[count * size](_ => zero);
    assert buffer[..] == Zeros(zero, buffer.Length) by {
      AllZero(buffer[..], zero);
    }
    ChainFirst(fat[..], first, chain);
    ReadNone(buffer[..], disk, zero, start, size, chain);
    var next := first;
    for i := 0 to count
      invariant i <= |chain| && fresh(buffer) && buffer.Length == Offset(count, size)
      invariant fat[..] == old(fat[..]) && (i < |chain| ==> next == chain[i])
      invariant i < |chain| || i == count
      invariant ReadUpTo(buffer[..], disk, zero, start, size, chain, i)
    {
      ChainAt(fat[..], first, chain, i);
      OffsetNext(i, count, size);
      Placed(disk, start, size, chain, i);
      ghost var before := buffer[..];
      OffsetIs(i, size);
      ClusterIs(disk, start, size, next);
      DiskRead(disk, start + (next - 2) * size, size, buffer, i * size);
      ReadNext(before, disk, zero, start, size, chain, i, buffer[..]);
      next := fat[next];
      if next >= 0x0FFF_FFF8 {
        return;
      }
    }
  }

  lemma AllZero<S>(s: seq<S>, zero: S)
    requires forall i :: 0 <= i < |s| ==> s[i] == zero
    ensures s == Zeros(zero, |s|)
  {
  }

  lemma Placed<S>(disk: seq<S>, start: nat, size: nat, chain: seq<nat>, i: nat)
    requires OnDisk(disk, start, size, chain) && i < |chain|
    ensures ClusterOnDisk(disk, start, size, chain[i])
  {
  }

  /** The table entry of the last cluster of a chain. */
  function LastEntry(fat: seq<U32>, chain: seq<nat>): U32 {
    if chain != [] && chain[|chain| - 1] < |fat| then fat[chain[|chain| - 1]] else 0
  }

  /** `count_FAT`, then `read_cluster` with that count: exactly the file. */
  method ReadChain<S>(fat: array<U32>, disk: seq<S>, zero: S, start: nat, size: nat, first: nat, ghost chain: seq<nat>)
    returns (buffer: array<S>)
    requires Chain(fat[..], first, chain) && OnDisk(disk, start, size, chain)
    ensures fresh(buffer) && buffer[..] == Contents(disk, start, size, chain)
  {
    hide Chain, OnDisk, Contents, ReadUpTo;
    var count := CountFat(fat, first, chain);
    buffer := ReadCluster(fat, disk, zero, start, size, count, first, chain);
    ReadAll(buffer[..], disk, zero, start, size, chain);
  }

  lemma ReadAll<S>(buffer: seq<S>, disk: seq<S>, zero: S, start: nat, size: nat, chain: seq<nat>)
    requires ReadUpTo(buffer, disk, zero, start, size, chain, |chain|) && |buffer| == Offset(|chain|, size)
    ensures OnDisk(disk, start, size, chain) && buffer == Contents(disk, start, size, chain)
  {
    assert chain[..|chain|] == chain;
  }
}
