/** The free list that both kernel allocators thread through the memory they manage:
    a block on the list holds its size in its first word and the address of the next
    block in its second (kernel/memory/memory_types.h). */
module FreeList {
  import opened PhysicalMemory

  /** A snapshot of the allocator.  `block` gives the size of every block carved
      out of the heap and not forgotten; those listed in `free` are on the free
      list, in list order, and the others are held by clients. */
  datatype Snapshot = Snapshot(mem: Memory, head: Word, next: nat, block: map<nat, nat>, free: seq<nat>)

  /** An allocation unit: empty, or big enough for the two words of a list header. */
  predicate Room(size: nat) {
    size % 8 == 0 && (size == 0 || 16 <= size)
  }

  /** The `next` field of the free block at `b`. */
  function After(m: Memory, b: nat): Word {
    Load(m, b + 8)
  }

  function Nth(list: seq<nat>, i: nat): nat {
    if i < |list| then list[i] else 0
  }

  /** `head` and the `next` words of memory spell out exactly the blocks `list`. */
  ghost predicate Linked(m: Memory, head: nat, list: seq<nat>) {
    && head == Nth(list, 0)
    && forall i {:trigger After(m, list[i])} :: 0 <= i < |list| ==> After(m, list[i]) == Nth(list, i + 1)
  }

  ghost predicate Placed(block: map<nat, nat>, bottom: nat, next: nat, p: nat)
    requires p in block
  {
    p % 8 == 0 && block[p] % 8 == 0 && 16 <= block[p] && bottom <= p && p + block[p] <= next
  }

  /** Blocks have room for a list header, lie inside [bottom, next), and no two overlap. */
  ghost predicate Tidy(block: map<nat, nat>, bottom: nat, next: nat) {
    && (forall p :: p in block ==> Placed(block, bottom, next, p))
    && (forall p, q {:trigger Apart(p, block[p], q, block[q])} ::
          p in block && q in block && p != q ==> Apart(p, block[p], q, block[q]))
  }

  ghost predicate Listed(s: Snapshot) {
    && Linked(s.mem, s.head, s.free)
    && (forall i :: 0 <= i < |s.free| ==> s.free[i] in s.block && Load(s.mem, s.free[i]) == s.block[s.free[i]])
    && (forall i, j :: 0 <= i < j < |s.free| ==> s.free[i] != s.free[j])
  }

  ghost predicate Packed(s: Snapshot, bottom: nat, limit: nat) {
    && 0 < bottom <= s.next <= limit < 0x1_0000_0000_0000_0000
    && bottom % 8 == 0 && s.next % 8 == 0
    && Tidy(s.block, bottom, s.next)
    && Listed(s)
  }

  ghost predicate Held(s: Snapshot, p: nat) {
    p in s.block && p !in s.free
  }

  /** Memory the allocator may not touch: outside the heap or held by a client. */
  ghost predicate Foreign(s: Snapshot, bottom: nat, limit: nat, a: nat) {
    a < bottom || limit <= a || exists p: nat :: Held(s, p) && p <= a < p + s.block[p]
  }

  /** The index of the first listed block of at least `size` bytes, or |list|. */
  ghost function FirstFit(block: map<nat, nat>, list: seq<nat>, size: nat): (i: nat)
    requires forall k :: 0 <= k < |list| ==> list[k] in block
    ensures i <= |list|
    ensures i < |list| ==> size <= block[list[i]]
    ensures forall k :: 0 <= k < i ==> block[list[k]] < size
  {
    if list == [] then 0
    else if size <= block[list[0]] then 0
    else 1 + FirstFit(block, list[1..], size)
  }

  /** Reuse of free block `i`: unlink it and zero the bytes asked for.  Whatever
      the block has beyond `size` is forgotten; nothing ever reaches it again. */
  ghost function Reuse(s: Snapshot, i: nat, size: nat): Snapshot
    requires i < |s.free|
  {
    var b := s.free[i];
    var after := After(s.mem, b);
    var unlinked := if i == 0 then s.mem else s.mem[s.free[i - 1] + 8 := after];
    Snapshot(Zeroed(unlinked, b, size), if i == 0 then after else s.head, s.next,
             if size == 0 then s.block - {b} else s.block[b := size],
             s.free[..i] + s.free[i + 1..])
  }

  ghost function Bump(s: Snapshot, size: nat): Snapshot
    requires s.next + size < 0x1_0000_0000_0000_0000
  {
    s.(mem := Zeroed(s.mem, s.next, size), next := s.next + size,
       block := if size == 0 then s.block else s.block[s.next := size])
  }

  ghost function Push(s: Snapshot, p: Word, size: Word): Snapshot
  {
    s.(mem := Zeroed(s.mem, p, size)[p := size][p + 8 := s.head], head := p, free := [p] + s.free)
  }

  // --- Every transition keeps the allocator sound ---

  lemma FreeApart(s: Snapshot, bottom: nat, limit: nat, i: nat, j: nat)
    requires Packed(s, bottom, limit) && i < |s.free| && j < |s.free| && i != j
    ensures Apart(s.free[i], s.block[s.free[i]], s.free[j], s.block[s.free[j]])
  {
    assert s.free[i] != s.free[j];
  }

  lemma FreeBlockAt(s: Snapshot, bottom: nat, limit: nat, i: nat)
    requires Packed(s, bottom, limit) && i < |s.free|
    ensures s.free[i] in s.block && Load(s.mem, s.free[i]) == s.block[s.free[i]]
    ensures After(s.mem, s.free[i]) == Nth(s.free, i + 1)
    ensures 0 < s.free[i]
  {
    assert After(s.mem, s.free[i]) == Nth(s.free, i + 1);
  }

  lemma ForeignApart(s: Snapshot, bottom: nat, limit: nat, a: nat, i: nat)
    requires Packed(s, bottom, limit) && Foreign(s, bottom, limit, a) && i < |s.free|
    ensures a < s.free[i] || s.free[i] + s.block[s.free[i]] <= a
  {
    if bottom <= a < limit {
      var p: nat :| Held(s, p) && p <= a < p + s.block[p];
      assert Apart(p, s.block[p], s.free[i], s.block[s.free[i]]);
    }
  }

  lemma StorePacked(s: Snapshot, bottom: nat, limit: nat, a: nat, v: Word)
    requires Packed(s, bottom, limit) && Foreign(s, bottom, limit, a) && a % 8 == 0
    ensures Packed(s.(mem := s.mem[a := v]), bottom, limit)
  {
    forall i | 0 <= i < |s.free|
      ensures Load(s.mem[a := v], s.free[i]) == Load(s.mem, s.free[i])
      ensures After(s.mem[a := v], s.free[i]) == After(s.mem, s.free[i])
    {
      ForeignApart(s, bottom, limit, a, i);
    }
  }

  lemma ReuseTidy(s: Snapshot, bottom: nat, limit: nat, i: nat, size: nat)
    requires Packed(s, bottom, limit) && i < |s.free|
    requires Room(size) && size <= s.block[s.free[i]]
    ensures Tidy(Reuse(s, i, size).block, bottom, s.next)
  {
    var b, block' := s.free[i], Reuse(s, i, size).block;
    forall p, q | p in block' && q in block' && p != q
      ensures Apart(p, block'[p], q, block'[q])
    {
      assert p in s.block && q in s.block && Apart(p, s.block[p], q, s.block[q]);
    }
  }

  /** Word by word, what reuse does to memory. */
  lemma ReuseLoad(s: Snapshot, i: nat, size: nat, a: nat)
    requires i < |s.free|
    ensures Load(Reuse(s, i, size).mem, a)
         == if s.free[i] <= a < s.free[i] + size then 0
            else if i > 0 && a == s.free[i - 1] + 8 then After(s.mem, s.free[i])
            else Load(s.mem, a)
  {
  }

  lemma ReuseMemory(s: Snapshot, bottom: nat, limit: nat, i: nat, size: nat, j: nat)
    requires Packed(s, bottom, limit) && i < |s.free|
    requires Room(size) && size <= s.block[s.free[i]]
    requires j < |s.free| && j != i
    ensures s.free[j] in Reuse(s, i, size).block
    ensures Load(Reuse(s, i, size).mem, s.free[j]) == Reuse(s, i, size).block[s.free[j]]
    ensures After(Reuse(s, i, size).mem, s.free[j]) == Nth(s.free, if j + 1 == i then i + 1 else j + 1)
  {
    hide Linked, Zeroed, Load;
    ReuseLoad(s, i, size, s.free[j]);
    ReuseLoad(s, i, size, s.free[j] + 8);
    FreeApart(s, bottom, limit, j, i);
    FreeBlockAt(s, bottom, limit, i);
    FreeBlockAt(s, bottom, limit, j);
    if i > 0 && j != i - 1 {
      FreeApart(s, bottom, limit, j, i - 1);
    }
  }

  /** `rest` is `list` without entry `i`: where entry `k` of it comes from, and
      what follows it. */
  lemma Without(list: seq<nat>, i: nat, rest: seq<nat>, k: nat, j: nat)
    requires i < |list| && rest == list[..i] + list[i + 1..] && k < |rest|
    requires j == if k < i then k else k + 1
    ensures rest[k] == list[j]
    ensures Nth(rest, k + 1) == Nth(list, if j + 1 == i then i + 1 else j + 1)
  {
  }

  /** Every listed block but number `i` keeps its size word, and its link except
      that the predecessor of `i` now points past it. */
  ghost predicate Bypassed(s: Snapshot, s': Snapshot, i: nat) {
    forall j {:trigger After(s'.mem, s.free[j])} :: 0 <= j < |s.free| && j != i ==>
      && s.free[j] in s'.block
      && Load(s'.mem, s.free[j]) == s'.block[s.free[j]]
      && After(s'.mem, s.free[j]) == Nth(s.free, if j + 1 == i then i + 1 else j + 1)
  }

  lemma BypassedListed(s: Snapshot, s': Snapshot, i: nat)
    requires i < |s.free| && Bypassed(s, s', i)
    requires forall j, k :: 0 <= j < k < |s.free| ==> s.free[j] != s.free[k]
    requires s'.free == s.free[..i] + s.free[i + 1..]
    requires s'.head == if i == 0 then Nth(s.free, 1) else Nth(s.free, 0)
    ensures Listed(s')
  {
    forall k | 0 <= k < |s'.free|
      ensures s'.free[k] in s'.block && Load(s'.mem, s'.free[k]) == s'.block[s'.free[k]]
      ensures After(s'.mem, s'.free[k]) == Nth(s'.free, k + 1)
    {
      var j := if k < i then k else k + 1;
      Without(s.free, i, s'.free, k, j);
      assert After(s'.mem, s.free[j]) == Nth(s.free, if j + 1 == i then i + 1 else j + 1);
    }
  }

  lemma ReuseBypasses(s: Snapshot, bottom: nat, limit: nat, i: nat, size: nat)
    requires Packed(s, bottom, limit) && i < |s.free|
    requires Room(size) && size <= s.block[s.free[i]]
    ensures Bypassed(s, Reuse(s, i, size), i)
  {
    var s' := Reuse(s, i, size);
    forall j: int | 0 <= j < |s.free| && j != i
      ensures s.free[j] in s'.block && Load(s'.mem, s.free[j]) == s'.block[s.free[j]]
      ensures After(s'.mem, s.free[j]) == Nth(s.free, if j + 1 == i then i + 1 else j + 1)
    {
      hide Tidy, Linked, Reuse;
      ReuseMemory(s, bottom, limit, i, size, j);
    }
  }

  lemma ReuseListed(s: Snapshot, bottom: nat, limit: nat, i: nat, size: nat)
    requires Packed(s, bottom, limit) && i < |s.free|
    requires Room(size) && size <= s.block[s.free[i]]
    ensures Listed(Reuse(s, i, size))
  {
    hide Tidy, Bypassed;
    ReuseBypasses(s, bottom, limit, i, size);
    assert After(s.mem, s.free[i]) == Nth(s.free, i + 1) && s.head == Nth(s.free, 0);
    BypassedListed(s, Reuse(s, i, size), i);
  }

  lemma ReusePacked(s: Snapshot, bottom: nat, limit: nat, i: nat, size: nat)
    requires Packed(s, bottom, limit) && i < |s.free|
    requires Room(size) && size <= s.block[s.free[i]]
    ensures Packed(Reuse(s, i, size), bottom, limit)
  {
    hide Listed, Tidy;
    ReuseTidy(s, bottom, limit, i, size);
    ReuseListed(s, bottom, limit, i, size);
  }

  lemma BumpPacked(s: Snapshot, bottom: nat, limit: nat, size: nat)
    requires Packed(s, bottom, limit) && Room(size) && s.next + size <= limit
    ensures Packed(Bump(s, size), bottom, limit)
  {
    var s' := Bump(s, size);
    forall i | 0 <= i < |s.free|
      ensures Load(s'.mem, s.free[i]) == Load(s.mem, s.free[i])
      ensures After(s'.mem, s.free[i]) == After(s.mem, s.free[i])
    {
      assert s.free[i] + s.block[s.free[i]] <= s.next;
    }
  }

  lemma PushKeeps(s: Snapshot, bottom: nat, limit: nat, p: Word, i: nat)
    requires Packed(s, bottom, limit) && Held(s, p) && i < |s.free|
    ensures Load(Push(s, p, s.block[p]).mem, s.free[i]) == s.block[s.free[i]]
    ensures After(Push(s, p, s.block[p]).mem, s.free[i]) == Nth(s.free, i + 1)
  {
    FreeBlockAt(s, bottom, limit, i);
    assert Apart(p, s.block[p], s.free[i], s.block[s.free[i]]);
  }

  lemma PushPacked(s: Snapshot, bottom: nat, limit: nat, p: Word)
    requires Packed(s, bottom, limit) && Held(s, p)
    ensures Packed(Push(s, p, s.block[p]), bottom, limit)
  {
    var s' := Push(s, p, s.block[p]);
    forall k | 0 <= k < |s'.free|
      ensures s'.free[k] in s'.block && Load(s'.mem, s'.free[k]) == s'.block[s'.free[k]]
      ensures After(s'.mem, s'.free[k]) == Nth(s'.free, k + 1)
    {
      hide Tidy, Linked;
      if k > 0 {
        hide Push;
        PushKeeps(s, bottom, limit, p, k - 1);
      }
    }
  }

  /** The step from `s` to `s'` hands [p, p+size) to a client safely: the region
      is inside the heap, all zero and disjoint from everything held
      before; it is held unless empty; nobody else gains or loses a region; and no
      foreign word changes. */
  ghost predicate Given(s: Snapshot, s': Snapshot, bottom: nat, limit: nat, p: nat, size: nat) {
    && bottom <= p && p + size <= limit
    && (forall a: nat :: p <= a < p + size ==> Load(s'.mem, a) == 0)
    && (forall q: nat :: Held(s, q) ==> Apart(p, size, q, s.block[q]))
    && (forall q: nat :: Held(s', q) <==> Held(s, q) || (q == p && size != 0))
    && (forall q: nat :: Held(s', q) ==> s'.block[q] == if Held(s, q) then s.block[q] else size)
    && (forall a: nat :: Foreign(s, bottom, limit, a) ==> Load(s'.mem, a) == Load(s.mem, a))
  }

  lemma GivenLoad(s: Snapshot, s': Snapshot, bottom: nat, limit: nat, p: nat, size: nat, a: nat)
    requires Given(s, s', bottom, limit, p, size) && Foreign(s, bottom, limit, a)
    ensures Load(s'.mem, a) == Load(s.mem, a)
  {
  }

  lemma GivenKeepsForeign(s: Snapshot, s': Snapshot, bottom: nat, limit: nat, p: nat, size: nat, a: nat)
    requires Given(s, s', bottom, limit, p, size) && Foreign(s, bottom, limit, a)
    ensures Foreign(s', bottom, limit, a)
  {
    if bottom <= a < limit {
      var q: nat :| Held(s, q) && q <= a < q + s.block[q];
      assert Held(s', q);
    }
  }

  lemma WithoutMembers(list: seq<nat>, i: nat, rest: seq<nat>)
    requires i < |list| && rest == list[..i] + list[i + 1..]
    requires forall j, k :: 0 <= j < k < |list| ==> list[j] != list[k]
    ensures forall q :: q in rest <==> q in list && q != list[i]
  {
    forall q | q in list && q != list[i]
      ensures q in rest
    {
      var j :| 0 <= j < |list| && list[j] == q;
      assert rest[if j < i then j else j - 1] == q;
    }
  }

  lemma ReuseForeign(s: Snapshot, bottom: nat, limit: nat, i: nat, size: nat, a: nat)
    requires Packed(s, bottom, limit) && i < |s.free| && size <= s.block[s.free[i]]
    requires Foreign(s, bottom, limit, a)
    ensures Load(Reuse(s, i, size).mem, a) == Load(s.mem, a)
  {
    ForeignApart(s, bottom, limit, a, i);
    if i > 0 {
      ForeignApart(s, bottom, limit, a, i - 1);
    }
  }

  lemma ReuseGiven(s: Snapshot, bottom: nat, limit: nat, i: nat, size: nat)
    requires Packed(s, bottom, limit) && i < |s.free|
    requires Room(size) && size <= s.block[s.free[i]]
    ensures Given(s, Reuse(s, i, size), bottom, limit, s.free[i], size)
  {
    var b, s' := s.free[i], Reuse(s, i, size);
    WithoutMembers(s.free, i, s'.free);
    forall q: nat | Held(s, q)
      ensures Apart(b, size, q, s.block[q])
    {
      assert Apart(b, s.block[b], q, s.block[q]);
    }
    forall a: nat | Foreign(s, bottom, limit, a)
      ensures Load(s'.mem, a) == Load(s.mem, a)
    {
      ReuseForeign(s, bottom, limit, i, size, a);
    }
  }

  lemma BumpGiven(s: Snapshot, bottom: nat, limit: Word, size: nat)
    requires Packed(s, bottom, limit) && Room(size) && s.next + size <= limit
    ensures Given(s, Bump(s, size), bottom, limit, s.next, size)
  {
  }

  // --- The list operations on memory ---

  /** The search loop of `talloc` and `kalloc`: the list is walked through the address
      of the last link followed (`prev`, 0 standing for the list head itself). */
  method FindFit(mem: Memory, head: Word, size: Word, ghost s: Snapshot, ghost bottom: nat, ghost limit: nat)
    returns (prev: Word, curr: Word, ghost i: nat)
    requires Packed(s, bottom, limit) && mem == s.mem && head == s.head
    ensures i == FirstFit(s.block, s.free, size) && curr == Nth(s.free, FirstFit(s.block, s.free, size))
    ensures curr == 0 <==> i == |s.free|
    ensures (prev == 0 <==> i == 0) && (i > 0 ==> prev == s.free[i - 1])
  {
    hide Tidy;
    assert head == Nth(s.free, 0);
    prev, curr, i := 0, head, 0;
    while curr != 0
      invariant 0 <= i <= FirstFit(s.block, s.free, size)
      invariant curr == Nth(s.free, i)
      invariant (prev == 0 <==> i == 0) && (i > 0 ==> prev == s.free[i - 1])
      decreases |s.free| - i
    {
      FreeBlockAt(s, bottom, limit, i);
      if Load(mem, curr) >= size {
        return;
      }
      prev := curr;
      curr := After(mem, curr);
      i := i + 1;
    }
    if i < |s.free| {
      FreeBlockAt(s, bottom, limit, i);
    }
  }

  /** The reuse branch: bypass `curr` in the link that led to it, then zero it. */
  method Take(mem: Memory, head: Word, prev: Word, curr: Word, size: Word, ghost s: Snapshot, ghost i: nat)
    returns (mem1: Memory, head1: Word)
    requires mem == s.mem && head == s.head && i < |s.free| && curr == s.free[i]
    requires (prev == 0 <==> i == 0) && (i > 0 ==> prev == s.free[i - 1])
    ensures mem1 == Reuse(s, i, size).mem && head1 == Reuse(s, i, size).head
  {
    mem1, head1 := mem, head;
    if prev == 0 {
      head1 := After(mem, curr);
    } else {
      mem1 := mem[prev + 8 := After(mem, curr)];
    }
    mem1 := Zeroed(mem1, curr, size);
  }

  /** A block put on the front of the list, as `temp_free` and `kfree` do. */
  method Give(mem: Memory, head: Word, p: Word, size: Word, ghost s: Snapshot) returns (mem1: Memory)
    requires mem == s.mem && head == s.head
    ensures mem1 == Push(s, p, size).mem
  {
    mem1 := Zeroed(mem, p, size);
    mem1 := mem1[p := size];
    mem1 := mem1[p + 8 := head];
  }
}
