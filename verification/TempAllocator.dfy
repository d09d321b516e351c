/** The early-boot allocator of kernel/memory/kalloc.c: `talloc` and `temp_free`
    over an intrusive first-fit free list and a bump pointer. */
module TempAllocator {
  import opened Division
  import opened FreeList
  import opened Options
  import opened PhysicalMemory

  /** `(size + 0xFFF) & ~0xFFF` in 64-bit arithmetic. */
  function RoundUp(size: Word): (r: Word)
    ensures Aligned(r)
  {
    (size + 0xFFF) % 0x1_0000_0000_0000_0000 / 0x1000 * 0x1000
  }

  /** Rounding covers the request exactly when the addition does not wrap. */
  lemma RoundUpCovers(size: Word)
    ensures size <= 0xFFFF_FFFF_FFFF_F000 <==> size <= RoundUp(size)
    ensures size <= 0xFFFF_FFFF_FFFF_F000 ==> RoundUp(size) < size + 0x1000
    ensures size > 0xFFFF_FFFF_FFFF_F000 ==> RoundUp(size) == 0
  {
  }

  /** The allocator's state is consistent, and it deals in whole pages. */
  ghost predicate Sound(s: Snapshot, bottom: nat, limit: nat) {
    && Packed(s, bottom, limit)
    && Aligned(s.next)
    && (forall p :: p in s.block ==> Aligned(p) && Aligned(s.block[p]))
  }

  lemma PackedOf(s: Snapshot, bottom: nat, limit: nat)
    requires Sound(s, bottom, limit)
    ensures Packed(s, bottom, limit) && 0 < s.next <= limit < 0x1_0000_0000_0000_0000
  {
  }

  lemma ListedBlocks(s: Snapshot, bottom: nat, limit: nat)
    requires Sound(s, bottom, limit)
    ensures forall k :: 0 <= k < |s.free| ==> s.free[k] in s.block && Aligned(s.free[k])
  {
    hide Tidy, Linked;
  }

  lemma StoreSound(s: Snapshot, bottom: nat, limit: nat, a: nat, v: Word)
    requires Sound(s, bottom, limit) && Foreign(s, bottom, limit, a) && a % 8 == 0
    ensures Sound(s.(mem := s.mem[a := v]), bottom, limit)
  {
    hide Packed, Foreign;
    StorePacked(s, bottom, limit, a, v);
  }

  lemma ReuseSound(s: Snapshot, bottom: nat, limit: nat, i: nat, size: nat)
    requires Sound(s, bottom, limit) && i < |s.free|
    requires Aligned(size) && size <= s.block[s.free[i]]
    ensures Sound(Reuse(s, i, size), bottom, limit)
  {
    hide Packed, Aligned, Room;
    ListedBlocks(s, bottom, limit);
    RoomOfPages(size);
    ReusePacked(s, bottom, limit, i, size);
  }

  /** Whole pages have room for a list header. */
  lemma RoomOfPages(size: nat)
    requires Aligned(size)
    ensures Room(size)
  {
    DivModIs(size, 8, size / 0x1000 * 512, 0);
  }

  lemma BumpSound(s: Snapshot, bottom: nat, limit: nat, size: nat)
    requires Sound(s, bottom, limit) && Aligned(size) && s.next + size <= limit
    ensures Sound(Bump(s, size), bottom, limit)
  {
    PackedOf(s, bottom, limit);
    RoomOfPages(size);
    DivModIs(s.next + size, 0x1000, s.next / 0x1000 + size / 0x1000, 0);
    hide Packed, Room;
    BumpPacked(s, bottom, limit, size);
  }

  lemma PushSound(s: Snapshot, bottom: nat, limit: nat, p: Word)
    requires Sound(s, bottom, limit) && Held(s, p)
    ensures Sound(Push(s, p, s.block[p]), bottom, limit)
  {
    hide Packed;
    PushPacked(s, bottom, limit, p);
  }

  /** The 64-bit addition of the overflow check wraps and the check passes. */
  predicate Overruns(next: nat, limit: Word, size: nat) {
    0x1_0000_0000_0000_0000 <= next + size <= limit + 0x1_0000_0000_0000_0000
  }

  /** What is left of the allocator then: a bump pointer that has moved down. */
  ghost function Overrun(s: Snapshot, size: nat): Snapshot
    requires s.next + size >= 0x1_0000_0000_0000_0000
  {
    s.(mem := Zeroed(s.mem, s.next, size), next := s.next + size - 0x1_0000_0000_0000_0000,
       block := s.block[s.next := size])
  }

  /** What `talloc` returns (None for the panic) and leaves behind: first fit on
      the free list, else the bump pointer, else panic. */
  ghost function Allocation(s: Snapshot, limit: Word, size: nat): (Option<nat>, Snapshot)
    requires forall k :: 0 <= k < |s.free| ==> s.free[k] in s.block
  {
    var i := FirstFit(s.block, s.free, size);
    if i < |s.free| then (Some(s.free[i]), Reuse(s, i, size))
    else if s.next + size <= limit then (Some(s.next), Bump(s, size))
    else if Overruns(s.next, limit, size) then (Some(s.next), Overrun(s, size))
    else (None, s)
  }

  /** A region is handed over safely, and it is page aligned. */
  ghost predicate Handover(s: Snapshot, s': Snapshot, bottom: nat, limit: nat, p: nat, size: nat) {
    Aligned(p) && Given(s, s', bottom, limit, p, size)
  }

  lemma ReuseHandover(s: Snapshot, bottom: nat, limit: nat, i: nat, size: nat)
    requires Sound(s, bottom, limit) && i < |s.free|
    requires Aligned(size) && size <= s.block[s.free[i]]
    ensures Handover(s, Reuse(s, i, size), bottom, limit, s.free[i], size)
  {
    hide Sound, Packed, Given, Reuse, Aligned, Room;
    ListedBlocks(s, bottom, limit);
    PackedOf(s, bottom, limit);
    RoomOfPages(size);
    ReuseGiven(s, bottom, limit, i, size);
  }

  lemma BumpHandover(s: Snapshot, bottom: nat, limit: Word, size: nat)
    requires Sound(s, bottom, limit) && Aligned(size) && s.next + size <= limit
    ensures Handover(s, Bump(s, size), bottom, limit, s.next, size)
  {
    RoomOfPages(size);
    hide Given, Room;
    BumpGiven(s, bottom, limit, size);
  }

  /** Whatever `talloc` is asked for without overrunning, it either panics with nothing
      changed or hands over a region safely. */
  lemma AllocationSafe(s: Snapshot, bottom: nat, limit: Word, size: nat)
    requires Sound(s, bottom, limit) && Aligned(size)
    requires forall k :: 0 <= k < |s.free| ==> s.free[k] in s.block
    requires FirstFit(s.block, s.free, size) < |s.free| || !Overruns(s.next, limit, size)
    ensures var (r, s') := Allocation(s, limit, size);
            && Sound(s', bottom, limit)
            && (if r.Some? then Handover(s, s', bottom, limit, r.value, size) else s' == s)
  {
    hide Packed, Given, Reuse, Bump;
    var i := FirstFit(s.block, s.free, size);
    if i < |s.free| {
      ReuseSound(s, bottom, limit, i, size);
      ReuseHandover(s, bottom, limit, i, size);
    } else if s.next + size <= limit {
      BumpSound(s, bottom, limit, size);
      BumpHandover(s, bottom, limit, size);
    }
  }

  /** How many requests of one page can still be met. */
  ghost function PagesLeft(s: Snapshot, limit: nat): nat {
    |s.free| + if s.next <= limit then (limit - s.next) / 0x1000 else 0
  }

  /** A request of one page is met exactly if there is one left, and takes one. */
  lemma PageAllocation(s: Snapshot, bottom: nat, limit: Word)
    requires Sound(s, bottom, limit) && limit <= 0x1_0000_0000_0000
    requires forall k :: 0 <= k < |s.free| ==> s.free[k] in s.block
    ensures !Overruns(s.next, limit, 0x1000)
    ensures var (r, s') := Allocation(s, limit, 0x1000);
      if r.Some? then PagesLeft(s, limit) == PagesLeft(s', limit) + 1 else PagesLeft(s, limit) == 0 && s' == s
  {
    PackedOf(s, bottom, limit);
    if s.free != [] {
      WholePages(s, bottom, limit, s.free[0]);
      assert FirstFit(s.block, s.free, 0x1000) == 0;
    }
  }

  lemma WholePages(s: Snapshot, bottom: nat, limit: nat, p: nat)
    requires Sound(s, bottom, limit) && p in s.block
    ensures 0x1000 <= s.block[p]
  {
    hide Listed;
    assert Placed(s.block, bottom, s.next, p);
  }

  // --- Two requests the code does not survive ---

  /** `talloc` keeps the allocator sound exactly if it finds a fit or does not overrun:
      after an overrun the block handed out ends beyond the heap, and the bump pointer is
      back on memory that was given out before. */
  lemma AllocationExact(s: Snapshot, bottom: nat, limit: Word, size: nat)
    requires Sound(s, bottom, limit) && Aligned(size)
    requires forall k :: 0 <= k < |s.free| ==> s.free[k] in s.block
    ensures Sound(Allocation(s, limit, size).1, bottom, limit)
       <==> FirstFit(s.block, s.free, size) < |s.free| || !Overruns(s.next, limit, size)
  {
    var i := FirstFit(s.block, s.free, size);
    if i < |s.free| {
      ReuseSound(s, bottom, limit, i, size);
    } else if Overruns(s.next, limit, size) {
      OverrunUnsound(s, bottom, limit, size);
    } else {
      AllocationSafe(s, bottom, limit, size);
    }
  }

  lemma OverrunUnsound(s: Snapshot, bottom: nat, limit: Word, size: nat)
    requires Overruns(s.next, limit, size)
    ensures !Sound(Overrun(s, size), bottom, limit)
  {
    var s' := Overrun(s, size);
    assert s.next in s'.block && s'.block[s.next] == size;
    assert Packed(s', bottom, limit) ==> Placed(s'.block, bottom, s'.next, s.next);
  }

  /** A request of 2^64 - 4096 bytes overruns every heap: it is answered with the address
      behind the bump pointer, which moves down by a page, onto what was given out before,
      and the allocator is not sound afterwards. */
  lemma HugeRequestOverruns(s: Snapshot, bottom: nat, limit: Word)
    requires Sound(s, bottom, limit) && 0x1000 <= s.next
    requires forall k :: 0 <= k < |s.free| ==> s.free[k] in s.block
    requires limit < 0xFFFF_FFFF_FFFF_F000
    ensures var size := RoundUp(0xFFFF_FFFF_FFFF_F000);
      var (r, s') := Allocation(s, limit, size);
      r == Some(s.next) && s'.next == s.next - 0x1000 && !Sound(s', bottom, limit)
  {
    var size := RoundUp(0xFFFF_FFFF_FFFF_F000);
    assert size == 0xFFFF_FFFF_FFFF_F000;
    OverrunUnsound(s, bottom, limit, size);
  }

  /** `temp_free` keeps the allocator sound for a block of the heap exactly when the
      block is not empty: freeing what `talloc(0)` returned writes a list header
      into memory that belongs to nobody or to somebody else. */
  lemma EmptyFreeUnsound(s: Snapshot, bottom: nat, limit: nat, p: Word)
    ensures !Sound(Push(s, p, 0), bottom, limit)
  {
    var s' := Push(s, p, 0);
    assert s'.free[0] == p && Load(s'.mem, p) == 0;
  }

  class TempHeap {
    var mem: Memory
    var freeListHead: Word     // temp_free_list
    var nextFree: Word         // next_free_temp_memory
    const heapBottom: nat
    const heapLimit: Word
    ghost var block: map<nat, nat>
    ghost var free: seq<nat>

    ghost function Snap(): Snapshot
      reads this
    {
      Snapshot(mem, freeListHead, nextFree, block, free)
    }

    ghost predicate Valid()
      reads this
    {
      Sound(Snap(), heapBottom, heapLimit)
    }

    constructor (mem0: Memory, bottom: Word, limit: Word)
      requires 0 < bottom <= limit && Aligned(bottom)
      ensures Valid() && Snap() == Snapshot(mem0, 0, bottom, map[], [])
      ensures heapBottom == bottom && heapLimit == limit
    {
      mem := mem0;
      freeListHead := 0;
      nextFree := bottom;
      heapBottom, heapLimit := bottom, limit;
      block, free := map[], [];
    }

    /** A store through a client's pointer. */
    method Store(a: nat, v: Word)
      requires Valid() && Foreign(Snap(), heapBottom, heapLimit, a) && a % 8 == 0
      modifies this`mem
      ensures Valid() && mem == old(mem)[a := v]
    {
      StoreSound(Snap(), heapBottom, heapLimit, a, v);
      mem := mem[a := v];
    }

    /** `talloc`, for every request; the allocator stays sound exactly if the request does
        not overrun. */
    method Talloc(request: Word) returns (r: Option<nat>)
      requires Valid()
      modifies this
      ensures forall k :: 0 <= k < |old(free)| ==> old(free)[k] in old(block)
      ensures (r, Snap()) == Allocation(old(Snap()), heapLimit, RoundUp(request))
      ensures Valid() <==>
        FirstFit(old(block), old(free), RoundUp(request)) < |old(free)| || !Overruns(old(nextFree), heapLimit, RoundUp(request))
    {
      hide Sound, Reuse, Bump, Overrun, FirstFit, RoundUp;
      var size := RoundUp(request);
      ListedBlocks(Snap(), heapBottom, heapLimit);
      AllocationExact(Snap(), heapBottom, heapLimit, size);
      PackedOf(Snap(), heapBottom, heapLimit);
      var prev, curr, i := FindFit(mem, freeListHead, size, Snap(), heapBottom, heapLimit);
      if curr != 0 {
        TakeFit(prev, curr, size, i);
        return Some(curr);
      }
      if (nextFree + size) % 0x1_0000_0000_0000_0000 > heapLimit {
        return None;
      }
      WrapSum(nextFree, size);
      var result := TakeNext(size);
      return Some(result);
    }

    /** The bump branch of `talloc`. */
    method TakeNext(size: Word) returns (result: Word)
      modifies this
      ensures result == old(nextFree)
      ensures Snap() == if old(nextFree) + size < 0x1_0000_0000_0000_0000 then Bump(old(Snap()), size) else Overrun(old(Snap()), size)
    {
      WrapSum(nextFree, size);
      result := nextFree;
      nextFree := (nextFree + size) % 0x1_0000_0000_0000_0000;
      mem := Zeroed(mem, result, size);
      if size != 0 {
        block := block[result := size];
      }
    }

    lemma WrapSum(a: Word, b: Word)
      ensures (a + b) % 0x1_0000_0000_0000_0000
           == if a + b < 0x1_0000_0000_0000_0000 then a + b else a + b - 0x1_0000_0000_0000_0000
    {
    }

    /** The reuse branch of `talloc`. */
    method TakeFit(prev: Word, curr: Word, size: Word, ghost i: nat)
      requires i < |free| && curr == free[i] && (prev == 0 <==> i == 0) && (i > 0 ==> prev == free[i - 1])
      modifies this
      ensures Snap() == Reuse(old(Snap()), i, size)
    {
      mem, freeListHead := Take(mem, freeListHead, prev, curr, size, Snap(), i);
      block := if size == 0 then block - {curr} else block[curr := size];
      free := free[..i] + free[i + 1..];
    }

    /** `temp_free` of a held region, with the size it was requested with. */
    method TempFree(p: Word, request: Word)
      requires Valid() && Held(Snap(), p) && block[p] == RoundUp(request)
      modifies this
      ensures Valid()
      ensures Snap() == Push(old(Snap()), p, RoundUp(request))
    {
      PushSound(Snap(), heapBottom, heapLimit, p);
      var size := RoundUp(request);
      mem := Give(mem, freeListHead, p, size, Snap());
      freeListHead := p;
      free := [p] + free;
    }
  }
}
