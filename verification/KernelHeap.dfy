/** `kalloc` and `kfree` of kernel/memory/page_allocator.c: heaps that are chains of
    pages, each page with its own free list, bump pointer and size account. */
module KernelHeap {
  import opened Division
  import opened FreeList
  import opened Options
  import opened PageBitmap
  import opened PhysicalMemory

  const HEADER: nat := 32   // sizeof(mem_page)

  // --- One page ---

  ghost function HeldSize(s: Snapshot, a: nat): nat {
    if Held(s, a) then s.block[a] else 0
  }

  /** The sizes of the regions held at addresses below `n`, added up. */
  ghost function LiveSum(s: Snapshot, n: nat): nat {
    if n == 0 then 0 else LiveSum(s, n - 1) + HeldSize(s, n - 1)
  }

  lemma {:induction false} LiveSumChange(s: Snapshot, s': Snapshot, p: nat, n: nat)
    requires forall a: nat :: a != p ==> HeldSize(s', a) == HeldSize(s, a)
    ensures LiveSum(s', n) == LiveSum(s, n) + if p < n then HeldSize(s', p) - HeldSize(s, p) else 0
  {
    hide HeldSize;
    if n > 0 {
      LiveSumChange(s, s', p, n - 1);
    }
  }

  /** The end of the last region held below `n`. */
  ghost function LastEnd(s: Snapshot, bottom: nat, n: nat): nat {
    if n == 0 then bottom else if Held(s, n - 1) then n - 1 + s.block[n - 1] else LastEnd(s, bottom, n - 1)
  }

  lemma {:induction false} LastEndIs(s: Snapshot, bottom: nat, n: nat)
    ensures LastEnd(s, bottom, n) == bottom
         || exists q: nat :: q < n && Held(s, q) && LastEnd(s, bottom, n) == q + s.block[q]
  {
    hide Held;
    if n > 0 && !Held(s, n - 1) {
      LastEndIs(s, bottom, n - 1);
    }
  }

  /** Live sizes never add up to more than the room of the heap. */
  lemma {:induction false} LiveSumBound(s: Snapshot, bottom: nat, limit: nat, n: nat)
    requires Packed(s, bottom, limit)
    ensures bottom + LiveSum(s, n) <= LastEnd(s, bottom, n) <= limit
  {
    hide Listed;
    LastEndIs(s, bottom, n);
    if n > 0 {
      LiveSumBound(s, bottom, limit, n - 1);
      LastEndIs(s, bottom, n - 1);
      if Held(s, n - 1) {
        forall q: nat | q < n - 1 && Held(s, q)
          ensures q + s.block[q] <= n - 1
        {
          assert Apart(q, s.block[q], n - 1, s.block[n - 1]);
        }
        assert Placed(s.block, bottom, s.next, n - 1);
      }
    }
  }

  /** Handing over a region adds its size to the account. */
  lemma GivenSum(s: Snapshot, s': Snapshot, bottom: nat, limit: nat, p: nat, size: nat, n: nat)
    requires Packed(s, bottom, limit) && Given(s, s', bottom, limit, p, size) && Room(size) && p < n
    ensures LiveSum(s', n) == LiveSum(s, n) + size
  {
    hide Listed;
    assert Held(s, p) ==> Apart(p, size, p, s.block[p]);
    if size == 0 {
      assert forall a: nat :: HeldSize(s', a) == HeldSize(s, a);
    }
    LiveSumChange(s, s', p, n);
  }

  /** Taking one back subtracts it. */
  lemma PushSum(s: Snapshot, bottom: nat, limit: nat, p: Word, n: nat)
    requires Packed(s, bottom, limit) && Held(s, p) && p < n
    ensures LiveSum(Push(s, p, s.block[p]), n) == LiveSum(s, n) - s.block[p]
  {
    hide Listed;
    var s' := Push(s, p, s.block[p]);
    assert forall a: nat :: a != p ==> (a in s'.free <==> a in s.free);
    assert p == s'.free[0];
    LiveSumChange(s, s', p, n);
  }

  /** What a snapshot says depends only on the words of its own heap. */
  lemma PackedFrame(s: Snapshot, m: Memory, bottom: nat, limit: nat)
    requires Packed(s, bottom, limit)
    requires forall a: nat :: bottom <= a < limit ==> Load(m, a) == Load(s.mem, a)
    ensures Packed(s.(mem := m), bottom, limit)
  {
    forall i | 0 <= i < |s.free|
      ensures Load(m, s.free[i]) == Load(s.mem, s.free[i]) && After(m, s.free[i]) == After(s.mem, s.free[i])
    {
      FreeBlockAt(s, bottom, limit, i);
    }
  }

  lemma PushInside(s: Snapshot, bottom: nat, limit: nat, p: Word, a: nat)
    requires Packed(s, bottom, limit) && Held(s, p)
    requires a < p || p + s.block[p] <= a
    ensures Load(Push(s, p, s.block[p]).mem, a) == Load(s.mem, a)
  {
  }

  // --- All pages ---

  datatype Header = Header(next: Word, freeList: Word, nextFree: Word, size: Word)

  /** How a page is carved up; `rank` orders pages by age. */
  datatype Carving = Carving(block: map<nat, nat>, free: seq<nat>, rank: nat)

  /** A snapshot of every page heap: memory, the page bitmap, and the header and carving
      of every page that was given a header. */
  datatype Heap = Heap(mem: Memory, used: seq<bool>, info: map<nat, Header>, carve: map<nat, Carving>, clock: nat)

  ghost function View(h: Heap, p: nat): Snapshot
    requires p in h.info && p in h.carve
  {
    Snapshot(h.mem, h.info[p].freeList, h.info[p].nextFree, h.carve[p].block, h.carve[p].free)
  }

  ghost predicate PageSound(h: Heap, p: nat)
    requires p in h.info && p in h.carve
  {
    && Aligned(p) && 0 < p && p / PAGE_SIZE < |h.used| && h.used[p / PAGE_SIZE]
    && Packed(View(h, p), p + HEADER, p + PAGE_SIZE)
    && h.info[p].size == LiveSum(View(h, p), p + PAGE_SIZE)
  }

  /** Chains lead from older to younger pages, so they end. */
  ghost predicate NextSound(h: Heap, p: nat)
    requires p in h.info && p in h.carve
  {
    && h.carve[p].rank < h.clock
    && (h.info[p].next != 0 ==>
          && h.info[p].next in h.info && h.info[p].next in h.carve
          && h.carve[p].rank < h.carve[h.info[p].next].rank)
  }

  /** No page follows two others, so chains do not join. */
  ghost predicate Unshared(h: Heap) {
    forall p, q {:trigger h.info[p], h.info[q]} ::
      p in h.info && q in h.info && p != q && h.info[p].next == h.info[q].next ==> h.info[p].next == 0
  }

  ghost predicate HeapSound(h: Heap) {
    && h.info.Keys == h.carve.Keys
    && (forall p :: p in h.info ==> PageSound(h, p) && NextSound(h, p))
    && Unshared(h)
  }

  function Base(a: nat): nat { a / PAGE_SIZE * PAGE_SIZE }

  lemma BaseOf(p: nat, a: nat)
    requires Aligned(p) && p <= a < p + PAGE_SIZE
    ensures Base(a) == p
  {
    assert p == p / 0x1000 * 0x1000;
  }

  /** The region at `a` is held by a client. */
  ghost predicate Live(h: Heap, a: nat) {
    Base(a) in h.info && Base(a) in h.carve && Held(View(h, Base(a)), a)
  }

  ghost function SizeOf(h: Heap, a: nat): nat
    requires Live(h, a)
  {
    h.carve[Base(a)].block[a]
  }

  /** A word that belongs to clients: in a region of a heap page, or in a used page that
      is no heap page. */
  ghost predicate Clients(h: Heap, a: nat) {
    if Base(a) in h.info && Base(a) in h.carve
    then exists p: nat :: Held(View(h, Base(a)), p) && p <= a < p + h.carve[Base(a)].block[p]
    else a / PAGE_SIZE < |h.used| && h.used[a / PAGE_SIZE]
  }

  /** Page `p` may have been changed from `h` to `h'`, nothing else. */
  ghost predicate OnlyPage(h: Heap, h': Heap, p: nat)
    requires p in h.info && p in h.carve
  {
    && p in h'.info && p in h'.carve
    && h' == Heap(h'.mem, h.used, h.info[p := h'.info[p]], h.carve[p := h'.carve[p]], h.clock)
    && h'.info[p].next == h.info[p].next && h'.carve[p].rank == h.carve[p].rank
    && (forall a: nat :: a < p + HEADER || p + PAGE_SIZE <= a ==> Load(h'.mem, a) == Load(h.mem, a))
  }

  lemma OtherPageSound(h: Heap, h': Heap, p: nat, q: nat)
    requires p in h.info && p in h.carve && OnlyPage(h, h', p)
    requires q in h.info && q in h.carve && q != p && PageSound(h, q) && Aligned(p)
    ensures PageSound(h', q)
  {
    AlignedApart(p, q);
    PackedFrame(View(h, q), h'.mem, q + HEADER, q + PAGE_SIZE);
    assert View(h', q) == View(h, q).(mem := h'.mem);
    hide Packed;
    LiveSumChange(View(h, q), View(h', q), q + PAGE_SIZE, q + PAGE_SIZE);
  }

  lemma OnlyPageNext(h: Heap, h': Heap, p: nat, q: nat)
    requires p in h.info && p in h.carve && OnlyPage(h, h', p)
    requires q in h.info && q in h.carve && NextSound(h, q)
    ensures q in h'.info && q in h'.carve && NextSound(h', q)
  {
  }

  lemma OnlyPageUnshared(h: Heap, h': Heap, p: nat)
    requires p in h.info && p in h.carve && OnlyPage(h, h', p) && Unshared(h)
    ensures Unshared(h')
  {
    assert forall q :: q in h'.info ==> q in h.info && h'.info[q].next == h.info[q].next;
    forall q, r | q in h'.info && r in h'.info && q != r && h'.info[q].next == h'.info[r].next
      ensures h'.info[q].next == 0
    {
      assert h.info[q].next == h.info[r].next;
    }
  }

  /** A change to one page that leaves it sound leaves the heap sound. */
  lemma OnlyPageSound(h: Heap, h': Heap, p: nat)
    requires HeapSound(h) && p in h.info && OnlyPage(h, h', p) && PageSound(h', p) && Aligned(p)
    ensures HeapSound(h')
  {
    hide PageSound, NextSound, Unshared;
    OnlyPageUnshared(h, h', p);
    forall q | q in h'.info
      ensures PageSound(h', q) && NextSound(h', q)
    {
      OnlyPageNext(h, h', p, q);
      if q != p {
        OtherPageSound(h, h', p, q);
      }
    }
  }

  // --- What clients see ---

  /** The step from `h` to `h'` hands [r, r+size) of page `q` to a client: the region is
      inside the page and clear of its header, all zero, and apart from every region
      held before in any heap; nobody else gains or loses a region; and no word of a
      client changes. */
  ghost predicate Allocated(h: Heap, h': Heap, q: nat, r: nat, size: nat) {
    && q in h'.info && q + HEADER <= r && r + size <= q + PAGE_SIZE
    && (forall a: nat :: r <= a < r + size ==> Load(h'.mem, a) == 0)
    && (forall a: nat {:trigger Live(h, a)} :: Live(h, a) ==> Apart(r, size, a, SizeOf(h, a)))
    && (forall a: nat {:trigger Live(h', a)} :: Live(h', a) <==> Live(h, a) || (a == r && size != 0))
    && (forall a: nat {:trigger Live(h', a)} ::
          Live(h', a) ==> SizeOf(h', a) == if Live(h, a) then SizeOf(h, a) else size)
    && (forall a: nat {:trigger Clients(h, a)} :: Clients(h, a) ==> Load(h'.mem, a) == Load(h.mem, a))
  }

  lemma HeldInPage(h: Heap, p: nat, a: nat)
    requires p in h.info && p in h.carve && PageSound(h, p) && Held(View(h, p), a)
    ensures Base(a) == p && Live(h, a) && SizeOf(h, a) == h.carve[p].block[a]
    ensures p + HEADER <= a && a + SizeOf(h, a) <= p + PAGE_SIZE
  {
    assert Placed(h.carve[p].block, p + HEADER, h.info[p].nextFree, a);
    BaseOf(p, a);
  }

  /** Outside the page, liveness is untouched; inside, it is what the page says. */
  lemma LiveAcross(h: Heap, h': Heap, p: nat, a: nat)
    requires p in h.info && p in h.carve && OnlyPage(h, h', p)
    ensures Base(a) != p ==> (Live(h', a) <==> Live(h, a)) && (Live(h, a) ==> SizeOf(h', a) == SizeOf(h, a))
    ensures Base(a) == p ==> (Live(h, a) <==> Held(View(h, p), a)) && (Live(h', a) <==> Held(View(h', p), a))
  {
  }

  lemma ClientsForeign(h: Heap, p: nat, a: nat)
    requires p in h.info && p in h.carve && Aligned(p) && Clients(h, a)
    ensures Base(a) == p ==> Foreign(View(h, p), p + HEADER, p + PAGE_SIZE, a)
    ensures Base(a) != p ==> a < p || p + PAGE_SIZE <= a
  {
    if p <= a < p + PAGE_SIZE {
      BaseOf(p, a);
    }
  }

  lemma LiveApart(h: Heap, p: nat, r: nat, size: nat, a: nat)
    requires HeapSound(h) && p in h.info && Live(h, a)
    requires p <= r && r + size <= p + PAGE_SIZE
    requires Base(a) == p ==> Apart(r, size, a, SizeOf(h, a))
    ensures Apart(r, size, a, SizeOf(h, a))
  {
    hide Packed, LiveSum;
    var q := Base(a);
    assert PageSound(h, p) && PageSound(h, q);
    if q != p {
      hide PageSound, HeapSound;
      HeldInPage(h, q, a);
      AlignedApart(p, q);
    }
  }

  /** A safe hand-over within one page is one among all heaps. */
  lemma GivenAllocated(h: Heap, h': Heap, p: nat, r: nat, size: nat)
    requires HeapSound(h) && p in h.info && OnlyPage(h, h', p)
    requires Given(View(h, p), View(h', p), p + HEADER, p + PAGE_SIZE, r, size)
    ensures Allocated(h, h', p, r, size)
  {
    hide Packed, LiveSum, Unshared, NextSound;
    var s, s' := View(h, p), View(h', p);
    assert PageSound(h, p);
    hide HeapSound, PageSound;
    forall a: nat
      ensures Live(h', a) <==> Live(h, a) || (a == r && size != 0)
      ensures Live(h', a) ==> SizeOf(h', a) == if Live(h, a) then SizeOf(h, a) else size
    {
      LiveAcross(h, h', p, a);
      if a == r && size != 0 {
        BaseOf(p, r);
      }
    }
    forall a: nat | Live(h, a)
      ensures Apart(r, size, a, SizeOf(h, a))
    {
      LiveAcross(h, h', p, a);
      LiveApart(h, p, r, size, a);
    }
    forall a: nat | Clients(h, a)
      ensures Load(h'.mem, a) == Load(h.mem, a)
    {
      ClientsForeign(h, p, a);
    }
  }

  // --- The steps of kalloc and kfree ---

  ghost function WithPage(h: Heap, p: nat, s: Snapshot, size: Word): Heap
    requires p in h.info && p in h.carve && s.next < 0x1_0000_0000_0000_0000
  {
    h.(mem := s.mem, info := h.info[p := Header(h.info[p].next, s.head, s.next, size)],
       carve := h.carve[p := Carving(s.block, s.free, h.carve[p].rank)])
  }

  lemma WithPageOnly(h: Heap, p: nat, s: Snapshot, size: Word)
    requires p in h.info && p in h.carve && s.next < 0x1_0000_0000_0000_0000
    requires forall a: nat :: a < p + HEADER || p + PAGE_SIZE <= a ==> Load(s.mem, a) == Load(h.mem, a)
    ensures OnlyPage(h, WithPage(h, p, s, size), p) && View(WithPage(h, p, s, size), p) == s
  {
  }

  /** Replacing what a page says by another packed snapshot with the right account. */
  lemma WithPageSound(h: Heap, p: nat, s: Snapshot, size: Word)
    requires HeapSound(h) && p in h.info && Packed(s, p + HEADER, p + PAGE_SIZE) && size == LiveSum(s, p + PAGE_SIZE)
    requires s.next < 0x1_0000_0000_0000_0000
    requires forall a: nat :: a < p + HEADER || p + PAGE_SIZE <= a ==> Load(s.mem, a) == Load(h.mem, a)
    ensures HeapSound(WithPage(h, p, s, size))
    ensures OnlyPage(h, WithPage(h, p, s, size), p) && View(WithPage(h, p, s, size), p) == s
  {
    hide Packed, Unshared, NextSound, LiveSum, WithPage, OnlyPage;
    assert PageSound(h, p);
    assert p in h.carve;
    hide HeapSound;
    WithPageOnly(h, p, s, size);
    WithPageHere(h, p, s, size);
    hide PageSound;
    OnlyPageSound(h, WithPage(h, p, s, size), p);
  }

  lemma WithPageHere(h: Heap, p: nat, s: Snapshot, size: Word)
    requires p in h.info && p in h.carve && PageSound(h, p)
    requires Packed(s, p + HEADER, p + PAGE_SIZE) && size == LiveSum(s, p + PAGE_SIZE)
    requires s.next < 0x1_0000_0000_0000_0000
    ensures PageSound(WithPage(h, p, s, size), p)
  {
    hide Packed, LiveSum;
    assert View(WithPage(h, p, s, size), p) == s;
  }

  lemma GivenFrame(s: Snapshot, s': Snapshot, p: nat, r: nat, size: nat)
    requires Given(s, s', p + HEADER, p + PAGE_SIZE, r, size)
    ensures forall a: nat :: a < p + HEADER || p + PAGE_SIZE <= a ==> Load(s'.mem, a) == Load(s.mem, a)
  {
    forall a: nat | a < p + HEADER || p + PAGE_SIZE <= a
      ensures Load(s'.mem, a) == Load(s.mem, a)
    {
      assert Foreign(s, p + HEADER, p + PAGE_SIZE, a);
    }
  }

  /** A region given out of page `p`. */
  lemma GivenSafe(h: Heap, p: nat, s: Snapshot, r: nat, size: nat, total: Word)
    requires HeapSound(h) && p in h.info && Packed(s, p + HEADER, p + PAGE_SIZE)
    requires s.next < 0x1_0000_0000_0000_0000 && total == h.info[p].size + size
    requires Given(View(h, p), s, p + HEADER, p + PAGE_SIZE, r, size) && Room(size)
    ensures var h' := WithPage(h, p, s, total);
      HeapSound(h') && Allocated(h, h', p, r, size) && SameChains(h, h')
  {
    hide Packed, NextSound, Unshared, LiveSum;
    assert PageSound(h, p);
    hide HeapSound;
    GivenTotal(View(h, p), s, p, r, size);
    GivenFrame(View(h, p), s, p, r, size);
    hide PageSound, Given;
    WithPageSound(h, p, s, total);
    GivenAllocated(h, WithPage(h, p, s, total), p, r, size);
  }

  /** The account of a page cannot overflow. */
  lemma GivenBounds(h: Heap, p: nat, s: Snapshot, r: nat, size: nat)
    requires HeapSound(h) && p in h.info && Packed(s, p + HEADER, p + PAGE_SIZE)
    requires Given(View(h, p), s, p + HEADER, p + PAGE_SIZE, r, size) && Room(size)
    ensures s.next < 0x1_0000_0000_0000_0000 && h.info[p].size + size <= PAGE_SIZE
  {
    hide NextSound, Unshared, LiveSum, Given, Tidy, Listed;
    assert PageSound(h, p);
    hide HeapSound;
    GivenTotal(View(h, p), s, p, r, size);
  }

  lemma GivenTotal(s: Snapshot, s': Snapshot, p: nat, r: nat, size: nat)
    requires Packed(s, p + HEADER, p + PAGE_SIZE) && Packed(s', p + HEADER, p + PAGE_SIZE)
    requires Given(s, s', p + HEADER, p + PAGE_SIZE, r, size) && Room(size)
    ensures LiveSum(s', p + PAGE_SIZE) == LiveSum(s, p + PAGE_SIZE) + size <= PAGE_SIZE
  {
    hide Packed;
    LiveSumBound(s', p + HEADER, p + PAGE_SIZE, p + PAGE_SIZE);
    if size == 0 {
      assert forall a: nat :: HeldSize(s', a) == HeldSize(s, a);
      LiveSumChange(s, s', p + PAGE_SIZE, p + PAGE_SIZE);
    } else {
      GivenSum(s, s', p + HEADER, p + PAGE_SIZE, r, size, p + PAGE_SIZE);
    }
  }

  /** Chains only grow, and only by pages that were no heap pages before. */
  ghost predicate SameChains(h: Heap, h': Heap) {
    && (forall p {:trigger h.info[p]} {:trigger h'.info[p]} :: p in h.info ==>
          p in h'.info && (h'.info[p].next == h.info[p].next || (h.info[p].next == 0 && h'.info[p].next !in h.info)))
    && (forall p {:trigger h'.info[p]} :: p in h'.info && p !in h.info ==>
          h'.info[p].next == 0 || h'.info[p].next !in h.info)
  }

  /** Memory, live regions and the words of clients are the same. */
  ghost predicate SameClients(h: Heap, h': Heap) {
    && h'.mem == h.mem
    && (forall a: nat {:trigger Live(h, a)} {:trigger Live(h', a)} :: Live(h', a) <==> Live(h, a))
    && (forall a: nat {:trigger Live(h, a)} :: Live(h, a) ==> SizeOf(h', a) == SizeOf(h, a))
    && (forall a: nat {:trigger Clients(h, a)} :: Clients(h, a) ==> Clients(h', a))
  }

  /** From `h` to `h'` no page is carved differently; pages that are new are empty, and
      were not in use before. */
  ghost predicate SameCarving(h: Heap, h': Heap) {
    && h'.mem == h.mem && |h'.used| == |h.used|
    && (forall i :: 0 <= i < |h.used| && h.used[i] ==> h'.used[i])
    && (forall q {:trigger h.carve[q]} :: q in h.info && q in h.carve ==>
          q in h'.info && q in h'.carve && h'.carve[q].block == h.carve[q].block && h'.carve[q].free == h.carve[q].free)
    && (forall q {:trigger h'.carve[q]} :: q in h'.info && q in h'.carve && !(q in h.info && q in h.carve) ==>
          h'.carve[q].block == map[] && q / PAGE_SIZE < |h.used| && !h.used[q / PAGE_SIZE])
  }

  lemma SameCarvingAt(h: Heap, h': Heap, a: nat)
    requires SameCarving(h, h')
    ensures Live(h', a) <==> Live(h, a)
    ensures Live(h, a) ==> SizeOf(h', a) == SizeOf(h, a)
    ensures Clients(h, a) ==> Clients(h', a)
  {
    var q := Base(a);
    if q in h.info && q in h.carve {
      assert h.carve[q].block == h'.carve[q].block;
      assert forall p: nat :: Held(View(h', q), p) <==> Held(View(h, q), p);
    } else if q in h'.info && q in h'.carve {
      assert h'.carve[q].block == map[];
      assert q / PAGE_SIZE == a / PAGE_SIZE;
    }
  }

  lemma SameCarvingClients(h: Heap, h': Heap)
    requires SameCarving(h, h')
    ensures SameClients(h, h')
  {
    assert h'.mem == h.mem;
    hide SameCarving, Live, SizeOf, Clients;
    forall a: nat
      ensures Live(h', a) <==> Live(h, a)
      ensures Live(h, a) ==> SizeOf(h', a) == SizeOf(h, a)
      ensures Clients(h, a) ==> Clients(h', a)
    {
      SameCarvingAt(h, h', a);
    }
  }

  lemma AllocatedLater(h: Heap, h1: Heap, h2: Heap, q: nat, r: nat, size: nat)
    requires SameClients(h, h1) && Allocated(h1, h2, q, r, size)
    ensures Allocated(h, h2, q, r, size)
  {
    forall a: nat | Live(h, a)
      ensures Apart(r, size, a, SizeOf(h, a))
    {
      assert Live(h1, a);
    }
    forall a: nat
      ensures Live(h2, a) <==> Live(h, a) || (a == r && size != 0)
      ensures Live(h2, a) ==> SizeOf(h2, a) == if Live(h, a) then SizeOf(h, a) else size
    {
      assert Live(h1, a) <==> Live(h, a);
      assert Live(h2, a) <==> Live(h1, a) || (a == r && size != 0);
    }
    forall a: nat | Clients(h, a)
      ensures Load(h2.mem, a) == Load(h.mem, a)
    {
      assert Clients(h1, a);
    }
  }

  /** The bump pointer of `p` moved up to `n`, as `kalloc` does to align it. */
  ghost function Advanced(h: Heap, p: nat, n: Word): Heap
    requires p in h.info
  {
    h.(info := h.info[p := h.info[p].(nextFree := n)])
  }

  lemma AdvancedPage(h: Heap, p: nat, n: Word)
    requires p in h.info && p in h.carve && PageSound(h, p)
    requires h.info[p].nextFree <= n <= p + PAGE_SIZE && n % 8 == 0
    ensures PageSound(Advanced(h, p, n), p)
  {
    hide Packed;
    var s, s' := View(h, p), View(Advanced(h, p, n), p);
    AdvancedPacked(s, p, n);
    assert s' == s.(next := n);
    LiveSumChange(s, s', p + PAGE_SIZE, p + PAGE_SIZE);
  }

  lemma AdvancedSound(h: Heap, p: nat, n: Word)
    requires HeapSound(h) && p in h.info && h.info[p].nextFree <= n <= p + PAGE_SIZE && n % 8 == 0
    ensures HeapSound(Advanced(h, p, n)) && SameClients(h, Advanced(h, p, n)) && SameChains(h, Advanced(h, p, n))
  {
    hide Unshared, NextSound, Packed, LiveSum;
    var h' := Advanced(h, p, n);
    assert PageSound(h, p);
    AdvancedPage(h, p, n);
    assert OnlyPage(h, h', p);
    hide PageSound;
    SameCarvingClients(h, h');
    OnlyPageSound(h, h', p);
  }

  lemma AdvancedPacked(s: Snapshot, p: nat, n: nat)
    requires Packed(s, p + HEADER, p + PAGE_SIZE) && s.next <= n <= p + PAGE_SIZE && n % 8 == 0
    ensures Packed(s.(next := n), p + HEADER, p + PAGE_SIZE)
  {
    hide Listed;
    var s' := s.(next := n);
    assert Listed(s') by {
      AdvancedListed(s, n);
    }
    assert forall q :: q in s.block ==> Placed(s.block, p + HEADER, s.next, q);
  }

  lemma AdvancedListed(s: Snapshot, n: nat)
    requires Listed(s)
    ensures Listed(s.(next := n))
  {
  }

  /** A page that `palloc` has just taken, with its header set up. */
  ghost function NewPage(h: Heap, f: Word): Heap
    requires f / PAGE_SIZE < |h.used| && f + PAGE_SIZE < 0x1_0000_0000_0000_0000
  {
    h.(used := h.used[f / PAGE_SIZE := true], info := h.info[f := Header(0, 0, f + HEADER, 0)],
       carve := h.carve[f := Carving(map[], [], h.clock)], clock := h.clock + 1)
  }

  lemma {:induction false} EmptySum(s: Snapshot, n: nat)
    requires s.block == map[]
    ensures LiveSum(s, n) == 0
  {
    if n > 0 {
      EmptySum(s, n - 1);
    }
  }

  lemma NewPageSoundHere(h: Heap, f: Word)
    requires Aligned(f) && 0 < f && f / PAGE_SIZE < |h.used| && f + PAGE_SIZE < 0x1_0000_0000_0000_0000
    ensures PageSound(NewPage(h, f), f)
  {
    hide LiveSum, Packed, Aligned;
    var s := Snapshot(h.mem, 0, f + HEADER, map[], []);
    assert View(NewPage(h, f), f) == s;
    EmptySum(s, f + PAGE_SIZE);
    EmptyPacked(s, f);
  }

  lemma EmptyPacked(s: Snapshot, f: nat)
    requires Aligned(f) && f + PAGE_SIZE < 0x1_0000_0000_0000_0000
    requires s.head == 0 && s.next == f + HEADER && s.block == map[] && s.free == []
    ensures Packed(s, f + HEADER, f + PAGE_SIZE)
  {
    DivModIs(f + HEADER, 8, f / 0x1000 * 512 + 4, 0);
  }

  lemma NobodyNext(h: Heap, f: nat, q: nat)
    requires HeapSound(h) && f !in h.info && q in h.info
    ensures h.info[q].next != f || f == 0
  {
    hide PageSound, Unshared;
    assert NextSound(h, q);
  }

  lemma NewPageElsewhere(h: Heap, f: Word, q: nat)
    requires f / PAGE_SIZE < |h.used| && f + PAGE_SIZE < 0x1_0000_0000_0000_0000
    requires q in h.info && q in h.carve && q != f && h.info[q].next != f && PageSound(h, q) && NextSound(h, q)
    ensures PageSound(NewPage(h, f), q) && NextSound(NewPage(h, f), q)
  {
    hide Packed, LiveSum;
    assert View(NewPage(h, f), q) == View(h, q);
  }

  lemma PagesUsed(h: Heap)
    requires HeapSound(h)
    ensures forall q :: q in h.info ==> Base(q) == q && q / PAGE_SIZE < |h.used| && h.used[q / PAGE_SIZE]
  {
    hide Packed, NextSound, Unshared;
    forall q | q in h.info
      ensures Base(q) == q && q / PAGE_SIZE < |h.used| && h.used[q / PAGE_SIZE]
    {
      assert PageSound(h, q);
    }
  }

  lemma NewPagePages(h: Heap, f: Word, q: nat)
    requires HeapSound(h) && f !in h.info && q in h.info && 0 < f
    requires f / PAGE_SIZE < |h.used| && f + PAGE_SIZE < 0x1_0000_0000_0000_0000
    ensures PageSound(NewPage(h, f), q) && NextSound(NewPage(h, f), q)
  {
    hide PageSound, Unshared;
    NobodyNext(h, f, q);
    hide NextSound;
    NewPageElsewhere(h, f, q);
  }

  lemma NewPageClients(h: Heap, f: Word)
    requires f !in h.info && f !in h.carve && f / PAGE_SIZE < |h.used| && !h.used[f / PAGE_SIZE]
    requires f + PAGE_SIZE < 0x1_0000_0000_0000_0000
    ensures SameClients(h, NewPage(h, f))
  {
    SameCarvingClients(h, NewPage(h, f));
  }

  lemma NewPageKeys(h: Heap, f: Word)
    requires f / PAGE_SIZE < |h.used| && f + PAGE_SIZE < 0x1_0000_0000_0000_0000
    ensures NewPage(h, f).info.Keys == h.info.Keys + {f} && NewPage(h, f).carve.Keys == h.carve.Keys + {f}
  {
  }

  lemma NewPageHeap(h: Heap, f: Word)
    requires HeapSound(h) && f !in h.info && Aligned(f) && 0 < f
    requires f / PAGE_SIZE < |h.used| && f + PAGE_SIZE < 0x1_0000_0000_0000_0000
    ensures HeapSound(NewPage(h, f))
  {
    hide PageSound, NextSound, Unshared, NewPage;
    var h' := NewPage(h, f);
    NewPageKeys(h, f);
    NewPageUnshared(h, f);
    forall q | q in h'.info
      ensures PageSound(h', q) && NextSound(h', q)
    {
      if q == f {
        NewPageSoundHere(h, f);
        NewPageNext(h, f);
      } else {
        NewPagePages(h, f, q);
      }
    }
  }

  lemma NewPageSound(h: Heap, f: Word)
    requires HeapSound(h) && Aligned(f) && 0 < f && f / PAGE_SIZE < |h.used| && !h.used[f / PAGE_SIZE]
    requires f + PAGE_SIZE < 0x1_0000_0000_0000_0000
    ensures f !in h.info && HeapSound(NewPage(h, f)) && SameClients(h, NewPage(h, f))
  {
    PagesUsed(h);
    hide PageSound, NextSound, Unshared, SameClients, NewPage;
    assert f !in h.carve;
    hide HeapSound;
    NewPageClients(h, f);
    NewPageHeap(h, f);
  }

  lemma NewPageNext(h: Heap, f: Word)
    requires f / PAGE_SIZE < |h.used| && f + PAGE_SIZE < 0x1_0000_0000_0000_0000
    ensures NextSound(NewPage(h, f), f)
  {
  }

  lemma NewPageUnshared(h: Heap, f: Word)
    requires f !in h.info && f / PAGE_SIZE < |h.used| && f + PAGE_SIZE < 0x1_0000_0000_0000_0000 && Unshared(h)
    ensures Unshared(NewPage(h, f))
  {
  }

  /** `info->next = fresh`. */
  ghost function Extended(h: Heap, p: nat, f: Word): Heap
    requires p in h.info
  {
    h.(info := h.info[p := h.info[p].(next := f)])
  }

  lemma ExtendedPage(h: Heap, p: nat, f: Word, q: nat)
    requires p in h.info && f in h.info && f in h.carve && p in h.carve && h.carve[p].rank < h.carve[f].rank
    requires q in h.info && q in h.carve && PageSound(h, q) && NextSound(h, q)
    ensures PageSound(Extended(h, p, f), q) && NextSound(Extended(h, p, f), q)
  {
    hide Packed, LiveSum;
    assert View(Extended(h, p, f), q) == View(h, q);
  }

  lemma ExtendedUnshared(h: Heap, p: nat, f: Word)
    requires p in h.info && Unshared(h) && forall q :: q in h.info ==> h.info[q].next != f
    ensures Unshared(Extended(h, p, f))
  {
  }

  lemma ExtendedSound(h: Heap, p: nat, f: Word)
    requires HeapSound(h) && p in h.info && f in h.info && p != f
    requires h.carve[p].rank < h.carve[f].rank && h.info[p].next == 0
    requires forall q :: q in h.info ==> h.info[q].next != f
    ensures HeapSound(Extended(h, p, f)) && SameClients(h, Extended(h, p, f))
  {
    hide PageSound, NextSound, Unshared;
    var h' := Extended(h, p, f);
    forall q | q in h.info
      ensures PageSound(h', q) && NextSound(h', q)
    {
      ExtendedPage(h, p, f, q);
    }
    ExtendedUnshared(h, p, f);
    SameCarvingClients(h, h');
  }

  /** A chain ending in `p` grown by the free page `f`. */
  lemma GrownSound(h: Heap, p: nat, f: Word)
    requires HeapSound(h) && p in h.info && h.info[p].next == 0
    requires Aligned(f) && 0 < f && f / PAGE_SIZE < |h.used| && !h.used[f / PAGE_SIZE]
    requires f + PAGE_SIZE < 0x1_0000_0000_0000_0000
    ensures f !in h.info && p in NewPage(h, f).info
    ensures var h' := Extended(NewPage(h, f), p, f);
      HeapSound(h') && SameClients(h, h') && SameChains(h, h')
  {
    hide PageSound, Unshared, SameClients;
    NewPageSound(h, f);
    var h1 := NewPage(h, f);
    NobodyLeadsTo(h, f);
    assert NextSound(h, p);
    hide HeapSound, NextSound;
    ExtendedSound(h1, p, f);
    SameClientsTwice(h, h1, Extended(h1, p, f));
  }

  lemma NobodyLeadsTo(h: Heap, f: Word)
    requires HeapSound(h) && f !in h.info && 0 < f
    requires f / PAGE_SIZE < |h.used| && f + PAGE_SIZE < 0x1_0000_0000_0000_0000
    ensures forall q :: q in NewPage(h, f).info ==> NewPage(h, f).info[q].next != f
  {
    hide HeapSound;
    forall q | q in h.info
      ensures h.info[q].next != f
    {
      NobodyNext(h, f, q);
    }
  }

  lemma SameClientsTwice(h: Heap, h1: Heap, h2: Heap)
    requires SameClients(h, h1) && SameClients(h1, h2)
    ensures SameClients(h, h2)
  {
    forall a: nat
      ensures Live(h2, a) <==> Live(h, a)
      ensures Live(h, a) ==> SizeOf(h2, a) == SizeOf(h, a)
      ensures Clients(h, a) ==> Clients(h2, a)
    {
      assert Live(h1, a) <==> Live(h, a);
      assert Clients(h, a) ==> Clients(h1, a);
    }
  }

  // --- kfree ---

  /** The step from `h` to `h'` takes the region at `r` back: nobody else loses or gains
      one, and it is first on the free list of its own page. */
  ghost predicate Freed(h: Heap, h': Heap, r: nat)
    requires Live(h, r)
  {
    && (forall a: nat {:trigger Live(h', a)} :: Live(h', a) <==> Live(h, a) && a != r)
    && (forall a: nat {:trigger Live(h', a)} :: Live(h', a) ==> SizeOf(h', a) == SizeOf(h, a))
    && (forall a: nat {:trigger Clients(h, a)} ::
          Clients(h, a) && (a < r || r + SizeOf(h, r) <= a) ==> Load(h'.mem, a) == Load(h.mem, a))
    && Base(r) in h'.carve && h'.carve[Base(r)].free == [r] + h.carve[Base(r)].free
    && h'.carve.Keys == h.carve.Keys && forall q :: q in h.carve ==> h'.carve[q].block == h.carve[q].block
  }

  lemma PushTotal(s: Snapshot, p: nat, r: Word)
    requires Packed(s, p + HEADER, p + PAGE_SIZE) && Held(s, r)
    ensures Packed(Push(s, r, s.block[r]), p + HEADER, p + PAGE_SIZE)
    ensures s.block[r] <= LiveSum(s, p + PAGE_SIZE)
    ensures LiveSum(Push(s, r, s.block[r]), p + PAGE_SIZE) == LiveSum(s, p + PAGE_SIZE) - s.block[r]
  {
    assert Placed(s.block, p + HEADER, s.next, r);
    hide Packed;
    PushPacked(s, p + HEADER, p + PAGE_SIZE, r);
    PushSum(s, p + HEADER, p + PAGE_SIZE, r, p + PAGE_SIZE);
  }

  lemma PushSafe(h: Heap, p: nat, r: Word)
    requires HeapSound(h) && p in h.info && Held(View(h, p), r)
    ensures h.carve[p].block[r] <= h.info[p].size
    ensures var h' := WithPage(h, p, Push(View(h, p), r, h.carve[p].block[r]), h.info[p].size - h.carve[p].block[r]);
      HeapSound(h') && Live(h, r) && Freed(h, h', r)
  {
    hide Packed, NextSound, Unshared, LiveSum, PageSound, HeapSound, Push, WithPage, Freed, OnlyPage, Live;
    HeldHere(h, p, r);
    PushTotal(View(h, p), p, r);
    var s' := Push(View(h, p), r, h.carve[p].block[r]);
    forall a: nat | a < p + HEADER || p + PAGE_SIZE <= a
      ensures Load(s'.mem, a) == Load(h.mem, a)
    {
      PushInside(View(h, p), p + HEADER, p + PAGE_SIZE, r, a);
    }
    Pushed(View(h, p), r, h.carve[p].block[r]);
    WithPageSound(h, p, s', h.info[p].size - h.carve[p].block[r]);
    PushFreed(h, WithPage(h, p, s', h.info[p].size - h.carve[p].block[r]), p, r);
  }

  lemma HeldHere(h: Heap, p: nat, r: nat)
    requires HeapSound(h) && p in h.info && Held(View(h, p), r)
    ensures p in h.carve && Packed(View(h, p), p + HEADER, p + PAGE_SIZE)
    ensures h.info[p].size == LiveSum(View(h, p), p + PAGE_SIZE)
    ensures Base(r) == p && Live(h, r) && SizeOf(h, r) == h.carve[p].block[r]
    ensures p + HEADER <= r && r + h.carve[p].block[r] <= p + PAGE_SIZE
  {
    hide Packed, NextSound, Unshared, LiveSum;
    assert PageSound(h, p);
    HeldInPage(h, p, r);
  }

  lemma PushFreed(h: Heap, h': Heap, p: nat, r: Word)
    requires p in h.info && p in h.carve && OnlyPage(h, h', p) && Held(View(h, p), r) && Base(r) == p && Live(h, r)
    requires h.carve[p].block[r] < 0x1_0000_0000_0000_0000
    requires Packed(View(h, p), p + HEADER, p + PAGE_SIZE)
    requires View(h', p) == Push(View(h, p), r, h.carve[p].block[r])
    ensures Freed(h, h', r)
  {
    hide Packed, Push, OnlyPage;
    var s, n := View(h, p), h.carve[p].block[r];
    Pushed(s, r, n);
    assert forall a :: a in [r] + s.free <==> a == r || a in s.free;
    forall a: nat
      ensures Live(h', a) <==> Live(h, a) && a != r
      ensures Live(h', a) ==> SizeOf(h', a) == SizeOf(h, a)
    {
      LiveAcross(h, h', p, a);
    }
    forall a: nat | a < r || r + n <= a
      ensures Load(h'.mem, a) == Load(h.mem, a)
    {
      PushInside(s, p + HEADER, p + PAGE_SIZE, r, a);
    }
    OnlyCarved(h, h', p);
  }

  lemma OnlyCarved(h: Heap, h': Heap, p: nat)
    requires p in h.info && p in h.carve && OnlyPage(h, h', p)
    ensures p in h'.carve && h'.carve.Keys == h.carve.Keys
    ensures forall q :: q in h.carve && q != p ==> h'.carve[q] == h.carve[q]
  {
  }

  // --- Sizes and alignments ---

  /** ALIGN_16B and ALIGN_64B of kernel/memory/page_allocator.h; requests at ALIGN_4KB
      are never served from within a page. */
  predicate Alignment(a: nat) { a == 16 || a == 64 }

  predicate Multiple(x: nat, a: nat)
    requires Alignment(a)
  {
    if a == 16 then x % 16 == 0 else x % 64 == 0
  }

  /** `(x + a - 1) & ~(a - 1)` in 64-bit arithmetic. */
  function AlignUp(x: Word, a: nat): (r: Word)
    requires Alignment(a)
    ensures Multiple(r, a) && r % 16 == 0
  {
    if a == 16 then
      var n := (x + 15) % 0x1_0000_0000_0000_0000 / 16;
      DivModIs(n * 16, 16, n, 0);
      n * 16
    else
      var n := (x + 63) % 0x1_0000_0000_0000_0000 / 64;
      DivModIs(n * 64, 64, n, 0);
      DivModIs(n * 64, 16, n * 4, 0);
      n * 64
  }

  lemma AlignUpLeast(x: Word, a: nat)
    requires Alignment(a) && x + 64 < 0x1_0000_0000_0000_0000
    ensures x <= AlignUp(x, a) < x + a
  {
  }

  /** Rounding covers a size exactly when the addition does not wrap. */
  lemma AlignUpCovers(x: Word, a: nat)
    requires Alignment(a)
    ensures x <= AlignUp(x, a) <==> x <= 0x1_0000_0000_0000_0000 - a
    ensures x <= 0x1_0000_0000_0000_0000 - a ==> AlignUp(x, a) < x + a
    ensures x > 0x1_0000_0000_0000_0000 - a ==> AlignUp(x, a) == 0
  {
  }

  lemma AlignUpInPage(x: Word, a: nat, p: nat)
    requires Alignment(a) && Aligned(p) && x <= p + PAGE_SIZE && p + 2 * PAGE_SIZE < 0x1_0000_0000_0000_0000
    ensures x <= AlignUp(x, a) <= p + PAGE_SIZE
  {
    AlignUpLeast(x, a);
    var y := AlignUp(x, a);
    hide AlignUp;
    LastMultiple(y, a, p);
  }

  lemma LastMultiple(y: nat, a: nat, p: nat)
    requires Alignment(a) && Aligned(p) && Multiple(y, a) && y < p + PAGE_SIZE + a
    ensures y <= p + PAGE_SIZE
  {
    if a == 16 {
      LastUnit(y, y / 16, p, p / 0x1000, 16, 256);
    } else {
      LastUnit(y, y / 64, p, p / 0x1000, 64, 64);
    }
  }

  lemma LastUnit(y: nat, k: nat, p: nat, u: nat, a: nat, n: nat)
    requires y == a * k && p == 0x1000 * u && y < p + 0x1000 + a
    requires (a == 16 && n == 256) || (a == 64 && n == 64)
    ensures y <= p + 0x1000
  {
    if a == 16 {
      assert k <= n * (u + 1);
    } else {
      assert k <= n * (u + 1);
    }
  }

  lemma RoundedTwice(x: Word, a: nat)
    requires Alignment(a) && Multiple(x, a) && x < PAGE_SIZE
    ensures AlignUp(x, a) == x
  {
    hide AlignUp, Multiple;
    AlignUpLeast(x, a);
    var j := MultipleOf(x, a);
    var k := MultipleOf(AlignUp(x, a), a);
  }

  /** A blank page has room for a rounded size below a page exactly if it is not 4080
      bytes at alignment 16: behind the 32-byte header there are only 4064. */
  predicate Fits(size: nat, a: nat) { !(a == 16 && size == 4080) }

  lemma BlankPageFits(p: nat, size: nat, a: nat)
    requires Alignment(a) && Aligned(p) && p + 2 * PAGE_SIZE < 0x1_0000_0000_0000_0000
    requires size < PAGE_SIZE && Multiple(size, a)
    ensures AlignUp(p + HEADER, a) + size <= p + PAGE_SIZE <==> Fits(size, a)
  {
    AlignUpLeast(p + HEADER, a);
    BlankStart(p, p / 0x1000, AlignUp(p + HEADER, a), a);
    hide AlignUp;
  }

  lemma BlankStart(p: nat, u: nat, y: nat, a: nat)
    requires Alignment(a) && p == 0x1000 * u && Multiple(y, a) && p + HEADER <= y < p + HEADER + a
    ensures y == if a == 16 then p + HEADER else p + 64
  {
    var k := MultipleOf(y, a);
    hide Multiple;
    assert if a == 16 then k == 256 * u + 2 else k == 64 * u + 1;
  }

  /** The page `n` links down the chain from `p`. */
  ghost function Hop(h: Heap, p: nat, n: nat): nat
    decreases n
  {
    if n == 0 || p !in h.info then p else Hop(h, h.info[p].next, n - 1)
  }

  lemma SameRefl(h: Heap)
    ensures SameClients(h, h) && SameChains(h, h)
  {
  }

  lemma NextKept(h: Heap, h': Heap, p: nat)
    requires SameChains(h, h') && p in h.info && h.info[p].next != 0
    ensures p in h'.info && h'.info[p].next == h.info[p].next
  {
  }

  lemma SameChainsTwice(h: Heap, h1: Heap, h2: Heap)
    requires SameChains(h, h1) && SameChains(h1, h2)
    ensures SameChains(h, h2)
  {
    forall p {:trigger h2.info[p]} | p in h.info
      ensures p in h2.info && (h2.info[p].next == h.info[p].next || (h.info[p].next == 0 && h2.info[p].next !in h.info))
    {
      assert h1.info[p] == h1.info[p];
      PagesKept(h, h1);
    }
    forall p {:trigger h2.info[p]} | p in h2.info && p !in h.info
      ensures h2.info[p].next == 0 || h2.info[p].next !in h.info
    {
      PagesKept(h, h1);
      if p in h1.info {
        assert h1.info[p] == h1.info[p];
      }
    }
  }

  /** A step that clients do not see, then an allocation or the lack of one. */
  lemma Later(h: Heap, h1: Heap, h2: Heap, q: nat, r: Option<Word>, size: nat)
    requires SameClients(h, h1) && SameChains(h, h1) && SameChains(h1, h2)
    requires if r.Some? then Allocated(h1, h2, q, r.value, size) else SameClients(h1, h2)
    ensures SameChains(h, h2)
    ensures if r.Some? then Allocated(h, h2, q, r.value, size) else SameClients(h, h2)
  {
    hide SameClients, SameChains, Allocated;
    SameChainsTwice(h, h1, h2);
    if r.Some? {
      AllocatedLater(h, h1, h2, q, r.value, size);
    } else {
      SameClientsTwice(h, h1, h2);
    }
  }

  lemma AllocatedFits(h: Heap, h': Heap, q: nat, r: nat, size: nat, a: nat)
    requires Allocated(h, h', q, r, size)
    ensures Fits(size, a)
  {
  }

  lemma AlignedStart(h: Heap, p: nat, a: nat)
    requires HeapSound(h) && p in h.info && |h.used| == 64 * WORDS && Alignment(a)
    ensures Aligned(p) && p + 2 * PAGE_SIZE < 0x1_0000_0000_0000_0000
    ensures AlignUp(h.info[p].nextFree, a) <= p + PAGE_SIZE
    ensures var h' := Advanced(h, p, AlignUp(h.info[p].nextFree, a));
      HeapSound(h') && SameClients(h, h') && SameChains(h, h')
  {
    hide HeapSound, SameClients, SameChains, Packed, AlignUp;
    hide Aligned, Multiple;
    PageAt(h, p);
    PageLow(h, p);
    AlignUpInPage(h.info[p].nextFree, a, p);
    AdvancedSound(h, p, AlignUp(h.info[p].nextFree, a));
  }

  lemma NothingToReuse(h: Heap, p: nat, size: nat)
    ensures Blank(h, p) ==> Reusable(h, p, size).None?
  {
  }

  lemma RoomOfMultiple(size: nat, a: nat)
    requires Alignment(a) && Multiple(size, a)
    ensures Room(size)
  {
    var k := MultipleOf(size, a);
    DivModIs(size, 8, if a == 16 then 2 * k else 8 * k, 0);
  }

  lemma MultipleOf(x: nat, a: nat) returns (k: nat)
    requires Alignment(a) && Multiple(x, a)
    ensures x == if a == 16 then 16 * k else 64 * k
  {
    k := if a == 16 then x / 16 else x / 64;
  }

  lemma PageLow(h: Heap, p: nat)
    requires Aligned(p) && p / PAGE_SIZE < |h.used| == 64 * WORDS
    ensures p + 2 * PAGE_SIZE < 0x1_0000_0000_0000_0000
  {
  }

  ghost predicate Blank(h: Heap, p: nat) {
    p in h.info && p in h.carve && h.info[p].freeList == 0 && h.info[p].nextFree == p + HEADER && h.carve[p].free == []
  }

  lemma PageAt(h: Heap, p: nat)
    requires HeapSound(h) && p in h.info
    ensures p in h.carve && Aligned(p) && p / PAGE_SIZE < |h.used|
    ensures Packed(View(h, p), p + HEADER, p + PAGE_SIZE)
    ensures p + HEADER <= h.info[p].nextFree <= p + PAGE_SIZE && h.info[p].nextFree % 8 == 0
    ensures forall k :: 0 <= k < |h.carve[p].free| ==> h.carve[p].free[k] in h.carve[p].block
    ensures h.carve[p].rank < h.clock
    ensures h.info[p].next != 0 ==>
      h.info[p].next in h.info && h.info[p].next in h.carve && h.carve[p].rank < h.carve[h.info[p].next].rank
  {
    hide LiveSum, Unshared;
    assert PageSound(h, p) && NextSound(h, p);
  }

  /** First fit on the free list of page `p`. */
  ghost function Reusable(h: Heap, p: nat, size: nat): Option<nat> {
    if p in h.info && p in h.carve && forall k :: 0 <= k < |h.carve[p].free| ==> h.carve[p].free[k] in h.carve[p].block
    then
      var i := FirstFit(h.carve[p].block, h.carve[p].free, size);
      if i < |h.carve[p].free| then Some(h.carve[p].free[i]) else None
    else None
  }

  // --- The chain of one heap ---

  /** Page `q` is some number of links down the chain from `p`. */
  ghost predicate OnChain(h: Heap, p: nat, q: nat) {
    exists n: nat :: Hop(h, p, n) == q
  }

  lemma HopOnChain(h: Heap, p: nat, n: nat)
    ensures OnChain(h, p, Hop(h, p, n))
  {
  }

  lemma ChainNext(h: Heap, p: nat, q: nat)
    requires p in h.info && OnChain(h, h.info[p].next, q)
    ensures OnChain(h, p, q)
  {
    var n: nat :| Hop(h, h.info[p].next, n) == q;
    assert Hop(h, p, n + 1) == q;
  }

  lemma {:induction false} HopRank(h: Heap, p: nat, n: nat)
    requires HeapSound(h) && p in h.info && Hop(h, p, n) in h.info
    ensures p in h.carve && Hop(h, p, n) in h.carve && h.carve[p].rank + n <= h.carve[Hop(h, p, n)].rank
    decreases n
  {
    hide HeapSound;
    PageAt(h, p);
    if n > 0 {
      NoPageZero(h);
      assert 0 !in h.info ==> Hop(h, 0, n - 1) == 0;
      if h.info[p].next != 0 {
        HopRank(h, h.info[p].next, n - 1);
      }
    }
  }

  lemma NoPageZero(h: Heap)
    requires HeapSound(h)
    ensures 0 !in h.info
  {
    hide Packed, LiveSum, Unshared, NextSound;
    assert forall p :: p in h.info ==> PageSound(h, p);
  }

  /** A page is not among its own successors. */
  lemma NotBehindItself(h: Heap, p: nat)
    requires HeapSound(h) && p in h.info
    ensures !OnChain(h, h.info[p].next, p)
  {
    hide HeapSound;
    if OnChain(h, h.info[p].next, p) {
      var n: nat :| Hop(h, h.info[p].next, n) == p;
      assert Hop(h, p, n + 1) == p;
      HopRank(h, p, n + 1);
    }
  }

  ghost predicate PageKept(h: Heap, h': Heap, q: nat) {
    q in h.info && q in h.carve ==>
      q in h'.info && q in h'.carve && h'.info[q] == h.info[q] && h'.carve[q] == h.carve[q]
  }

  /** From `h` to `h'` no page changes, except `p` perhaps, ... */
  ghost predicate OthersKept(h: Heap, h': Heap, p: nat) {
    forall q :: q != p ==> PageKept(h, h', q)
  }

  /** ... or except those of the heap at `p`. */
  ghost predicate OtherHeapsKept(h: Heap, h': Heap, p: nat) {
    forall q :: !OnChain(h', p, q) ==> PageKept(h, h', q)
  }

  lemma OneKept(h: Heap, h': Heap, p: nat)
    requires OthersKept(h, h', p)
    ensures OtherHeapsKept(h, h', p)
  {
    HopOnChain(h', p, 0);
  }

  /** A step on page `p`, then one on the rest of its chain. */
  lemma ChainKept(h: Heap, h1: Heap, h2: Heap, p: nat, next: nat)
    requires OthersKept(h, h1, p) && OtherHeapsKept(h1, h2, next)
    requires next == p || (p in h2.info && h2.info[p].next == next)
    ensures OtherHeapsKept(h, h2, p)
  {
    HopOnChain(h2, p, 0);
    forall q | !OnChain(h2, p, q)
      ensures PageKept(h, h2, q)
    {
      assert PageKept(h, h1, q);
      if OnChain(h2, next, q) && next != p {
        ChainNext(h2, p, q);
      }
      assert PageKept(h1, h2, q);
    }
  }

  // --- Alignment of the blocks of one heap ---

  /** Every block ever carved out of page `q` starts at a multiple of `a`. */
  ghost predicate PageGrid(carve: map<nat, Carving>, q: nat, a: nat)
    requires Alignment(a)
  {
    q in carve ==> forall b :: b in carve[q].block ==> Multiple(b, a)
  }

  /** ... and so in every page of the heap at `p`: it has served one alignment only. */
  ghost predicate ChainGrid(h: Heap, p: nat, a: nat)
    requires Alignment(a)
  {
    forall n: nat {:trigger Hop(h, p, n)} :: PageGrid(h.carve, Hop(h, p, n), a)
  }

  lemma BumpGrid(carve: map<nat, Carving>, p: nat, s: Snapshot, size: nat, a: nat)
    requires Alignment(a) && PageGrid(carve, p, a) && p in carve && s.block == carve[p].block && Multiple(s.next, a)
    requires s.next + size < 0x1_0000_0000_0000_0000
    ensures PageGrid(carve[p := Carving(Bump(s, size).block, Bump(s, size).free, carve[p].rank)], p, a)
  {
  }

  lemma ReuseGrid(carve: map<nat, Carving>, p: nat, s: Snapshot, i: nat, size: nat, a: nat)
    requires Alignment(a) && PageGrid(carve, p, a) && p in carve && s.block == carve[p].block && i < |s.free|
    requires s.free[i] in s.block
    ensures Multiple(s.free[i], a)
    ensures PageGrid(carve[p := Carving(Reuse(s, i, size).block, Reuse(s, i, size).free, carve[p].rank)], p, a)
  {
  }

  lemma ChainGridHere(h: Heap, p: nat, a: nat)
    requires Alignment(a) && ChainGrid(h, p, a)
    ensures PageGrid(h.carve, p, a)
    ensures p in h.info ==> ChainGrid(h, h.info[p].next, a)
  {
    assert Hop(h, p, 0) == p;
    if p in h.info {
      forall n: nat {:trigger Hop(h, h.info[p].next, n)}
        ensures PageGrid(h.carve, Hop(h, h.info[p].next, n), a)
      {
        assert Hop(h, p, n + 1) == Hop(h, h.info[p].next, n);
      }
    }
  }

  lemma ChainGridFrom(h: Heap, p: nat, a: nat)
    requires Alignment(a) && p in h.info && PageGrid(h.carve, p, a) && ChainGrid(h, h.info[p].next, a)
    ensures ChainGrid(h, p, a)
  {
    forall n: nat {:trigger Hop(h, p, n)}
      ensures PageGrid(h.carve, Hop(h, p, n), a)
    {
      assert n > 0 ==> Hop(h, p, n) == Hop(h, h.info[p].next, n - 1);
    }
  }

  /** No page is linked differently. */
  ghost predicate SameLinks(h: Heap, h': Heap) {
    h'.info.Keys == h.info.Keys && forall q {:trigger h'.info[q]} :: q in h.info ==> h'.info[q].next == h.info[q].next
  }

  lemma {:induction false} SameLinksHop(h: Heap, h': Heap, p: nat, n: nat)
    requires SameLinks(h, h')
    ensures Hop(h', p, n) == Hop(h, p, n)
    decreases n
  {
    if n > 0 && p in h.info {
      SameLinksHop(h, h', h.info[p].next, n - 1);
    }
  }

  /** A step on page `p` alone. */
  lemma ChainGridStep(h: Heap, h': Heap, p: nat, a: nat)
    requires SameLinks(h, h') && OthersKept(h, h', p) && h.info.Keys == h.carve.Keys == h'.carve.Keys
    requires Alignment(a) && ChainGrid(h, p, a) && PageGrid(h'.carve, p, a)
    ensures ChainGrid(h', p, a)
  {
    forall n: nat {:trigger Hop(h', p, n)}
      ensures PageGrid(h'.carve, Hop(h', p, n), a)
    {
      SameLinksHop(h, h', p, n);
      var q := Hop(h, p, n);
      assert PageGrid(h.carve, q, a);
      assert q != p ==> PageKept(h, h', q);
    }
  }

  /** A heap of one blank page has served no alignment yet. */
  lemma BlankGrid(h: Heap, f: nat, a: nat)
    requires HeapSound(h) && Alignment(a) && f in h.info && f in h.carve && h.info[f].next == 0 && h.carve[f].block == map[]
    ensures ChainGrid(h, f, a)
  {
    NoPageZero(h);
    KeysAgree(h);
    hide HeapSound, PageGrid;
    EmptyGrid(h.carve, f, a);
    EmptyGrid(h.carve, 0, a);
    forall n: nat {:trigger Hop(h, f, n)}
      ensures PageGrid(h.carve, Hop(h, f, n), a)
    {
      assert n > 0 ==> Hop(h, f, n) == Hop(h, 0, n - 1) == 0;
    }
  }

  lemma EmptyGrid(carve: map<nat, Carving>, q: nat, a: nat)
    requires Alignment(a) && (q in carve ==> carve[q].block == map[])
    ensures PageGrid(carve, q, a)
  {
  }

  lemma KeysAgree(h: Heap)
    requires HeapSound(h)
    ensures h.info.Keys == h.carve.Keys
  {
    hide PageSound, NextSound, Unshared;
  }

  /** One step on page `p`, which keeps the page's own grid, ... */
  lemma StepGrid(h: Heap, h': Heap, p: nat, a: nat)
    requires HeapSound(h) && HeapSound(h') && SameLinks(h, h') && OthersKept(h, h', p) && Alignment(a)
    requires PageGrid(h.carve, p, a) ==> PageGrid(h'.carve, p, a)
    ensures OtherHeapsKept(h, h', p)
    ensures ChainGrid(h, p, a) ==> PageGrid(h.carve, p, a) && ChainGrid(h', p, a)
  {
    KeysAgree(h);
    KeysAgree(h');
    hide HeapSound, PageGrid, OtherHeapsKept, ChainGrid;
    OneKept(h, h', p);
    if ChainGrid(h, p, a) {
      ChainGridHere(h, p, a);
      ChainGridStep(h, h', p, a);
    }
  }

  /** ... and one on the rest of the chain. */
  lemma NextGrid(h: Heap, h1: Heap, h2: Heap, p: nat, next: nat, a: nat)
    requires HeapSound(h2) && OthersKept(h, h1, p) && OtherHeapsKept(h1, h2, next)
    requires p in h1.info && p in h1.carve && p in h2.info && h2.info[p].next == next && Alignment(a)
    requires PageGrid(h.carve, p, a) ==> PageGrid(h1.carve, p, a)
    ensures OtherHeapsKept(h, h2, p)
    ensures ChainGrid(h, p, a) && ChainGrid(h2, next, a) ==> ChainGrid(h2, p, a)
  {
    KeysAgree(h2);
    NotBehindItself(h2, p);
    ChainKept(h, h1, h2, p, next);
    assert PageKept(h1, h2, p);
    hide HeapSound, ChainGrid, OtherHeapsKept, OthersKept, OnChain;
    if ChainGrid(h, p, a) && ChainGrid(h2, next, a) {
      ChainGridHere(h, p, a);
      ChainGridFrom(h2, p, a);
    }
  }

  /** The rest of the chain, old or new, has the alignment of the whole. */
  lemma NextStarts(h: Heap, h1: Heap, p: nat, a: nat)
    requires HeapSound(h1) && Alignment(a) && p in h.info && p in h1.info && (h1 == h || Fresh(h1, h1.info[p].next))
    ensures ChainGrid(h, p, a) ==> ChainGrid(h1, h1.info[p].next, a)
  {
    hide HeapSound, ChainGrid;
    if h1 == h {
      if ChainGrid(h, p, a) {
        ChainGridHere(h, p, a);
      }
    } else {
      BlankGrid(h1, h1.info[p].next, a);
    }
  }

  ghost predicate Fresh(h: Heap, f: nat) {
    f in h.info && f in h.carve && h.info[f].next == 0 && h.carve[f].block == map[]
  }

  lemma SameGrid(carve: map<nat, Carving>, carve': map<nat, Carving>, p: nat, a: nat)
    requires Alignment(a) && p in carve && p in carve' && carve'[p] == carve[p]
    ensures PageGrid(carve, p, a) ==> PageGrid(carve', p, a)
  {
  }

  lemma SameKept(h: Heap, p: nat)
    ensures OthersKept(h, h, p) && SameLinks(h, h)
  {
  }

  lemma ExtendedKept(h: Heap, p: nat, f: Word)
    requires HeapSound(h) && f !in h.info && p in h.info
    requires f / PAGE_SIZE < |h.used| && f + PAGE_SIZE < 0x1_0000_0000_0000_0000
    ensures var h' := Extended(NewPage(h, f), p, f);
      && OthersKept(h, h', p) && p in h.carve && p in h'.carve && h'.carve[p] == h.carve[p]
      && f in h'.carve && h'.carve[f].block == map[]
  {
    KeysAgree(h);
    hide HeapSound;
    forall q | q != p
      ensures PageKept(h, Extended(NewPage(h, f), p, f), q)
    {
      ExtendedElsewhere(h, p, f, q);
    }
    hide OthersKept;
  }

  lemma ExtendedElsewhere(h: Heap, p: nat, f: Word, q: nat)
    requires f !in h.info && f !in h.carve && p in h.info && q != p
    requires f / PAGE_SIZE < |h.used| && f + PAGE_SIZE < 0x1_0000_0000_0000_0000
    ensures PageKept(h, Extended(NewPage(h, f), p, f), q)
  {
  }

  lemma WithPageKept(h: Heap, p: nat, s: Snapshot, size: Word)
    requires p in h.info && p in h.carve && s.next < 0x1_0000_0000_0000_0000
    ensures SameLinks(h, WithPage(h, p, s, size)) && OthersKept(h, WithPage(h, p, s, size), p)
  {
  }

  // --- Pages taken ---

  /** From `h` to `h'` the pages that come into use are exactly those that become heap
      pages, and heap pages they stay. */
  ghost predicate TakesFree(h: Heap, h': Heap) {
    && |h'.used| == |h.used| && h.info.Keys <= h'.info.Keys
    && (forall i :: 0 <= i < |h.used| ==>
          (h'.used[i] <==> h.used[i] || (i * PAGE_SIZE in h'.info && i * PAGE_SIZE !in h.info)))
    && (forall q {:trigger q in h'.info} :: q in h'.info && q !in h.info ==> q / PAGE_SIZE < |h.used| && !h.used[q / PAGE_SIZE])
  }

  lemma TakesNone(h: Heap, h': Heap)
    requires h'.used == h.used && h'.info.Keys == h.info.Keys
    ensures TakesFree(h, h')
  {
    assert forall q :: q in h'.info <==> q in h'.info.Keys;
    assert forall q :: q in h.info <==> q in h.info.Keys;
  }

  lemma SameLinksTaken(h: Heap, h': Heap)
    requires h'.used == h.used && SameLinks(h, h')
    ensures TakesFree(h, h')
  {
    hide TakesFree;
    TakesNone(h, h');
  }

  lemma TakesFreeTwice(h: Heap, h1: Heap, h2: Heap)
    requires TakesFree(h, h1) && TakesFree(h1, h2)
    ensures TakesFree(h, h2)
  {
    assert forall q :: q in h.info ==> q in h1.info;
    assert forall q :: q in h1.info ==> q in h2.info;
    forall q {:trigger q in h2.info} | q in h2.info && q !in h.info
      ensures q / PAGE_SIZE < |h.used| && !h.used[q / PAGE_SIZE]
    {
      assert q in h1.info || !h1.used[q / PAGE_SIZE];
    }
  }

  lemma TakesNewPage(h: Heap, f: Word, h': Heap)
    requires FreePage(h, f) && f !in h.info && f + PAGE_SIZE < 0x1_0000_0000_0000_0000
    requires h'.used == NewPage(h, f).used && h'.info.Keys == h.info.Keys + {f}
    ensures TakesFree(h, h')
  {
    assert forall q :: q in h'.info <==> q in h.info || q == f;
    forall i | 0 <= i < |h.used|
      ensures i * PAGE_SIZE == f <==> i == f / PAGE_SIZE
    {
      DivModIs(i * PAGE_SIZE, PAGE_SIZE, i, 0);
    }
  }

  // --- Heaps that are apart ---

  /** Neither page is on the other's chain. */
  ghost predicate ChainsApart(h: Heap, p: nat, q: nat) {
    && p in h.info && q in h.info
    && !OnChain(h, p, q) && !OnChain(h, q, p)
  }

  /** ... and then the two heaps have no page in common. */
  lemma {:induction false} NoCommonPage(h: Heap, p: nat, q: nat, n: nat, m: nat)
    requires HeapSound(h) && ChainsApart(h, p, q) && Hop(h, p, n) == Hop(h, q, m)
    ensures Hop(h, p, n) !in h.info
  {
    hide HeapSound, OnChain;
    HopOnChain(h, p, n);
    HopOnChain(h, q, m);
    if n > 0 && m > 0 && Hop(h, p, n) in h.info {
      HopLast(h, p, n - 1);
      HopLast(h, q, m - 1);
      OnePredecessor(h, Hop(h, p, n - 1), Hop(h, q, m - 1));
      NoCommonPage(h, p, q, n - 1, m - 1);
    }
  }

  lemma {:induction false} HopLast(h: Heap, p: nat, n: nat)
    ensures Hop(h, p, n) in h.info ==> Hop(h, p, n + 1) == h.info[Hop(h, p, n)].next
    ensures Hop(h, p, n) !in h.info ==> Hop(h, p, n + 1) == Hop(h, p, n)
    decreases n
  {
    if n > 0 && p in h.info {
      HopLast(h, h.info[p].next, n - 1);
    }
  }

  lemma OnePredecessor(h: Heap, x: nat, y: nat)
    requires HeapSound(h) && x in h.info && y in h.info && h.info[x].next == h.info[y].next && h.info[x].next in h.info
    ensures x == y
  {
    NoPageZero(h);
    hide PageSound, NextSound;
  }

  /** Where a chain ends up among the old pages, it was before. */
  lemma {:induction false} OldHop(h: Heap, h': Heap, p: nat, n: nat)
    requires SameChains(h, h') && 0 !in h.info && 0 !in h'.info
    ensures Hop(h', p, n) in h.info ==> p in h.info && Hop(h', p, n) == Hop(h, p, n)
    decreases n
  {
    if n > 0 && p in h'.info {
      assert h'.info[p].next == h'.info[p].next;
      OldHop(h, h', h'.info[p].next, n - 1);
      if h'.info[p].next == 0 {
        assert Hop(h', 0, n - 1) == 0;
      }
    }
  }

  lemma StillOff(h: Heap, h': Heap, p: nat, q: nat)
    requires SameChains(h, h') && 0 !in h.info && 0 !in h'.info && q in h.info && !OnChain(h, p, q)
    ensures !OnChain(h', p, q)
  {
    hide SameChains;
    forall n: nat
      ensures Hop(h', p, n) != q
    {
      hide OnChain, Hop;
      OldHop(h, h', p, n);
      HopOnChain(h, p, n);
    }
  }

  lemma StillApart(h: Heap, h': Heap, p: nat, q: nat)
    requires HeapSound(h) && HeapSound(h') && SameChains(h, h') && ChainsApart(h, p, q)
    ensures ChainsApart(h', p, q)
  {
    NoPageZero(h);
    NoPageZero(h');
    PagesKept(h, h');
    hide HeapSound, SameChains, OnChain;
    StillOff(h, h', p, q);
    StillOff(h, h', q, p);
  }

  lemma {:induction false} HopEnds(h: Heap, p: nat, n: nat)
    requires HeapSound(h) && (p in h.info || p == 0)
    ensures Hop(h, p, n) in h.info || Hop(h, p, n) == 0
    decreases n
  {
    hide HeapSound;
    if n > 0 && p in h.info {
      PageAt(h, p);
      HopEnds(h, h.info[p].next, n - 1);
    }
  }

  lemma OffChain(h: Heap, h': Heap, p: nat, q: nat, n: nat)
    requires HeapSound(h) && HeapSound(h') && SameChains(h, h') && ChainsApart(h, p, q) && Hop(h, q, n) in h.info
    ensures !OnChain(h', p, Hop(h, q, n))
  {
    NoPageZero(h);
    NoPageZero(h');
    hide HeapSound, SameChains;
    forall m: nat
      ensures Hop(h', p, m) != Hop(h, q, n)
    {
      OldHop(h, h', p, m);
      if Hop(h, p, m) == Hop(h, q, n) {
        NoCommonPage(h, p, q, m, n);
      }
    }
  }

  lemma HopNone(h: Heap, p: nat)
    ensures Hop(h, p, 0) == p
  {
  }

  lemma PageKeptAt(h: Heap, h': Heap, p: nat, q: nat)
    requires OtherHeapsKept(h, h', p) && !OnChain(h', p, q)
    ensures PageKept(h, h', q)
  {
  }

  lemma SameLast(h: Heap, h': Heap, q: nat, n: nat)
    requires HeapSound(h) && HeapSound(h') && q in h.info
    requires Hop(h', q, n) == Hop(h, q, n) && PageKept(h, h', Hop(h, q, n))
    ensures Hop(h', q, n + 1) == Hop(h, q, n + 1)
  {
    KeysAgree(h);
    NoPageZero(h');
    hide HeapSound, Hop;
    HopLast(h, q, n);
    HopLast(h', q, n);
    HopEnds(h, q, n);
  }

  /** What one heap does leaves the pages and links of every other heap alone, ... */
  lemma {:induction false} OtherHeapHop(h: Heap, h': Heap, p: nat, q: nat, n: nat)
    requires HeapSound(h) && HeapSound(h') && SameChains(h, h') && OtherHeapsKept(h, h', p) && ChainsApart(h, p, q)
    ensures Hop(h', q, n) == Hop(h, q, n)
    ensures PageKept(h, h', Hop(h, q, n))
  {
    hide HeapSound, SameChains, OnChain, Hop, OtherHeapsKept;
    if n > 0 {
      OtherHeapHop(h, h', p, q, n - 1);
      SameLast(h, h', q, n - 1);
    } else {
      HopNone(h, q);
      HopNone(h', q);
    }
    if Hop(h, q, n) in h.info {
      OffChain(h, h', p, q, n);
      PageKeptAt(h, h', p, Hop(h, q, n));
    }
  }

  /** ... so each heap keeps its own alignment, whatever the others are used with. */
  lemma OtherHeapGrid(h: Heap, h': Heap, p: nat, q: nat, a: nat)
    requires HeapSound(h) && HeapSound(h') && SameChains(h, h') && OtherHeapsKept(h, h', p) && ChainsApart(h, p, q)
    requires Alignment(a)
    ensures ChainGrid(h', q, a) <==> ChainGrid(h, q, a)
  {
    hide HeapSound, SameChains, OtherHeapsKept, ChainsApart, PageGrid, Hop;
    forall n: nat {:trigger Hop(h', q, n)} {:trigger Hop(h, q, n)}
      ensures PageGrid(h'.carve, Hop(h', q, n), a) <==> PageGrid(h.carve, Hop(h, q, n), a)
    {
      OtherHeapHop(h, h', p, q, n);
      ApartPages(h, p, q);
      HopEnds(h, q, n);
      KeptGrid(h, h', Hop(h, q, n), a);
    }
  }

  lemma KeptGrid(h: Heap, h': Heap, x: nat, a: nat)
    requires HeapSound(h) && HeapSound(h') && Alignment(a) && PageKept(h, h', x) && (x in h.info || x == 0)
    ensures PageGrid(h'.carve, x, a) <==> PageGrid(h.carve, x, a)
  {
    NoPageZero(h);
    NoPageZero(h');
    KeysAgree(h);
    KeysAgree(h');
    hide HeapSound;
  }

  lemma ApartPages(h: Heap, p: nat, q: nat)
    requires ChainsApart(h, p, q)
    ensures q in h.info
  {
  }

  predicate FreePage(h: Heap, f: nat) {
    && Aligned(f) && 0 < f && f + 2 * PAGE_SIZE < 0x1_0000_0000_0000_0000
    && f / PAGE_SIZE < |h.used| && !h.used[f / PAGE_SIZE]
  }

  /** The address of the lowest free page of a range. */
  function Lowest(bits: seq<bool>, from: nat, limit: nat): Option<nat>
    requires from <= limit <= |bits|
  {
    match LowestClear(bits, from, limit)
    case None => None
    case Some(i) => Some(i * PAGE_SIZE)
  }

  /** The two ways in which `kalloc` gives a region out of page `p`: a block of its list,
      or what is behind the bump pointer. */
  lemma ReuseSafe(h: Heap, p: nat, i: nat, size: nat)
    requires HeapSound(h) && p in h.info && p in h.carve && Room(size)
    requires i < |h.carve[p].free| && h.carve[p].free[i] in h.carve[p].block && size <= h.carve[p].block[h.carve[p].free[i]]
    ensures var s := Reuse(View(h, p), i, size);
      && s.next < 0x1_0000_0000_0000_0000 && h.info[p].size + size <= PAGE_SIZE
      && var h' := WithPage(h, p, s, h.info[p].size + size);
        HeapSound(h') && Allocated(h, h', p, h.carve[p].free[i], size) && SameChains(h, h')
        && SameLinks(h, h') && OthersKept(h, h', p)
  {
    hide HeapSound, Packed, Given, Allocated, SameChains, SameLinks, OthersKept, WithPage, Reuse, Room;
    PageAt(h, p);
    var s := Reuse(View(h, p), i, size);
    ReusePacked(View(h, p), p + HEADER, p + PAGE_SIZE, i, size);
    ReuseGiven(View(h, p), p + HEADER, p + PAGE_SIZE, i, size);
    GivenBounds(h, p, s, h.carve[p].free[i], size);
    GivenSafe(h, p, s, h.carve[p].free[i], size, h.info[p].size + size);
    WithPageKept(h, p, s, h.info[p].size + size);
  }

  lemma BumpSafe(h: Heap, p: nat, size: nat)
    requires HeapSound(h) && p in h.info && p in h.carve && Room(size)
    requires h.info[p].nextFree + size <= p + PAGE_SIZE < 0x1_0000_0000_0000_0000
    ensures var s := Bump(View(h, p), size);
      && s.next < 0x1_0000_0000_0000_0000 && h.info[p].size + size <= PAGE_SIZE
      && var h' := WithPage(h, p, s, h.info[p].size + size);
        HeapSound(h') && Allocated(h, h', p, h.info[p].nextFree, size) && SameChains(h, h')
        && SameLinks(h, h') && OthersKept(h, h', p)
  {
    hide HeapSound, Packed, Given, Allocated, SameChains, SameLinks, OthersKept, WithPage, Room;
    PageAt(h, p);
    var s := Bump(View(h, p), size);
    BumpPacked(View(h, p), p + HEADER, p + PAGE_SIZE, size);
    BumpGiven(View(h, p), p + HEADER, p + PAGE_SIZE, size);
    GivenBounds(h, p, s, h.info[p].nextFree, size);
    GivenSafe(h, p, s, h.info[p].nextFree, size, h.info[p].size + size);
    WithPageKept(h, p, s, h.info[p].size + size);
  }

  // --- Where a region comes from ---

  /** What page `p` by itself has for a request: the first block of its list that fits, or
      else the room behind its bump pointer. */
  ghost function Offer(h: Heap, p: nat, size: nat, a: nat): Option<nat>
    requires Alignment(a)
  {
    if p !in h.info then None
    else if Reusable(h, p, size).Some? then Reusable(h, p, size)
    else if AlignUp(h.info[p].nextFree, a) + size <= p + PAGE_SIZE then Some(AlignUp(h.info[p].nextFree, a))
    else None
  }

  ghost function Youth(h: Heap, p: nat): nat {
    if p in h.carve && h.carve[p].rank <= h.clock then h.clock - h.carve[p].rank else 0
  }

  /** The first offer along the chain from `p`. */
  ghost function Along(h: Heap, p: nat, size: nat, a: nat): Option<nat>
    requires HeapSound(h) && p in h.info && Alignment(a)
    decreases Youth(h, p)
  {
    PageAt(h, p);
    if Offer(h, p, size, a).Some? then Offer(h, p, size, a)
    else if h.info[p].next == 0 then None
    else
      PageAt(h, h.info[p].next);
      Along(h, h.info[p].next, size, a)
  }

  /** The offer of a page that is still to be taken, the lowest one. */
  ghost function NewOffer(h: Heap, size: nat, a: nat, first: nat, last: nat): Option<nat>
    requires Alignment(a) && first <= last <= |h.used|
  {
    match Lowest(h.used, first, last)
    case Some(f) =>
      if Fits(size, a) && f + HEADER < 0x1_0000_0000_0000_0000 then Some(AlignUp(f + HEADER, a)) else None
    case None => None
  }

  /** What `kalloc` hands out: the first offer along the chain, then that of a new page. */
  ghost function Answer(h: Heap, p: nat, size: nat, a: nat, first: nat, last: nat): Option<nat>
    requires HeapSound(h) && p in h.info && Alignment(a) && first <= last <= |h.used|
  {
    if Along(h, p, size, a).Some? then Along(h, p, size, a) else NewOffer(h, size, a, first, last)
  }

  /** ... once page `p` has turned out to have nothing. */
  ghost function AnswerBehind(h: Heap, p: nat, size: nat, a: nat, first: nat, last: nat): Option<nat>
    requires HeapSound(h) && p in h.info && Alignment(a) && first <= last <= |h.used|
  {
    PageAt(h, p);
    if h.info[p].next == 0 then NewOffer(h, size, a, first, last) else Answer(h, h.info[p].next, size, a, first, last)
  }

  ghost predicate OfferedBehind(h: Heap, p: nat, size: nat, a: nat)
    requires HeapSound(h) && p in h.info && Alignment(a)
  {
    PageAt(h, p);
    h.info[p].next != 0 && Along(h, h.info[p].next, size, a).Some?
  }

  lemma AnswerHere(h: Heap, p: nat, size: nat, a: nat, first: nat, last: nat)
    requires HeapSound(h) && p in h.info && Alignment(a) && first <= last <= |h.used|
    ensures Answer(h, p, size, a, first, last)
         == if Offer(h, p, size, a).Some? then Offer(h, p, size, a) else AnswerBehind(h, p, size, a, first, last)
    ensures Along(h, p, size, a).Some? <==> Offer(h, p, size, a).Some? || OfferedBehind(h, p, size, a)
  {
    hide HeapSound, Offer, NewOffer;
  }

  lemma NoOffer(h: Heap, p: nat, size: nat, a: nat)
    requires p !in h.info && Alignment(a)
    ensures Offer(h, p, size, a) == None
  {
  }

  /** A chain has something to offer exactly if one of its pages has; and then it is the
      first of them that gives. */
  lemma {:induction false} AlongFirst(h: Heap, p: nat, size: nat, a: nat) returns (n: nat)
    requires HeapSound(h) && p in h.info && Alignment(a)
    ensures Along(h, p, size, a) == Offer(h, Hop(h, p, n), size, a)
    ensures forall k {:trigger Hop(h, p, k)} :: 0 <= k < n ==> Offer(h, Hop(h, p, k), size, a) == None
    ensures Along(h, p, size, a) == None ==> Hop(h, p, n) == 0
    decreases Youth(h, p)
  {
    hide HeapSound, Offer;
    PageAt(h, p);
    NoPageZero(h);
    HopNone(h, p);
    if Offer(h, p, size, a).Some? {
      return 0;
    } else if h.info[p].next == 0 {
      assert Hop(h, p, 1) == Hop(h, 0, 0) == 0;
      NoOffer(h, 0, size, a);
      n := 1;
    } else {
      PageAt(h, h.info[p].next);
      var m := AlongFirst(h, h.info[p].next, size, a);
      n := m + 1;
      assert Hop(h, p, n) == Hop(h, h.info[p].next, m);
      forall k {:trigger Hop(h, p, k)} | 0 <= k < n
        ensures Offer(h, Hop(h, p, k), size, a) == None
      {
        if k > 0 {
          assert Hop(h, p, k) == Hop(h, h.info[p].next, k - 1);
        }
      }
    }
  }

  lemma SameOffer(h: Heap, h': Heap, p: nat, size: nat, a: nat)
    requires p in h.info && p in h.carve && PageKept(h, h', p) && Alignment(a)
    ensures Offer(h', p, size, a) == Offer(h, p, size, a)
  {
    hide AlignUp;
  }

  lemma NextOff(h: Heap, p: nat, x: nat)
    requires HeapSound(h) && p in h.info && !OnChain(h, p, x)
    ensures p != x && !OnChain(h, h.info[p].next, x)
  {
    hide HeapSound;
    HopOnChain(h, p, 0);
    if OnChain(h, h.info[p].next, x) {
      ChainNext(h, p, x);
    }
  }

  /** What changes on page `x` alone makes no difference to chains that `x` is not on. */
  lemma {:induction false} AlongElsewhere(h: Heap, h': Heap, x: nat, p: nat, size: nat, a: nat)
    requires HeapSound(h) && HeapSound(h') && OthersKept(h, h', x) && Alignment(a)
    requires p in h.info && !OnChain(h, p, x)
    ensures p in h'.info && Along(h', p, size, a) == Along(h, p, size, a)
    decreases Youth(h, p)
  {
    hide HeapSound, OnChain, Offer;
    PageAt(h, p);
    NextOff(h, p, x);
    assert PageKept(h, h', p);
    SameOffer(h, h', p, size, a);
    if h.info[p].next != 0 {
      PageAt(h, h.info[p].next);
      AlongElsewhere(h, h', x, h.info[p].next, size, a);
    }
  }

  lemma BehindElsewhere(h: Heap, h': Heap, p: nat, size: nat, a: nat, first: nat, last: nat)
    requires HeapSound(h) && HeapSound(h') && OthersKept(h, h', p) && Alignment(a) && h'.used == h.used
    requires p in h.info && p in h'.info && h'.info[p].next == h.info[p].next && first <= last <= |h.used|
    ensures AnswerBehind(h', p, size, a, first, last) == AnswerBehind(h, p, size, a, first, last)
    ensures OfferedBehind(h', p, size, a) <==> OfferedBehind(h, p, size, a)
  {
    hide HeapSound, OthersKept, Along, OnChain, Lowest, Fits, AlignUp;
    PageAt(h, p);
    NotBehindItself(h, p);
    if h.info[p].next != 0 {
      AlongElsewhere(h, h', p, h.info[p].next, size, a);
    }
  }

  // --- What a request costs ---

  /** Page `x` is among the first `n` of the chain from `p`. */
  ghost predicate Before(h: Heap, p: nat, n: nat, x: nat) {
    exists k: nat {:trigger Hop(h, p, k)} :: k < n && Hop(h, p, k) == x
  }

  /** Page `x` has given nothing; if it was tried, its bump pointer is aligned now. */
  ghost predicate GivesNothing(h: Heap, h': Heap, x: nat, tried: bool, a: nat)
    requires Alignment(a)
  {
    x in h.info && x in h.carve ==>
      && x in h'.info && x in h'.carve && h'.carve[x] == h.carve[x]
      && h'.info[x] == h.info[x].(next := h'.info[x].next,
                                  nextFree := if tried then AlignUp(h.info[x].nextFree, a) else h.info[x].nextFree)
  }

  /** How page `q` was left, or how it starts if it is a new one. */
  ghost function FreeOf(h: Heap, q: nat): seq<nat> {
    if q in h.info && q in h.carve then h.carve[q].free else []
  }

  ghost function NextFreeOf(h: Heap, q: nat): nat {
    if q in h.info && q in h.carve then h.info[q].nextFree else q + HEADER
  }

  /** Page `q` has given the region at `r`: off its list if that has a block, and else the
      bump pointer is right behind it. */
  ghost predicate GivesRegion(h: Heap, h': Heap, q: nat, r: nat, size: nat) {
    && q in h'.info && q in h'.carve
    && if Reusable(h, q, size).Some? then
         && h'.info[q].nextFree == NextFreeOf(h, q)
         && exists i: nat {:trigger FreeOf(h, q)[..i]} ::
              i < |FreeOf(h, q)| && FreeOf(h, q)[i] == r && h'.carve[q].free == FreeOf(h, q)[..i] + FreeOf(h, q)[i + 1..]
       else h'.info[q].nextFree == r + size && h'.carve[q].free == FreeOf(h, q)
  }

  /** A request met from page `q`, `n` links down the chain from `p`, or with `q == 0` not
      met at all after `n` pages were tried. */
  ghost predicate Costs(h: Heap, h': Heap, p: nat, n: nat, q: nat, r: Option<nat>, size: nat, a: nat)
    requires Alignment(a)
  {
    && (forall x: nat {:trigger GivesNothing(h, h', x, Before(h', p, n, x), a)} ::
          x != q ==> GivesNothing(h, h', x, Before(h', p, n, x), a))
    && (if r.Some? then GivesRegion(h, h', q, r.value, size) else q == 0)
  }

  /** A new page comes into use only if the chain has no offer, and then it is the lowest. */
  ghost predicate TakesPage(h: Heap, h': Heap, offered: bool, size: nat, a: nat, first: nat, last: nat)
    requires first <= last <= |h.used|
  {
    match Lowest(h.used, first, last)
    case Some(f) =>
      if offered then h'.used == h.used && h'.info.Keys == h.info.Keys
      else Fits(size, a) && f / PAGE_SIZE < |h.used| ==>
             h'.used == h.used[f / PAGE_SIZE := true] && h'.info.Keys == h.info.Keys + {f}
    case None => h'.used == h.used && h'.info.Keys == h.info.Keys
  }

  /** A region off the list of the first page tried ... */
  lemma CostsHere(h: Heap, h': Heap, p: nat, r: nat, size: nat, a: nat)
    requires OthersKept(h, h', p) && Alignment(a) && GivesRegion(h, h', p, r, size)
    ensures Costs(h, h', p, 0, p, Some(r), size, a)
  {
    hide GivesRegion, AlignUp;
    forall x: nat | x != p
      ensures GivesNothing(h, h', x, Before(h', p, 0, x), a)
    {
      assert PageKept(h, h', x);
    }
  }

  /** ... or from behind its bump pointer, which was aligned first. */
  lemma CostsBump(h: Heap, h1: Heap, h': Heap, p: nat, size: nat, a: nat)
    requires p in h.info && p in h.carve && Alignment(a) && Reusable(h, p, size).None?
    requires h1 == Advanced(h, p, AlignUp(h.info[p].nextFree, a)) && OthersKept(h1, h', p)
    requires p in h'.info && p in h'.carve && h'.carve[p].free == h.carve[p].free
    requires h'.info[p].nextFree == h1.info[p].nextFree + size
    ensures Costs(h, h', p, 0, p, Some(h1.info[p].nextFree), size, a)
  {
    hide AlignUp, Reusable;
    forall x: nat | x != p
      ensures PageKept(h, h', x)
    {
      assert PageKept(h1, h', x);
    }
    CostsHere(h, h', p, h1.info[p].nextFree, size, a);
  }

  lemma SameLinksTwice(h: Heap, h1: Heap, h2: Heap)
    requires SameLinks(h, h1) && SameLinks(h1, h2)
    ensures SameLinks(h, h2)
  {
    forall q {:trigger h2.info[q]} | q in h.info
      ensures h2.info[q].next == h.info[q].next
    {
      assert h1.info[q] == h1.info[q];
    }
  }

  /** A region from the first page tried. */
  lemma Served(h: Heap, h': Heap, p: nat, r: Word, size: nat, a: nat, first: nat, last: nat)
    requires HeapSound(h) && p in h.info && Alignment(a) && first <= last <= |h.used|
    requires Offer(h, p, size, a) == Some(r) && h'.used == h.used && SameLinks(h, h')
    ensures Answer(h, p, size, a, first, last) == Some(r)
    ensures TakesPage(h, h', Along(h, p, size, a).Some?, size, a, first, last)
  {
    hide HeapSound, Offer, Answer, Along, Lowest, Fits;
    AnswerHere(h, p, size, a, first, last);
  }

  /** Nothing on the first page: its bump pointer was aligned, and the rest of the chain was
      asked. */
  lemma PassedOn(h: Heap, h1: Heap, h': Heap, p: nat, size: nat, a: nat, first: nat, last: nat)
    requires HeapSound(h) && HeapSound(h1) && p in h.info && Alignment(a) && first <= last <= |h.used|
    requires h1 == Advanced(h, p, AlignUp(h.info[p].nextFree, a)) && OthersKept(h, h1, p)
    requires Reusable(h, p, size).None? && AlignUp(h.info[p].nextFree, a) + size > p + PAGE_SIZE
    requires TakesPage(h1, h', OfferedBehind(h1, p, size, a), size, a, first, last)
    ensures AnswerBehind(h1, p, size, a, first, last) == Answer(h, p, size, a, first, last)
    ensures TakesPage(h, h', Along(h, p, size, a).Some?, size, a, first, last)
  {
    hide HeapSound, OthersKept, Reusable, Answer, AnswerBehind, Along, OfferedBehind, AlignUp, Lowest, Fits;
    AnswerHere(h, p, size, a, first, last);
    BehindElsewhere(h, h1, p, size, a, first, last);
  }

  /** A new page offers what is behind its header. */
  lemma NewPageOffers(h: Heap, h1: Heap, f: Word, size: nat, a: nat, first: nat, last: nat)
    requires HeapSound(h1) && f in h1.info && Alignment(a) && first <= last <= |h.used| == |h1.used| == 64 * WORDS
    requires Lowest(h.used, first, last) == Some(f) && Multiple(size, a) && size < PAGE_SIZE
    requires h1.info[f].next == 0 && h1.info[f].nextFree == f + HEADER && Blank(h1, f)
    ensures Fits(size, a) ==>
      Answer(h1, f, size, a, first, last) == NewOffer(h, size, a, first, last) && Along(h1, f, size, a).Some?
    ensures !Fits(size, a) ==> NewOffer(h, size, a, first, last).None?
  {
    PageAt(h1, f);
    PageLow(h1, f);
    hide HeapSound, Lowest, AlignUp, Fits;
    BlankPageFits(f, size, a);
    NothingToReuse(h1, f, size);
    AnswerHere(h1, f, size, a, first, last);
  }

  lemma TakesNothing(h: Heap, size: nat, a: nat, first: nat, last: nat)
    requires first <= last <= |h.used| && Lowest(h.used, first, last).None?
    ensures TakesPage(h, h, false, size, a, first, last) && (Alignment(a) ==> NewOffer(h, size, a, first, last).None?)
  {
    hide Lowest;
  }

  lemma SameLinked(h: Heap, p: nat)
    requires HeapSound(h) && p in h.info
    ensures LinkedTo(h, h, p, h.info[p].next)
  {
    KeysAgree(h);
    SameKept(h, p);
    hide HeapSound, OthersKept;
  }

  lemma BehindPage(h: Heap, p: nat, next: nat, n: nat, q: nat)
    requires HeapSound(h) && p in h.info && h.info[p].next == next && (q == 0 || q == Hop(h, next, n))
    ensures !OnChain(h, next, p) && q != p
  {
    NoPageZero(h);
    NotBehindItself(h, p);
    hide HeapSound, OnChain;
    HopOnChain(h, next, n);
  }

  lemma TakesPageLater(h: Heap, h1: Heap, h': Heap, f: Word, offered: bool, size: nat, a: nat, first: nat, last: nat)
    requires first <= last <= |h.used| == |h1.used| && Lowest(h.used, first, last) == Some(f) && f / PAGE_SIZE < |h.used|
    requires h1.used == h.used[f / PAGE_SIZE := true] && h1.info.Keys == h.info.Keys + {f}
    requires TakesPage(h1, h', offered, size, a, first, last) && (Fits(size, a) ==> offered)
    ensures TakesPage(h, h', false, size, a, first, last)
  {
    hide Lowest, Fits;
  }

  lemma AlignUpTwice(x: Word, a: nat)
    requires Alignment(a) && AlignUp(x, a) + 64 < 0x1_0000_0000_0000_0000
    ensures AlignUp(AlignUp(x, a), a) == AlignUp(x, a)
  {
    var y := AlignUp(x, a);
    hide AlignUp;
    AlignUpLeast(y, a);
    NearMultiples(y, AlignUp(y, a), a);
  }

  lemma NearMultiples(y: nat, z: nat, a: nat)
    requires Alignment(a) && Multiple(y, a) && Multiple(z, a) && y <= z < y + a
    ensures z == y
  {
    var j := MultipleOf(y, a);
    var k := MultipleOf(z, a);
    hide Multiple;
  }

  lemma CostsNowhere(h: Heap, h': Heap, p: nat, n: nat, q: nat, r: Option<nat>, size: nat, a: nat)
    requires Alignment(a) && Costs(h, h', p, n, q, r, size, a)
    ensures r.None? ==> q == 0
  {
    hide GivesNothing, GivesRegion;
  }

  lemma SameReusable(h: Heap, h': Heap, p: nat, size: nat)
    requires p in h.info && p in h.carve && p in h'.info && p in h'.carve
    requires h'.carve[p].free == h.carve[p].free && h'.carve[p].block == h.carve[p].block
    ensures Reusable(h', p, size) == Reusable(h, p, size)
  {
  }

  lemma SameGiver(h: Heap, h1: Heap, h': Heap, q: nat, r: nat, size: nat)
    requires GivesRegion(h1, h', q, r, size)
    requires FreeOf(h1, q) == FreeOf(h, q) && NextFreeOf(h1, q) == NextFreeOf(h, q)
    requires Reusable(h1, q, size).Some? == Reusable(h, q, size).Some?
    ensures GivesRegion(h, h', q, r, size)
  {
    hide Reusable, FreeOf, NextFreeOf;
  }

  /** The first page tried had its bump pointer aligned and nothing to give. */
  lemma CostsAligned(h: Heap, h1: Heap, h': Heap, p: nat, n: nat, q: nat, r: Option<nat>, size: nat, a: nat)
    requires p in h.info && p in h.carve && Alignment(a) && h1 == Advanced(h, p, AlignUp(h.info[p].nextFree, a))
    requires AlignUp(h1.info[p].nextFree, a) == h1.info[p].nextFree
    requires n >= 1 && q != p && Costs(h1, h', p, n, q, r, size, a)
    ensures Costs(h, h', p, n, q, r, size, a)
  {
    hide AlignUp, Reusable, GivesRegion;
    assert Hop(h', p, 0) == p;
    forall x: nat | x != q
      ensures GivesNothing(h, h', x, Before(h', p, n, x), a)
    {
      assert GivesNothing(h1, h', x, Before(h', p, n, x), a);
    }
    if r.Some? {
      if q in h.info && q in h.carve {
        SameReusable(h, h1, q, size);
      } else {
        NoReusable(h, q, size);
        NoReusable(h1, q, size);
      }
      SameGiver(h, h1, h', q, r.value, size);
    }
  }

  lemma NoReusable(h: Heap, q: nat, size: nat)
    requires !(q in h.info && q in h.carve)
    ensures Reusable(h, q, size).None?
  {
  }

  lemma {:induction false} BeforeNext(h: Heap, p: nat, n: nat, x: nat)
    requires p in h.info && x != p
    ensures Before(h, p, n + 1, x) <==> Before(h, h.info[p].next, n, x)
  {
    if Before(h, p, n + 1, x) {
      var k: nat :| k < n + 1 && Hop(h, p, k) == x;
      assert k > 0 && Hop(h, h.info[p].next, k - 1) == x;
    }
    if Before(h, h.info[p].next, n, x) {
      var k: nat :| k < n && Hop(h, h.info[p].next, k) == x;
      assert Hop(h, p, k + 1) == x;
    }
  }

  lemma BeforeChain(h: Heap, p: nat, n: nat, x: nat)
    requires Before(h, p, n, x)
    ensures OnChain(h, p, x)
  {
  }

  /** From `h` to `h1` page `p` is linked to `next`, a blank page if it is new. */
  ghost predicate LinkedTo(h: Heap, h1: Heap, p: nat, next: Word) {
    && OthersKept(h, h1, p) && p in h.info && p in h.carve && p in h1.info && p in h1.carve
    && h1.info[p] == h.info[p].(next := next) && h1.carve[p] == h.carve[p]
    && (forall x {:trigger x in h1.info} :: x in h1.info && x in h1.carve && !(x in h.info && x in h.carve) ==>
          h1.info[x].nextFree == x + HEADER && h1.carve[x].free == [])
  }

  lemma LinkedAt(h: Heap, h1: Heap, p: nat, next: Word, q: nat, size: nat)
    requires LinkedTo(h, h1, p, next) && q != p
    ensures FreeOf(h1, q) == FreeOf(h, q) && NextFreeOf(h1, q) == NextFreeOf(h, q)
    ensures Reusable(h1, q, size).Some? == Reusable(h, q, size).Some?
  {
    assert PageKept(h, h1, q);
    if q in h.info && q in h.carve {
      SameReusable(h, h1, q, size);
    } else {
      NoReusable(h, q, size);
    }
  }

  /** The rest of the chain gave what the first page had not. */
  lemma CostsNext(h: Heap, h1: Heap, h': Heap, p: nat, next: Word, n: nat, q: nat, r: Option<nat>, size: nat, a: nat)
    requires LinkedTo(h, h1, p, next) && Alignment(a) && AlignUp(h.info[p].nextFree, a) == h.info[p].nextFree
    requires Costs(h1, h', next, n, q, r, size, a) && q != p
    requires p in h'.info && h'.info[p].next == next && !OnChain(h', next, p)
    ensures Costs(h, h', p, n + 1, q, r, size, a)
  {
    hide AlignUp, Reusable, GivesRegion, OnChain;
    assert Hop(h', p, 0) == p;
    var m := n + 1;
    forall x: nat | x != q
      ensures GivesNothing(h, h', x, Before(h', p, m, x), a)
    {
      assert GivesNothing(h1, h', x, Before(h', next, n, x), a);
      if x == p {
        if Before(h', next, n, p) {
          BeforeChain(h', next, n, p);
        }
      } else {
        BeforeNext(h', p, n, x);
        assert PageKept(h, h1, x);
      }
    }
    if r.Some? {
      LinkedAt(h, h1, p, next, q, size);
      SameGiver(h, h1, h', q, r.value, size);
    }
  }

  /** No page is left to go on with. */
  lemma CostsNothing(h: Heap, p: nat, size: nat, a: nat)
    requires p in h.info && Alignment(a) && AlignUp(h.info[p].nextFree, a) == h.info[p].nextFree && h.info[p].next !in h.info
    ensures Costs(h, h, p, 1, 0, None, size, a)
  {
    hide AlignUp;
    assert Hop(h, p, 0) == p;
  }

  lemma ExtendedLinks(h: Heap, p: nat, f: Word)
    requires HeapSound(h) && f !in h.info && p in h.info
    requires f / PAGE_SIZE < |h.used| && f + PAGE_SIZE < 0x1_0000_0000_0000_0000
    ensures LinkedTo(h, Extended(NewPage(h, f), p, f), p, f)
  {
    KeysAgree(h);
    hide HeapSound, OthersKept;
    ExtendedKept(h, p, f);
  }

  lemma ReuseGives(h: Heap, p: nat, i: nat, size: Word)
    requires p in h.info && p in h.carve && i < |h.carve[p].free| && Reusable(h, p, size) == Some(h.carve[p].free[i])
    requires h.info[p].size + size < 0x1_0000_0000_0000_0000
    ensures GivesRegion(h, WithPage(h, p, Reuse(View(h, p), i, size), h.info[p].size + size), p, h.carve[p].free[i], size)
  {
    hide Reusable;
    assert FreeOf(h, p)[..i] + FreeOf(h, p)[i + 1..] == Reuse(View(h, p), i, size).free;
  }

  class PageAllocator {
    const ram: Bitmap
    var mem: Memory
    var info: map<Word, Header>
    ghost var carve: map<nat, Carving>
    ghost var clock: nat

    ghost function Snap(): Heap
      reads this, ram.bits
    {
      Heap(mem, ram.bits[..], info, carve, clock)
    }

    /** Page 0 must not be among the pages searched: its address would mean "none". */
    ghost predicate Valid()
      reads this, ram.bits
    {
      ram.Valid() && 0 < ram.first && HeapSound(Snap())
    }

    /** How many pages `palloc` can still find. */
    ghost function PagesLeft(): nat
      requires ram.Valid()
      reads this, ram.bits
    {
      CountClear(ram.bits[..], ram.first, ram.last)
    }

    ghost function Age(p: nat): nat
      reads this
    {
      if p in carve && carve[p].rank <= clock then clock - carve[p].rank else 0
    }

    constructor (ram0: Bitmap, mem0: Memory)
      requires ram0.Valid() && 0 < ram0.first
      ensures Valid() && ram == ram0 && Snap() == Heap(mem0, ram0.bits[..], map[], map[], 0)
    {
      ram, mem, info, carve, clock := ram0, mem0, map[], map[], 0;
    }

    /** The free-list part of `kalloc`. */
    method TryReuse(page: Word, size: Word, ghost a: nat) returns (r: Option<Word>)
      requires Valid() && page in info && Room(size) && Alignment(a)
      modifies this
      ensures Valid() && clock == old(clock) && Age(page) == old(Age(page))
      ensures r.Some? ==> Allocated(old(Snap()), Snap(), page, r.value, size) && SameChains(old(Snap()), Snap())
      ensures r.None? ==> Snap() == old(Snap())
      ensures r == Reusable(old(Snap()), page, size)
      ensures r.Some? ==> GivesRegion(old(Snap()), Snap(), page, r.value, size) && Snap().used == old(Snap()).used
      ensures SameLinks(old(Snap()), Snap()) && OthersKept(old(Snap()), Snap(), page)
      ensures PageGrid(old(carve), page, a) ==> PageGrid(carve, page, a) && (r.Some? ==> Multiple(r.value, a))
    {
      hide HeapSound, Packed, Allocated, SameChains, Given, SameLinks, OthersKept, PageGrid, Multiple, Room;
      ghost var h := Snap();
      PageAt(h, page);
      SameKept(h, page);
      var prev, curr, i := FindFit(mem, info[page].freeList, size, View(h, page), page + HEADER, page + PAGE_SIZE);
      if curr == 0 {
        return None;
      }
      ghost var s := Reuse(View(h, page), i, size);
      ReuseSafe(h, page, i, size);
      if PageGrid(carve, page, a) {
        FreeBlockAt(View(h, page), page + HEADER, page + PAGE_SIZE, i);
        ReuseGrid(carve, page, View(h, page), i, size, a);
      }
      var head: Word;
      mem, head := Take(mem, info[page].freeList, prev, curr, size, View(h, page), i);
      info := info[page := info[page].(freeList := head, size := info[page].size + size)];
      carve := carve[page := Carving(s.block, s.free, carve[page].rank)];
      assert Snap() == WithPage(h, page, s, h.info[page].size + size);
      ReuseGives(h, page, i, size);
      return Some(curr);
    }

    /** The bump part of `kalloc`, once the pointer is aligned and the region fits. */
    method TakeNext(page: Word, size: Word, ghost a: nat) returns (r: Word)
      requires Alignment(a)
      requires Valid() && page in info && Room(size) && info[page].nextFree + size <= page + PAGE_SIZE < 0x1_0000_0000_0000_0000
      modifies this
      ensures Valid() && r == old(info)[page].nextFree
      ensures Allocated(old(Snap()), Snap(), page, r, size) && SameChains(old(Snap()), Snap())
      ensures SameLinks(old(Snap()), Snap()) && OthersKept(old(Snap()), Snap(), page)
      ensures page in info && page in carve && page in old(carve) && info[page].nextFree == r + size
      ensures carve[page].free == old(carve)[page].free && Snap().used == old(Snap()).used
      ensures PageGrid(old(carve), page, a) && Multiple(r, a) ==> PageGrid(carve, page, a)
    {
      hide HeapSound, Packed, Allocated, SameChains, Given, SameLinks, OthersKept, PageGrid, Multiple, Room;
      ghost var h := Snap();
      PageAt(h, page);
      r := info[page].nextFree;
      ghost var s := Bump(View(h, page), size);
      BumpSafe(h, page, size);
      if PageGrid(carve, page, a) && Multiple(r, a) {
        BumpGrid(carve, page, View(h, page), size, a);
      }
      mem := Zeroed(mem, r, size);
      info := info[page := info[page].(nextFree := r + size, size := info[page].size + size)];
      carve := carve[page := Carving(s.block, s.free, carve[page].rank)];
      assert Snap() == WithPage(h, page, s, h.info[page].size + size);
    }

    /** `palloc` of one page with a header. */
    method NewHeap() returns (f: Option<Word>)
      requires Valid()
      modifies this, ram.bits
      ensures Valid()
      ensures f == Lowest(old(ram.bits[..]), ram.first, ram.last)
      ensures f.None? ==> Snap() == old(Snap()) && PagesLeft() == 0
      ensures f.Some? ==>
        PagesLeft() < old(PagesLeft()) && FreePage(old(Snap()), f.value) && Snap() == NewPage(old(Snap()), f.value)
    {
      hide HeapSound;
      var index := ram.Palloc();
      ghost var bits := old(ram.bits[..]);
      NoneClear(bits, ram.first, ram.last);
      if index.None? {
        return None;
      }
      CountClearUpdate(bits, ram.first, ram.last, index.value, true);
      f := Some(index.value * PAGE_SIZE);
      NewPageSound(old(Snap()), f.value);
      info := info[f.value := Header(0, 0, f.value + HEADER, 0)];
      carve := carve[f.value := Carving(map[], [], clock)];
      clock := clock + 1;
    }

    /** `info->next = palloc(...)` at the end of a chain. */
    method Extend(page: Word) returns (f: Option<Word>)
      requires Valid() && page in info && info[page].next == 0
      modifies this, ram.bits
      ensures Valid()
      ensures f.None? ==> Snap() == old(Snap()) && PagesLeft() == 0
      ensures f.Some? ==>
        && PagesLeft() < old(PagesLeft()) && f.value in info && Blank(Snap(), f.value) && f.value != 0
        && SameClients(old(Snap()), Snap()) && SameChains(old(Snap()), Snap())
        && page in info && info[page].next == f.value
      ensures OthersKept(old(Snap()), Snap(), page) && page in old(carve) && page in carve && carve[page] == old(carve)[page]
      ensures TakesFree(old(Snap()), Snap())
      ensures f.Some? ==> Fresh(Snap(), f.value) && LinkedTo(old(Snap()), Snap(), page, f.value)
      ensures f == Lowest(old(Snap()).used, ram.first, ram.last)
      ensures f.Some? ==>
        && f.value / PAGE_SIZE < |old(Snap()).used| && Snap().used == old(Snap()).used[f.value / PAGE_SIZE := true]
        && Snap().info.Keys == old(Snap()).info.Keys + {f.value}
        && info[f.value].next == 0 && info[f.value].nextFree == f.value + HEADER
    {
      hide HeapSound, SameClients, SameChains, OthersKept, TakesFree;
      ghost var h := Snap();
      KeysAgree(h);
      SameKept(h, page);
      TakesNone(h, h);
      f := NewHeap();
      if f.Some? {
        GrownSound(h, page, f.value);
        ExtendedKept(h, page, f.value);
        info := info[page := info[page].(next := f.value)];
        assert Snap() == Extended(NewPage(h, f.value), page, f.value);
        assert Snap().info.Keys == h.info.Keys + {f.value};
        TakesNewPage(h, f.value, Snap());
        ExtendedLinks(h, page, f.value);
      }
    }

    /** `kalloc` aligns the bump pointer of the page for good, even if the page turns out
        to be too full. */
    method AlignNext(page: Word, a: nat) returns (start: Word)
      requires Valid() && page in info && Alignment(a)
      modifies this
      ensures Valid() && start == AlignUp(old(info)[page].nextFree, a) <= page + PAGE_SIZE
      ensures Aligned(page) && page + 2 * PAGE_SIZE < 0x1_0000_0000_0000_0000
      ensures page in info && info[page].nextFree == start && Age(page) == old(Age(page)) && carve == old(carve)
      ensures Snap() == Advanced(old(Snap()), page, start)
      ensures SameClients(old(Snap()), Snap()) && SameChains(old(Snap()), Snap())
      ensures SameLinks(old(Snap()), Snap()) && OthersKept(old(Snap()), Snap(), page)
    {
      hide HeapSound, SameClients, SameChains, AlignUp;
      ghost var h := Snap();
      AlignedStart(h, page, a);
      start := AlignUp(info[page].nextFree, a);
      info := info[page := info[page].(nextFree := start)];
      assert Snap() == Advanced(h, page, start);
    }

    /** `kalloc` of less than a page.  None stands for running out of pages, which the
        code does not survive: it goes on with a null page.  The region comes from a page
        of the caller's own chain, `hops` links away. */
    method Kalloc(page: Word, request: Word, a: nat) returns (r: Option<Word>, ghost q: nat, ghost hops: nat)
      requires Valid() && page in info && Alignment(a) && AlignUp(request, a) < PAGE_SIZE
      modifies this, ram.bits
      ensures Valid() && SameChains(old(Snap()), Snap())
      ensures r.Some? ==> Allocated(old(Snap()), Snap(), q, r.value, AlignUp(request, a)) && q == Hop(Snap(), page, hops)
      ensures r.None? ==> SameClients(old(Snap()), Snap()) && PagesLeft() == 0
      ensures r.None? && Fits(AlignUp(request, a), a) ==> old(PagesLeft()) == 0 && !Blank(old(Snap()), page)
      ensures !Fits(AlignUp(request, a), a) ==> r.None?
      ensures r == Answer(old(Snap()), page, AlignUp(request, a), a, ram.first, ram.last)
      ensures Costs(old(Snap()), Snap(), page, hops, q, r, AlignUp(request, a), a)
      ensures TakesPage(old(Snap()), Snap(), Along(old(Snap()), page, AlignUp(request, a), a).Some?, AlignUp(request, a), a,
                        ram.first, ram.last)
      ensures OtherHeapsKept(old(Snap()), Snap(), page) && TakesFree(old(Snap()), Snap())
      ensures ChainGrid(old(Snap()), page, a) ==> ChainGrid(Snap(), page, a) && (r.Some? ==> Multiple(r.value, a))
      decreases PagesLeft(), Age(page), 1
    {
      hide HeapSound, SameClients, SameChains, Packed, Fits, ChainGrid, Reusable, OtherHeapsKept, OthersKept, SameLinks, PageGrid, Allocated, Multiple,
           TakesFree, TakesPage, Costs, GivesRegion, Answer, AnswerBehind, Along, OfferedBehind, Advanced, AlignUp;
      var size := AlignUp(request, a);
      RoomOfMultiple(size, a);
      ghost var h := Snap();
      NothingToReuse(h, page, size);
      hops := 0;
      q := page;
      r := TryReuse(page, size, a);
      if r.Some? {
        AllocatedFits(h, Snap(), page, r.value, size, a);
        StepGrid(h, Snap(), page, a);
        SameLinksTaken(h, Snap());
        CostsHere(h, Snap(), page, r.value, size, a);
        Served(h, Snap(), page, r.value, size, a, ram.first, ram.last);
        return;
      }
      var start := AlignNext(page, a);
      ghost var h1 := Snap();
      StepGrid(h, h1, page, a);
      SameLinksTaken(h, h1);
      BlankPageFits(page, size, a);
      AlignUpTwice(h.info[page].nextFree, a);
      if start + size > page + PAGE_SIZE {
        r, q, hops := KallocNext(page, size, a);
        PassedOn(h, h1, Snap(), page, size, a, ram.first, ram.last);
        KeysAgree(h);
        CostsAligned(h, h1, Snap(), page, hops, q, r, size, a);
      } else {
        var taken := TakeNext(page, size, a);
        KeysAgree(h);
        CostsBump(h, h1, Snap(), page, size, a);
        SameLinksTwice(h, h1, Snap());
        Served(h, Snap(), page, taken, size, a, ram.first, ram.last);
        StepGrid(h1, Snap(), page, a);
        SameLinksTaken(h1, Snap());
        r := Some(taken);
        AllocatedFits(h1, Snap(), page, taken, size, a);
      }
      Later(h, h1, Snap(), q, r, size);
      ChainKept(h, h1, Snap(), page, page);
      TakesFreeTwice(h, h1, Snap());
    }

    /** The branch of `kalloc` for a full page: on to the next one, which is added if
        there is none. */
    method KallocNext(page: Word, size: Word, a: nat) returns (r: Option<Word>, ghost q: nat, ghost hops: nat)
      requires Valid() && page in info && Alignment(a) && Multiple(size, a) && size < PAGE_SIZE
      requires AlignUp(info[page].nextFree, a) == info[page].nextFree
      modifies this, ram.bits
      ensures Valid() && SameChains(old(Snap()), Snap())
      ensures r.Some? ==> Allocated(old(Snap()), Snap(), q, r.value, size) && q == Hop(Snap(), page, hops)
      ensures r.None? ==> SameClients(old(Snap()), Snap()) && PagesLeft() == 0
      ensures r.None? && Fits(size, a) ==> old(PagesLeft()) == 0
      ensures !Fits(size, a) ==> r.None?
      ensures r == AnswerBehind(old(Snap()), page, size, a, ram.first, ram.last)
      ensures hops >= 1 && q != page && Costs(old(Snap()), Snap(), page, hops, q, r, size, a)
      ensures TakesPage(old(Snap()), Snap(), OfferedBehind(old(Snap()), page, size, a), size, a, ram.first, ram.last)
      ensures OtherHeapsKept(old(Snap()), Snap(), page) && TakesFree(old(Snap()), Snap())
      ensures ChainGrid(old(Snap()), page, a) ==> ChainGrid(Snap(), page, a) && (r.Some? ==> Multiple(r.value, a))
      decreases PagesLeft(), Age(page), 0
    {
      hide HeapSound, SameClients, SameChains, Packed, Fits, ChainGrid, OtherHeapsKept, OthersKept, PageGrid, Allocated, TakesFree,
           TakesPage, Costs, Answer, Along, NewOffer, LinkedTo, AlignUp, Lowest, OnChain;
      ghost var h := Snap();
      TakesNone(h, h);
      PageAt(h, page);
      SameKept(h, page);
      OneKept(h, h, page);
      SameRefl(h);
      RoundedTwice(size, a);
      if info[page].next == 0 {
        var f := Extend(page);
        if f.None? {
          NoPageZero(h);
          CostsNothing(h, page, size, a);
          TakesNothing(h, size, a, ram.first, ram.last);
          return None, 0, 1;
        }
        NewPageOffers(h, Snap(), f.value, size, a, ram.first, ram.last);
      } else {
        SameLinked(h, page);
      }
      ghost var h1, next := Snap(), info[page].next;
      NextStarts(h, h1, page, a);
      SameGrid(h.carve, h1.carve, page, a);
      r, q, hops := Kalloc(info[page].next, size, a);
      hops := hops + 1;
      NextKept(h1, Snap(), page);
      NextGrid(h, h1, Snap(), page, next, a);
      CostsNowhere(h1, Snap(), next, hops - 1, q, r, size, a);
      BehindPage(Snap(), page, next, hops - 1, q);
      CostsNext(h, h1, Snap(), page, next, hops - 1, q, r, size, a);
      if h1 != h {
        TakesPageLater(h, h1, Snap(), next, Along(h1, next, size, a).Some?, size, a, ram.first, ram.last);
      }
      TakesFreeTwice(h, h1, Snap());
      Later(h, h1, Snap(), q, r, size);
    }

    /** `kfree` of a live region with its rounded size. */
    method Kfree(r: Word, size: Word)
      requires Valid() && Live(Snap(), r) && size == SizeOf(Snap(), r)
      modifies this
      ensures Valid() && Freed(old(Snap()), Snap(), r) && SameChains(old(Snap()), Snap())
      ensures OthersKept(old(Snap()), Snap(), Base(r)) && SameLinks(old(Snap()), Snap())
      ensures Base(r) in old(info) && Base(r) in info && info[Base(r)].nextFree == old(info)[Base(r)].nextFree
    {
      hide HeapSound, Packed, Freed, Push, SameChains, OthersKept, SameLinks;
      ghost var h := Snap();
      var page: Word := r / 0x1000 * 0x1000;
      PageAt(h, page);
      PushSafe(h, page, r);
      ghost var s := Push(View(h, page), r, size);
      mem := Give(mem, info[page].freeList, r, size, View(h, page));
      info := info[page := info[page].(freeList := r, size := info[page].size - size)];
      carve := carve[page := Carving(s.block, s.free, carve[page].rank)];
      Pushed(View(h, page), r, size);
      assert Snap() == WithPage(h, page, s, h.info[page].size - size);
      WithPageChains(h, page, s, h.info[page].size - size);
      WithPageKept(h, page, s, h.info[page].size - size);
    }

    /** A store through a client's pointer. */
    method Store(a: nat, v: Word)
      requires Valid() && Clients(Snap(), a) && a % 8 == 0
      modifies this`mem
      ensures Valid() && Snap() == Stored(old(Snap()), a, v)
    {
      hide HeapSound;
      StoredSound(Snap(), a, v);
      mem := mem[a := v];
      assert Snap() == Stored(old(Snap()), a, v);
    }

    /** `palloc` of a page for the caller's own use: without a header, or with one that is
        not used, as in the stack of a process. */
    method TakePage() returns (f: Option<Word>)
      requires Valid()
      modifies ram.bits
      ensures Valid() && f == Lowest(old(ram.bits[..]), ram.first, ram.last) && (f.None? <==> old(PagesLeft()) == 0)
      ensures f.Some? ==> FreePage(old(Snap()), f.value) && f.value !in info
      ensures var used := old(ram.bits[..]);
        ram.bits[..] == if f.Some? && f.value / PAGE_SIZE < |used| then used[f.value / PAGE_SIZE := true] else used
    {
      hide HeapSound;
      ghost var h := Snap();
      PagesUsed(h);
      NoneClear(ram.bits[..], ram.first, ram.last);
      var index := ram.Palloc();
      UsedSound(h, ram.bits[..]);
      if index.None? {
        return None;
      }
      return Some(index.value * PAGE_SIZE);
    }

    /** `pfree` of a page that is no heap page. */
    method Pfree(address: Word, size: Word)
      requires Valid() && address / PAGE_SIZE < |ram.bits[..]| && Base(address) !in info
      modifies ram.bits
      ensures Valid() && ram.bits[..] == old(ram.bits[..])[address / PAGE_SIZE := false]
    {
      hide HeapSound;
      ghost var h := Snap();
      PagesUsed(h);
      ram.Pfree(address, size);
      UsedSound(h, ram.bits[..]);
    }
  }

  lemma LivePlaced(h: Heap, r: nat)
    requires HeapSound(h) && Live(h, r)
    ensures r % 8 == 0 && Base(r) <= r && r + SizeOf(h, r) <= Base(r) + PAGE_SIZE
  {
    hide LiveSum, Unshared, NextSound, Listed;
    assert PageSound(h, Base(r));
    assert Placed(h.carve[Base(r)].block, Base(r) + HEADER, h.info[Base(r)].nextFree, r);
  }

  lemma RegionIsClients(h: Heap, r: nat, offset: nat)
    requires Live(h, r) && Base(r) <= r && r + SizeOf(h, r) <= Base(r) + PAGE_SIZE && offset < SizeOf(h, r)
    ensures Clients(h, r + offset)
  {
    BaseOf(Base(r), r + offset);
    assert Held(View(h, Base(r)), r);
  }

  lemma PagesKept(h: Heap, h': Heap)
    requires SameChains(h, h')
    ensures h.info.Keys <= h'.info.Keys
  {
    forall p | p in h.info
      ensures p in h'.info
    {
      assert h.info[p].next == h.info[p].next;
    }
  }

  lemma LivePositive(h: Heap, a: nat)
    requires HeapSound(h) && Live(h, a)
    ensures SizeOf(h, a) > 0
  {
    hide LiveSum, Unshared, NextSound, Listed;
    assert PageSound(h, Base(a));
    assert Placed(h.carve[Base(a)].block, Base(a) + HEADER, h.info[Base(a)].nextFree, a);
  }

  lemma Pushed(s: Snapshot, r: Word, size: Word)
    ensures Push(s, r, size).head == r && Push(s, r, size).next == s.next
    ensures Push(s, r, size).block == s.block && Push(s, r, size).free == [r] + s.free
  {
  }

  lemma WithPageChains(h: Heap, p: nat, s: Snapshot, size: Word)
    requires p in h.info && p in h.carve && s.next < 0x1_0000_0000_0000_0000
    ensures SameChains(h, WithPage(h, p, s, size))
  {
  }

  // --- Stores of clients ---

  ghost function Stored(h: Heap, a: nat, v: Word): Heap { h.(mem := h.mem[a := v]) }

  lemma StoredPage(h: Heap, p: nat, a: nat, v: Word)
    requires p in h.info && p in h.carve && PageSound(h, p) && Clients(h, a) && a % 8 == 0
    ensures PageSound(Stored(h, a, v), p)
  {
    hide Packed, Clients;
    var s, s' := View(h, p), View(Stored(h, a, v), p);
    ClientsForeign(h, p, a);
    assert s' == s.(mem := s.mem[a := v]);
    if Base(a) == p {
      StorePacked(s, p + HEADER, p + PAGE_SIZE, a, v);
    } else {
      PackedFrame(s, s'.mem, p + HEADER, p + PAGE_SIZE);
    }
    LiveSumChange(s, s', p + PAGE_SIZE, p + PAGE_SIZE);
  }

  /** A store through a client's pointer keeps every heap sound and every region live. */
  lemma StoredSound(h: Heap, a: nat, v: Word)
    requires HeapSound(h) && Clients(h, a) && a % 8 == 0
    ensures HeapSound(Stored(h, a, v))
    ensures forall b: nat {:trigger Live(Stored(h, a, v), b)} :: Live(Stored(h, a, v), b) <==> Live(h, b)
  {
    hide PageSound, Clients, Unshared;
    var h' := Stored(h, a, v);
    forall p | p in h'.info
      ensures PageSound(h', p) && NextSound(h', p)
    {
      assert NextSound(h, p);
      StoredPage(h, p, a, v);
    }
    assert Unshared(h') by {
      StoredUnshared(h, a, v);
    }
  }

  lemma StoredUnshared(h: Heap, a: nat, v: Word)
    requires Unshared(h)
    ensures Unshared(Stored(h, a, v))
  {
  }

  // --- What the invariant means ---

  /** Live regions lie in the bodies of heap pages and are pairwise disjoint, ... */
  lemma LiveRegionsApart(h: Heap, a: nat, b: nat)
    requires HeapSound(h) && Live(h, a) && Live(h, b) && a != b
    ensures Base(a) + HEADER <= a && a + SizeOf(h, a) <= Base(a) + PAGE_SIZE
    ensures Apart(a, SizeOf(h, a), b, SizeOf(h, b))
  {
    hide LiveSum, Unshared, NextSound, Listed;
    var p := Base(a);
    assert PageSound(h, p);
    HeldInPage(h, p, a);
    LiveApart(h, p, a, SizeOf(h, a), b);
  }

  /** ... free blocks lie in their own page, once each, apart from every live region, ... */
  lemma FreeBlocksApart(h: Heap, p: nat, k: nat, a: nat)
    requires HeapSound(h) && p in h.info && p in h.carve && k < |h.carve[p].free| && Live(h, a)
    ensures h.carve[p].free[k] in h.carve[p].block && Base(h.carve[p].free[k]) == p
    ensures Apart(h.carve[p].free[k], h.carve[p].block[h.carve[p].free[k]], a, SizeOf(h, a))
  {
    hide LiveSum, Unshared, NextSound;
    var b := h.carve[p].free[k];
    assert PageSound(h, p);
    FreeBlockAt(View(h, p), p + HEADER, p + PAGE_SIZE, k);
    assert Placed(h.carve[p].block, p + HEADER, h.info[p].nextFree, b);
    BaseOf(p, b);
    hide Listed, HeapSound;
    if Base(a) == p {
      assert Apart(b, h.carve[p].block[b], a, h.carve[p].block[a]);
    } else {
      OtherPage(h, p, b, h.carve[p].block[b], a);
    }
  }

  lemma OtherPage(h: Heap, p: nat, b: nat, size: nat, a: nat)
    requires HeapSound(h) && p in h.info && Live(h, a) && Base(a) != p && p <= b && b + size <= p + PAGE_SIZE
    ensures Apart(b, size, a, SizeOf(h, a))
  {
    hide Packed, LiveSum;
    LiveApart(h, p, b, size, a);
  }

  /** ... and a page's account is the sum of the sizes live on it. */
  lemma AccountExact(h: Heap, p: nat)
    requires HeapSound(h) && p in h.info && p in h.carve
    ensures h.info[p].size == LiveSum(View(h, p), p + PAGE_SIZE) <= PAGE_SIZE - HEADER
  {
    hide Unshared, NextSound;
    assert PageSound(h, p);
    LiveSumBound(View(h, p), p + HEADER, p + PAGE_SIZE, p + PAGE_SIZE);
  }

  /** Heaps do not depend on the bits of pages that are not theirs. */
  lemma UsedSound(h: Heap, used: seq<bool>)
    requires HeapSound(h) && |used| == |h.used|
    requires forall p :: p in h.info && p / PAGE_SIZE < |used| ==> used[p / PAGE_SIZE]
    ensures HeapSound(h.(used := used))
  {
    hide Packed, LiveSum;
    var h' := h.(used := used);
    forall p | p in h'.info
      ensures PageSound(h', p) && NextSound(h', p)
    {
      hide Unshared;
      assert PageSound(h, p) && NextSound(h, p);
      assert View(h', p) == View(h, p);
    }
  }

  // --- The wrong size ---

  /** What `kfree(r, n)` leaves behind for any `n`, the page being carved up as `c` says:
      the account is subtracted from in 64-bit arithmetic. */
  ghost function KfreeAs(h: Heap, p: nat, r: Word, n: Word, c: Carving): Heap
    requires p in h.info && p in h.carve
  {
    h.(mem := Push(View(h, p), r, n).mem,
       info := h.info[p := Header(h.info[p].next, r, h.info[p].nextFree,
                                  (h.info[p].size + 0x1_0000_0000_0000_0000 - n) % 0x1_0000_0000_0000_0000)],
       carve := h.carve[p := c])
  }

  /** `c` takes the region at `r` back, and leaves all others of the page as they are. */
  ghost predicate GivesBack(h: Heap, p: nat, r: nat, c: Carving)
    requires p in h.info && p in h.carve
  {
    var s := View(h, p);
    forall a: nat :: HeldSize(s.(block := c.block, free := c.free), a) == if a == r then 0 else HeldSize(s, a)
  }

  /** However the page is carved up then, its account is off by what `n` is off. */
  lemma AccountDrifts(h: Heap, p: nat, r: Word, n: Word, c: Carving)
    requires HeapSound(h) && p in h.info && p in h.carve && Held(View(h, p), r) && GivesBack(h, p, r, c)
    ensures var h' := KfreeAs(h, p, r, n, c);
      && var live := LiveSum(View(h', p), p + PAGE_SIZE);
      && live < 0x1_0000_0000_0000_0000
      && h'.info[p].size
         == (live + h.carve[p].block[r] + 0x1_0000_0000_0000_0000 - n) % 0x1_0000_0000_0000_0000
  {
    hide HeapSound, Packed, LiveSum, HeldSize, Push, Live, SizeOf;
    var s, s' := View(h, p), View(KfreeAs(h, p, r, n, c), p);
    HeldHere(h, p, r);
    AccountExact(h, p);
    forall a: nat
      ensures HeldSize(s', a) == if a == r then 0 else HeldSize(s, a)
    {
      SameHeldSize(s', s.(block := c.block, free := c.free), a);
    }
    LiveSumChange(s, s', r, p + PAGE_SIZE);
    HeldSizeIs(s, r);
  }

  lemma SameHeldSize(s: Snapshot, s': Snapshot, a: nat)
    requires s.block == s'.block && s.free == s'.free
    ensures HeldSize(s, a) == HeldSize(s', a)
  {
  }

  lemma HeldSizeIs(s: Snapshot, a: nat)
    requires Held(s, a)
    ensures HeldSize(s, a) == s.block[a]
  {
  }

  /** So no carving at all makes the heap sound, unless `kfree` is given the size that
      `kalloc` rounded the request to. */
  lemma KfreeExact(h: Heap, p: nat, r: Word, n: Word)
    requires HeapSound(h) && p in h.info && p in h.carve && Held(View(h, p), r)
    ensures (exists c: Carving :: GivesBack(h, p, r, c) && HeapSound(KfreeAs(h, p, r, n, c)))
       <==> n == h.carve[p].block[r]
  {
    hide HeapSound, GivesBack, KfreeAs;
    forall c: Carving | GivesBack(h, p, r, c) && HeapSound(KfreeAs(h, p, r, n, c))
      ensures n == h.carve[p].block[r]
    {
      SoundKfree(h, p, r, n, c);
    }
    if n == h.carve[p].block[r] {
      ProperKfree(h, p, r);
    }
  }

  lemma BlockBelow(h: Heap, p: nat, r: Word)
    requires HeapSound(h) && p in h.info && p in h.carve && Held(View(h, p), r)
    ensures r in h.carve[p].block && h.carve[p].block[r] < 0x1_0000_0000_0000_0000
  {
    hide HeapSound;
    PushSafe(h, p, r);
  }

  lemma SoundKfree(h: Heap, p: nat, r: Word, n: Word, c: Carving)
    requires HeapSound(h) && p in h.info && p in h.carve && Held(View(h, p), r)
    requires GivesBack(h, p, r, c) && HeapSound(KfreeAs(h, p, r, n, c))
    ensures n == h.carve[p].block[r]
  {
    hide *;
    BlockBelow(h, p, r);
    KfreeAsPage(h, p, r, n, c);
    AccountExact(KfreeAs(h, p, r, n, c), p);
    AccountDrifts(h, p, r, n, c);
    SmallDrift(LiveSum(View(KfreeAs(h, p, r, n, c), p), p + PAGE_SIZE), h.carve[p].block[r], n);
  }

  lemma KfreeAsPage(h: Heap, p: nat, r: Word, n: Word, c: Carving)
    requires p in h.info && p in h.carve
    ensures p in KfreeAs(h, p, r, n, c).info && p in KfreeAs(h, p, r, n, c).carve
  {
  }

  lemma SmallDrift(live: nat, b: nat, n: nat)
    requires live < 0x1_0000_0000_0000_0000 && b < 0x1_0000_0000_0000_0000 && n < 0x1_0000_0000_0000_0000
    requires live == (live + b + 0x1_0000_0000_0000_0000 - n) % 0x1_0000_0000_0000_0000
    ensures n == b
  {
  }

  lemma ProperKfree(h: Heap, p: nat, r: Word)
    requires HeapSound(h) && p in h.info && p in h.carve && Held(View(h, p), r) && h.carve[p].block[r] < 0x1_0000_0000_0000_0000
    ensures exists c: Carving :: GivesBack(h, p, r, c) && HeapSound(KfreeAs(h, p, r, h.carve[p].block[r], c))
  {
    hide HeapSound, Push, GivesBack, KfreeAs, WithPage, Freed;
    var c := Carving(h.carve[p].block, [r] + h.carve[p].free, h.carve[p].rank);
    PushSafe(h, p, r);
    ProperKfreeIs(h, p, r);
    TakesBack(h, p, r);
    assert GivesBack(h, p, r, c) && HeapSound(KfreeAs(h, p, r, h.carve[p].block[r], c));
  }

  lemma ProperKfreeIs(h: Heap, p: nat, r: Word)
    requires p in h.info && p in h.carve && r in h.carve[p].block && h.carve[p].block[r] <= h.info[p].size
    ensures var n, c := h.carve[p].block[r], Carving(h.carve[p].block, [r] + h.carve[p].free, h.carve[p].rank);
      KfreeAs(h, p, r, n, c) == WithPage(h, p, Push(View(h, p), r, n), h.info[p].size - n)
  {
    Pushed(View(h, p), r, h.carve[p].block[r]);
  }

  lemma TakesBack(h: Heap, p: nat, r: Word)
    requires p in h.info && p in h.carve && Held(View(h, p), r)
    ensures GivesBack(h, p, r, Carving(h.carve[p].block, [r] + h.carve[p].free, h.carve[p].rank))
  {
    TakenBack(View(h, p), h.carve[p].block, [r] + h.carve[p].free, r);
  }

  lemma TakenBack(s: Snapshot, block: map<nat, nat>, free: seq<nat>, r: nat)
    requires Held(s, r) && block == s.block && free == [r] + s.free
    ensures forall a: nat :: HeldSize(s.(block := block, free := free), a) == if a == r then 0 else HeldSize(s, a)
  {
  }

  /** `kalloc` of the same size right after `kfree` finds the same region again. */
  lemma FreeThenReuse(h: Heap, h': Heap, r: nat)
    requires HeapSound(h') && Live(h, r) && Freed(h, h', r)
    ensures Reusable(h', Base(r), SizeOf(h, r)) == Some(r)
  {
    assert h'.carve[Base(r)].free == [r] + h.carve[Base(r)].free;
    assert h'.carve[Base(r)].block == h.carve[Base(r)].block;
    hide HeapSound, Freed, Packed;
    PageAt(h', Base(r));
  }
}
