/** Runs of the page allocator's clients: `palloc`, `pfree`, `kalloc`, `kfree` of
    kernel/memory/page_allocator.c and stores, in any order. */
module HeapRuns {
  import opened Division
  import opened FreeList
  import opened KernelHeap
  import opened Options
  import opened PageBitmap
  import opened PhysicalMemory

  /** What a client does: get a region from its `i`th heap, give its `i`th region back or
      store a word in it; start a heap; take a page for itself, give its `i`th one back or
      store a word in it. */
  datatype Request =
    | Allocate(i: nat, size: Word, alignment: nat)
    | Release(i: nat)
    | Write(i: nat, offset: nat, value: Word)
    | StartHeap
    | Take
    | GiveBack(i: nat)
    | WritePage(i: nat, offset: nat, value: Word)

  /** Regions with their rounded sizes. */
  type Holdings = seq<(Word, Word)>

  /** What clients own: heaps by their first page, regions, and pages of no heap. */
  datatype Own = Own(heaps: seq<Word>, held: Holdings, pages: seq<Word>)

  /** What a run goes through. */
  datatype Config = Config(h: Heap, own: Own)

  // --- The steps ---

  /** A request for `size` bytes met with the region at `r`, from page `q`, `n` links down
      the caller's own chain: the first that any page of the chain has to offer, or else
      what a new page offers; on the caller's alignment if the heap has only served that
      one; nothing changes in other heaps, nor in this one but for what the request costs. */
  ghost predicate AllocateStep(h: Heap, page: nat, size: Word, a: nat, h': Heap, r: Word, q: nat, n: nat, first: nat, last: nat) {
    && Alignment(a) && HeapSound(h) && page in h.info && first <= last <= |h.used|
    && Answer(h, page, AlignUp(size, a), a, first, last) == Some(r)
    && Costs(h, h', page, n, q, Some(r), AlignUp(size, a), a)
    && TakesPage(h, h', Along(h, page, AlignUp(size, a), a).Some?, AlignUp(size, a), a, first, last)
    && Allocated(h, h', q, r, AlignUp(size, a)) && q == Hop(h', page, n)
    && SameChains(h, h') && OtherHeapsKept(h, h', page) && TakesFree(h, h')
    && (ChainGrid(h, page, a) ==> ChainGrid(h', page, a) && Multiple(r, a))
  }

  /** An empty region is nothing to hold. */
  function Keeping(held: Holdings, r: Word, size: Word): Holdings {
    if size == 0 then held else held + [(r, size)]
  }

  ghost predicate AllocateTo(c: Config, page: nat, size: Word, a: nat, c': Config, r: Word, q: nat, n: nat, first: nat, last: nat) {
    && AllocateStep(c.h, page, size, a, c'.h, r, q, n, first, last)
    && c'.own == c.own.(held := Keeping(c.own.held, r, AlignUp(size, a)))
  }

  ghost predicate ReleaseStep(c: Config, i: nat, c': Config)
    requires i < |c.own.held|
  {
    var r := c.own.held[i].0;
    && Live(c.h, r) && Freed(c.h, c'.h, r) && SameChains(c.h, c'.h) && OthersKept(c.h, c'.h, Base(r))
    && c'.h.used == c.h.used && SameLinks(c.h, c'.h)
    && Base(r) in c'.h.info && c'.h.info[Base(r)].nextFree == c.h.info[Base(r)].nextFree
    && c'.own == c.own.(held := c.own.held[..i] + c.own.held[i + 1..])
  }

  /** The page at `f` taken out of the bitmap, or put back. */
  ghost function Marked(h: Heap, f: nat, used: bool): Heap {
    if f / PAGE_SIZE < |h.used| then h.(used := h.used[f / PAGE_SIZE := used]) else h
  }

  ghost predicate PageStep(c: Config, f: Word, heap: bool, c': Config, first: nat, last: nat) {
    && first <= last <= |c.h.used| && Lowest(c.h.used, first, last) == Some(f) && FreePage(c.h, f)
    && c' == if heap then Config(NewPage(c.h, f), c.own.(heaps := c.own.heaps + [f]))
             else Config(Marked(c.h, f, true), c.own.(pages := c.own.pages + [f]))
  }

  /** One request that is met. */
  ghost predicate Step(c: Config, request: Request, c': Config, first: nat, last: nat) {
    match request
    case Allocate(i, size, a) =>
      if i < |c.own.heaps| then
        exists r: Word, q: nat, n: nat :: AllocateTo(c, c.own.heaps[i], size, a, c', r, q, n, first, last)
      else c' == c
    case Release(i) => if i < |c.own.held| then ReleaseStep(c, i, c') else c' == c
    case Write(i, offset, v) =>
      c' == if i < |c.own.held| && offset % 8 == 0 && offset < c.own.held[i].1 then
              c.(h := Stored(c.h, c.own.held[i].0 + offset, v))
            else c
    case StartHeap => exists f: Word :: PageStep(c, f, true, c', first, last)
    case Take => exists f: Word :: PageStep(c, f, false, c', first, last)
    case GiveBack(i) =>
      c' == if i < |c.own.pages| then
              Config(Marked(c.h, c.own.pages[i], false), c.own.(pages := c.own.pages[..i] + c.own.pages[i + 1..]))
            else c
    case WritePage(i, offset, v) =>
      c' == if i < |c.own.pages| && offset % 8 == 0 && offset < PAGE_SIZE then
              c.(h := Stored(c.h, c.own.pages[i] + offset, v))
            else c
  }

  /** No page of the heap has anything to offer, and no page is left for the request, or no
      page can ever have the room for it. */
  ghost predicate Starved(c: Config, request: Request, first: nat, last: nat) {
    match request
    case Allocate(i, size, a) =>
      && i < |c.own.heaps| && Alignment(a) && HeapSound(c.h) && c.own.heaps[i] in c.h.info
      && Along(c.h, c.own.heaps[i], AlignUp(size, a), a).None?
      && (Fits(AlignUp(size, a), a) ==> first <= last <= |c.h.used| && CountClear(c.h.used, first, last) == 0)
    case StartHeap => first <= last <= |c.h.used| && CountClear(c.h.used, first, last) == 0
    case Take => first <= last <= |c.h.used| && CountClear(c.h.used, first, last) == 0
    case _ => false
  }

  // --- What every step keeps ---

  ghost predicate Holds(h: Heap, held: Holdings) {
    && (forall k {:trigger held[k]} :: 0 <= k < |held| ==> Live(h, held[k].0) && SizeOf(h, held[k].0) == held[k].1)
    && (forall j, k {:trigger held[j], held[k]} :: 0 <= j < k < |held| ==> held[j].0 != held[k].0)
  }

  /** A page in use that is no heap page, and was free when the run began. */
  ghost predicate Owned(before: seq<bool>, h: Heap, p: nat) {
    && Aligned(p) && p !in h.info
    && p / PAGE_SIZE < |h.used| && h.used[p / PAGE_SIZE]
    && p / PAGE_SIZE < |before| && !before[p / PAGE_SIZE]
  }

  ghost predicate Owns(before: seq<bool>, h: Heap, heaps: seq<Word>, pages: seq<Word>) {
    && (forall k :: 0 <= k < |heaps| ==> heaps[k] in h.info)
    && (forall k :: 0 <= k < |pages| ==> Owned(before, h, pages[k]))
    && (forall j, k :: 0 <= j < k < |pages| ==> pages[j] != pages[k])
  }

  /** No page is lost: in use are those that were before the run, the pages of the heaps,
      and those that clients took. */
  ghost predicate Accounted(before: seq<bool>, h: Heap, pages: seq<Word>) {
    && |h.used| == |before|
    && forall i: nat :: i < |before| ==> (h.used[i] <==> before[i] || i * PAGE_SIZE in h.info || i * PAGE_SIZE in pages)
  }

  ghost predicate Standing(before: seq<bool>, c: Config) {
    && HeapSound(c.h) && Holds(c.h, c.own.held)
    && Owns(before, c.h, c.own.heaps, c.own.pages) && Accounted(before, c.h, c.own.pages)
  }

  // --- Regions ---

  lemma HoldsMore(h: Heap, h': Heap, held: Holdings, q: nat, r: Word, size: Word)
    requires Holds(h, held) && Allocated(h, h', q, r, size) && HeapSound(h) && Room(size)
    ensures Holds(h', Keeping(held, r, size))
  {
    hide Live, SizeOf, Clients;
    forall k | 0 <= k < |held|
      ensures Live(h', held[k].0) && SizeOf(h', held[k].0) == held[k].1
      ensures size != 0 ==> held[k].0 != r
    {
      assert Live(h, held[k].0);
      assert Live(h', held[k].0);
      LivePositive(h, held[k].0);
    }
    if size != 0 {
      assert Live(h', r) && !Live(h, r) by {
        if Live(h, r) {
          LivePositive(h, r);
        }
      }
    }
  }

  lemma WriteHolds(h: Heap, held: Holdings, i: nat, offset: nat, v: Word)
    requires HeapSound(h) && Holds(h, held) && i < |held| && offset % 8 == 0 && offset < held[i].1
    ensures (held[i].0 + offset) % 8 == 0 && Clients(h, held[i].0 + offset)
    ensures Holds(Stored(h, held[i].0 + offset, v), held)
  {
    hide HeapSound, Holds, Live, SizeOf, Clients, Stored;
    HeldLive(h, held, i);
    LivePlaced(h, held[i].0);
    RegionIsClients(h, held[i].0, offset);
    StoredHolds(h, held, held[i].0 + offset, v);
    BothOfEight(held[i].0, offset);
  }

  lemma BothOfEight(a: nat, b: nat)
    requires a % 8 == 0 && b % 8 == 0
    ensures (a + b) % 8 == 0
  {
    DivModIs(a + b, 8, a / 8 + b / 8, 0);
  }

  lemma StoredHolds(h: Heap, held: Holdings, a: nat, v: Word)
    requires Holds(h, held)
    ensures Holds(Stored(h, a, v), held)
  {
    forall k | 0 <= k < |held|
      ensures Live(Stored(h, a, v), held[k].0) && SizeOf(Stored(h, a, v), held[k].0) == held[k].1
    {
      assert Live(h, held[k].0);
    }
  }

  lemma HeldLive(h: Heap, held: Holdings, i: nat)
    requires Holds(h, held) && i < |held|
    ensures Live(h, held[i].0) && SizeOf(h, held[i].0) == held[i].1
  {
  }

  lemma HoldsSame(h: Heap, h': Heap, held: Holdings)
    requires Holds(h, held) && SameClients(h, h')
    ensures Holds(h', held)
  {
    forall k | 0 <= k < |held|
      ensures Live(h', held[k].0) && SizeOf(h', held[k].0) == held[k].1
    {
      assert Live(h, held[k].0);
    }
  }

  lemma HoldsMarked(h: Heap, f: nat, used: bool, held: Holdings)
    requires Holds(h, held)
    ensures Holds(Marked(h, f, used), held)
  {
    var h' := Marked(h, f, used);
    forall k | 0 <= k < |held|
      ensures Live(h', held[k].0) && SizeOf(h', held[k].0) == held[k].1
    {
      assert Live(h, held[k].0);
      assert Base(held[k].0) in h.info && View(h', Base(held[k].0)) == View(h, Base(held[k].0));
    }
  }

  lemma HoldsLess(h: Heap, h': Heap, held: Holdings, i: nat)
    requires Holds(h, held) && i < |held| && Freed(h, h', held[i].0)
    ensures Holds(h', held[..i] + held[i + 1..])
  {
    hide Live, SizeOf, Clients;
    var rest := held[..i] + held[i + 1..];
    forall k | 0 <= k < |rest|
      ensures Live(h', rest[k].0) && SizeOf(h', rest[k].0) == rest[k].1
    {
      var j := if k < i then k else k + 1;
      assert rest[k] == held[j] && held[j].0 != held[i].0;
      assert Live(h, held[j].0);
      assert Live(h', held[j].0);
    }
  }

  // --- Pages ---

  lemma PageIndex(i: nat, p: nat)
    requires Aligned(p)
    ensures i * PAGE_SIZE == p <==> i == p / PAGE_SIZE
  {
    DivModIs(i * PAGE_SIZE, PAGE_SIZE, i, 0);
  }

  /** A step that only turns free pages into heap pages. */
  lemma OwnsGrown(before: seq<bool>, h: Heap, h': Heap, heaps: seq<Word>, pages: seq<Word>)
    requires Owns(before, h, heaps, pages) && TakesFree(h, h')
    ensures Owns(before, h', heaps, pages)
  {
    assert forall q :: q in h.info ==> q in h.info.Keys && q in h'.info.Keys;
    forall k | 0 <= k < |pages|
      ensures Owned(before, h', pages[k])
    {
      assert Owned(before, h, pages[k]);
      assert pages[k] !in h'.info;
    }
  }

  lemma AccountedGrown(before: seq<bool>, h: Heap, h': Heap, pages: seq<Word>)
    requires Accounted(before, h, pages) && TakesFree(h, h')
    ensures Accounted(before, h', pages)
  {
    assert forall q :: q in h.info ==> q in h.info.Keys && q in h'.info.Keys;
    forall i: nat | i < |before|
      ensures h'.used[i] <==> before[i] || i * PAGE_SIZE in h'.info || i * PAGE_SIZE in pages
    {
      assert h'.used[i] <==> h.used[i] || (i * PAGE_SIZE in h'.info && i * PAGE_SIZE !in h.info);
    }
  }

  lemma GrownStanding(before: seq<bool>, c: Config, h': Heap, held': Holdings)
    requires Standing(before, c) && HeapSound(h') && TakesFree(c.h, h') && Holds(h', held')
    ensures Standing(before, Config(h', c.own.(held := held')))
  {
    hide HeapSound, Holds, Owns, Accounted, TakesFree;
    OwnsGrown(before, c.h, h', c.own.heaps, c.own.pages);
    AccountedGrown(before, c.h, h', c.own.pages);
  }

  lemma StartedStanding(before: seq<bool>, c: Config, f: Word)
    requires Standing(before, c) && FreePage(c.h, f) && HeapSound(NewPage(c.h, f)) && SameClients(c.h, NewPage(c.h, f))
    ensures Standing(before, Config(NewPage(c.h, f), c.own.(heaps := c.own.heaps + [f])))
  {
    hide HeapSound, Holds, Accounted, Owns, TakesFree, NewPage, SameClients, FreePage;
    PageUnknown(before, c, f);
    var h' := NewPage(c.h, f);
    StartedKeys(c.h, f);
    HoldsSame(c.h, h', c.own.held);
    TakesNewPage(c.h, f, h');
    OwnsGrown(before, c.h, h', c.own.heaps, c.own.pages);
    OwnsStarted(before, h', c.own.heaps, c.own.pages, f);
    AccountedGrown(before, c.h, h', c.own.pages);
  }

  lemma StartedKeys(h: Heap, f: Word)
    requires FreePage(h, f) && f + PAGE_SIZE < 0x1_0000_0000_0000_0000
    ensures NewPage(h, f).info.Keys == h.info.Keys + {f} && f in NewPage(h, f).info
  {
  }

  lemma OwnsStarted(before: seq<bool>, h: Heap, heaps: seq<Word>, pages: seq<Word>, f: Word)
    requires Owns(before, h, heaps, pages) && f in h.info
    ensures Owns(before, h, heaps + [f], pages)
  {
  }

  /** A free page belongs to nobody. */
  lemma PageUnknown(before: seq<bool>, c: Config, f: Word)
    requires Standing(before, c) && FreePage(c.h, f)
    ensures f !in c.h.info && f !in c.own.pages && f / PAGE_SIZE < |before| && !before[f / PAGE_SIZE]
    ensures f / PAGE_SIZE < |c.h.used| && f + PAGE_SIZE < 0x1_0000_0000_0000_0000
  {
    hide HeapSound, Holds;
    PagesUsed(c.h);
    PageIndex(f / PAGE_SIZE, f);
    forall k | 0 <= k < |c.own.pages|
      ensures c.own.pages[k] != f
    {
      assert Owned(before, c.h, c.own.pages[k]);
    }
  }

  lemma TakenOwns(before: seq<bool>, h: Heap, heaps: seq<Word>, pages: seq<Word>, f: Word)
    requires Owns(before, h, heaps, pages) && FreePage(h, f) && f !in h.info && f !in pages
    requires f / PAGE_SIZE < |before| && !before[f / PAGE_SIZE]
    ensures Owns(before, Marked(h, f, true), heaps, pages + [f])
  {
    var h' := Marked(h, f, true);
    forall k | 0 <= k < |pages|
      ensures Owned(before, h', pages[k]) && pages[k] != f
    {
      assert Owned(before, h, pages[k]);
      assert pages[k] in pages;
    }
    assert Owned(before, h', f);
  }

  lemma TakenAccounted(before: seq<bool>, h: Heap, pages: seq<Word>, f: Word)
    requires Accounted(before, h, pages) && FreePage(h, f)
    ensures Accounted(before, Marked(h, f, true), pages + [f])
  {
    var h' := Marked(h, f, true);
    assert forall q :: q in pages + [f] <==> q in pages || q == f;
    forall i: nat | i < |before|
      ensures h'.used[i] <==> before[i] || i * PAGE_SIZE in h'.info || i * PAGE_SIZE in pages + [f]
    {
      PageIndex(i, f);
      assert h.used[i] <==> before[i] || i * PAGE_SIZE in h.info || i * PAGE_SIZE in pages;
    }
  }

  lemma TakenStanding(before: seq<bool>, c: Config, f: Word)
    requires Standing(before, c) && FreePage(c.h, f) && HeapSound(Marked(c.h, f, true))
    ensures Standing(before, Config(Marked(c.h, f, true), c.own.(pages := c.own.pages + [f])))
  {
    hide HeapSound, Holds, Owns, Accounted, Marked, FreePage;
    PageUnknown(before, c, f);
    HoldsMarked(c.h, f, true, c.own.held);
    TakenOwns(before, c.h, c.own.heaps, c.own.pages, f);
    TakenAccounted(before, c.h, c.own.pages, f);
  }

  lemma SamePageIndex(p: nat, q: nat)
    requires Aligned(p) && Aligned(q)
    ensures p / PAGE_SIZE == q / PAGE_SIZE <==> p == q
  {
  }

  lemma GivenOwns(before: seq<bool>, h: Heap, heaps: seq<Word>, pages: seq<Word>, i: nat)
    requires Owns(before, h, heaps, pages) && i < |pages|
    ensures Owns(before, Marked(h, pages[i], false), heaps, pages[..i] + pages[i + 1..])
  {
    var h', rest := Marked(h, pages[i], false), pages[..i] + pages[i + 1..];
    assert Owned(before, h, pages[i]);
    forall k | 0 <= k < |rest|
      ensures Owned(before, h', rest[k])
    {
      var j := if k < i then k else k + 1;
      assert rest[k] == pages[j] && Owned(before, h, pages[j]) && pages[j] != pages[i];
      SamePageIndex(pages[j], pages[i]);
    }
  }

  lemma GivenAccounted(before: seq<bool>, h: Heap, heaps: seq<Word>, pages: seq<Word>, i: nat)
    requires Owns(before, h, heaps, pages) && Accounted(before, h, pages) && i < |pages|
    ensures Accounted(before, Marked(h, pages[i], false), pages[..i] + pages[i + 1..])
  {
    var h', rest, p := Marked(h, pages[i], false), pages[..i] + pages[i + 1..], pages[i];
    assert Owned(before, h, p);
    OthersLeft(pages, i, rest);
    forall k: nat | k < |before|
      ensures h'.used[k] <==> before[k] || k * PAGE_SIZE in h'.info || k * PAGE_SIZE in rest
    {
      PageIndex(k, p);
      assert h.used[k] <==> before[k] || k * PAGE_SIZE in h.info || k * PAGE_SIZE in pages;
    }
  }

  lemma OthersLeft(pages: seq<Word>, i: nat, rest: seq<Word>)
    requires i < |pages| && rest == pages[..i] + pages[i + 1..]
    requires forall j, k :: 0 <= j < k < |pages| ==> pages[j] != pages[k]
    ensures forall q :: q in rest <==> q in pages && q != pages[i]
  {
    forall q | q in pages && q != pages[i]
      ensures q in rest
    {
      var j :| 0 <= j < |pages| && pages[j] == q;
      assert rest[if j < i then j else j - 1] == q;
    }
  }

  lemma GivenStanding(before: seq<bool>, c: Config, i: nat)
    requires Standing(before, c) && i < |c.own.pages| && HeapSound(Marked(c.h, c.own.pages[i], false))
    ensures Standing(before, Config(Marked(c.h, c.own.pages[i], false),
                                    c.own.(pages := c.own.pages[..i] + c.own.pages[i + 1..])))
  {
    hide HeapSound, Holds, Owns, Accounted, Marked;
    HoldsMarked(c.h, c.own.pages[i], false, c.own.held);
    GivenOwns(before, c.h, c.own.heaps, c.own.pages, i);
    GivenAccounted(before, c.h, c.own.heaps, c.own.pages, i);
  }

  lemma OwnedAt(before: seq<bool>, h: Heap, heaps: seq<Word>, pages: seq<Word>, i: nat)
    requires Owns(before, h, heaps, pages) && i < |pages|
    ensures Base(pages[i]) == pages[i] && pages[i] !in h.info && pages[i] / PAGE_SIZE < |h.used|
  {
    assert Owned(before, h, pages[i]);
  }

  lemma PageIsClients(before: seq<bool>, h: Heap, p: Word, offset: nat)
    requires Owned(before, h, p) && offset % 8 == 0 && offset < PAGE_SIZE
    ensures Clients(h, p + offset) && (p + offset) % 8 == 0
  {
    DivModIs(p + offset, PAGE_SIZE, p / PAGE_SIZE, offset);
    DivModIs(p, 8, p / PAGE_SIZE * 512, 0);
    BothOfEight(p, offset);
  }

  /** A page that a client took is apart from every region of every heap. */
  lemma PagesApart(before: seq<bool>, c: Config, k: nat, a: nat)
    requires Standing(before, c) && k < |c.own.pages| && Live(c.h, a)
    ensures Apart(c.own.pages[k], PAGE_SIZE, a, SizeOf(c.h, a))
  {
    hide Holds, Accounted;
    var p := c.own.pages[k];
    assert Owned(before, c.h, p);
    LivePlaced(c.h, a);
    hide HeapSound, Live, SizeOf;
    BaseAligned(a);
    AlignedApart(p, Base(a));
  }

  lemma BaseAligned(a: nat)
    ensures Aligned(Base(a))
  {
    DivModIs(Base(a), 0x1000, a / 0x1000, 0);
  }

  // --- Runs ---

  /** `kalloc` only knows these two alignments, and serves less than a page from heaps. */
  predicate Small(request: Request) {
    request.Allocate? ==> Alignment(request.alignment) && AlignUp(request.size, request.alignment) < PAGE_SIZE
  }

  /** Any run of clients that write and give back only what they own.  `trace` is the run,
      step by step: every request it met, it met as `Step` says, and what is owned at the
      end is what the last step left.  It ends early only at a request for which there is
      no page; and at every step all heaps are sound, what is held is live and apart, and no
      page is lost or has two owners. */
  method Run(kernel: PageAllocator, requests: seq<Request>) returns (done: nat, own: Own, ghost trace: seq<Config>)
    requires kernel.Valid() && forall k :: 0 <= k < |requests| ==> Small(requests[k])
    modifies kernel, kernel.ram.bits
    ensures kernel.Valid()
    ensures done <= |requests| && |trace| == done + 1 && trace[0] == Config(old(kernel.Snap()), Own([], [], []))
    ensures forall k {:trigger requests[k]} :: 0 <= k < done ==>
              Step(trace[k], requests[k], trace[k + 1], kernel.ram.first, kernel.ram.last)
    ensures forall k {:trigger trace[k]} :: 0 <= k <= done ==> Standing(old(kernel.ram.bits[..]), trace[k])
    ensures own == trace[done].own && Standing(old(kernel.ram.bits[..]), Config(kernel.Snap(), own))
    ensures done == |requests| ==> trace[done].h == kernel.Snap()
    ensures done < |requests| ==>
      Starved(trace[done], requests[done], kernel.ram.first, kernel.ram.last) && SameClients(trace[done].h, kernel.Snap())
  {
    hide HeapSound, Standing, Step, Starved, SameClients, Small;
    ghost var before := kernel.ram.bits[..];
    done, own := 0, Own([], [], []);
    trace := [Config(kernel.Snap(), own)];
    NothingOwned(kernel.Snap());
    while done < |requests|
      invariant kernel.Valid() && done <= |requests| && |trace| == done + 1
      invariant trace[0] == Config(old(kernel.Snap()), Own([], [], [])) && trace[done] == Config(kernel.Snap(), own)
      invariant forall k {:trigger requests[k]} :: 0 <= k < done ==>
        Step(trace[k], requests[k], trace[k + 1], kernel.ram.first, kernel.ram.last)
      invariant forall k {:trigger trace[k]} :: 0 <= k <= done ==> Standing(before, trace[k])
    {
      assert Small(requests[done]) && Standing(before, trace[done]);
      var ok;
      ok, own := Perform(kernel, requests[done], own, before);
      if !ok {
        return;
      }
      trace := trace + [Config(kernel.Snap(), own)];
      done := done + 1;
    }
  }

  lemma NothingOwned(h: Heap)
    requires HeapSound(h)
    ensures Standing(h.used, Config(h, Own([], [], [])))
  {
    PagesUsed(h);
    hide HeapSound;
    forall i: nat | i < |h.used| && i * PAGE_SIZE in h.info
      ensures h.used[i]
    {
      DivModIs(i * PAGE_SIZE, PAGE_SIZE, i, 0);
    }
  }

  method Perform(kernel: PageAllocator, request: Request, own: Own, ghost before: seq<bool>) returns (ok: bool, own': Own)
    requires kernel.Valid() && Standing(before, Config(kernel.Snap(), own)) && Small(request)
    modifies kernel, kernel.ram.bits
    ensures kernel.Valid() && Standing(before, Config(kernel.Snap(), own'))
    ensures var c, first, last := Config(old(kernel.Snap()), own), kernel.ram.first, kernel.ram.last;
      if ok then Step(c, request, Config(kernel.Snap(), own'), first, last)
      else own' == own && Starved(c, request, first, last) && SameClients(c.h, kernel.Snap())
  {
    hide HeapSound, Standing, SameClients, AllocateTo, ReleaseStep, PageStep, Stored, Marked, CountClear, Alignment, AlignUp, Fits;
    own' := own;
    ok := true;
    match request {
      case Allocate(i, size, a) =>
        if i < |own.heaps| {
          var held;
          ok, held := PerformAllocate(kernel, i, size, a, own, before);
          own' := own.(held := held);
        }
      case Release(i) =>
        if i < |own.held| {
          PerformRelease(kernel, i, own, before);
          own' := own.(held := own.held[..i] + own.held[i + 1..]);
        }
      case Write(i, offset, v) =>
        if i < |own.held| && offset % 8 == 0 && offset < own.held[i].1 {
          PerformWrite(kernel, i, offset, v, own, before);
        }
      case StartHeap => ok, own' := PerformPage(kernel, true, own, before);
      case Take => ok, own' := PerformPage(kernel, false, own, before);
      case GiveBack(i) =>
        if i < |own.pages| {
          PerformGiveBack(kernel, i, own, before);
          own' := own.(pages := own.pages[..i] + own.pages[i + 1..]);
        }
      case WritePage(i, offset, v) =>
        if i < |own.pages| && offset % 8 == 0 && offset < PAGE_SIZE {
          PerformWritePage(kernel, i, offset, v, own, before);
        }
    }
  }

  lemma Standings(before: seq<bool>, c: Config)
    requires Standing(before, c)
    ensures HeapSound(c.h) && Holds(c.h, c.own.held)
    ensures Owns(before, c.h, c.own.heaps, c.own.pages) && Accounted(before, c.h, c.own.pages)
    ensures forall k :: 0 <= k < |c.own.heaps| ==> c.own.heaps[k] in c.h.info
    ensures forall k :: 0 <= k < |c.own.pages| ==> Owned(before, c.h, c.own.pages[k])
  {
    hide HeapSound, Holds, Accounted, Owned;
  }

  lemma SmallSays(request: Request)
    requires Small(request) && request.Allocate?
    ensures Alignment(request.alignment) && AlignUp(request.size, request.alignment) < PAGE_SIZE
  {
  }

  method PerformAllocate(kernel: PageAllocator, i: nat, size: Word, a: nat, own: Own, ghost before: seq<bool>)
    returns (ok: bool, held: Holdings)
    requires kernel.Valid() && Standing(before, Config(kernel.Snap(), own)) && i < |own.heaps|
    requires Small(Allocate(i, size, a))
    modifies kernel, kernel.ram.bits
    ensures kernel.Valid() && Standing(before, Config(kernel.Snap(), own.(held := held)))
    ensures var c, first, last := Config(old(kernel.Snap()), own), kernel.ram.first, kernel.ram.last;
      if ok then Step(c, Allocate(i, size, a), Config(kernel.Snap(), own.(held := held)), first, last)
      else held == own.held && Starved(c, Allocate(i, size, a), first, last) && SameClients(c.h, kernel.Snap())
  {
    hide HeapSound, Standing, Allocated, Holds, Owns, Accounted, SameClients, SameChains, Fits, Blank, ChainGrid, OtherHeapsKept,
         AlignUp, Hop, Multiple, Along, Costs, TakesPage, NewOffer, TakesFree, Alignment, Small;
    ghost var h := kernel.Snap();
    Standings(before, Config(h, own));
    SmallSays(Allocate(i, size, a));
    var rounded := AlignUp(size, a);
    RoomOfMultiple(rounded, a);
    var r, q, hops := kernel.Kalloc(own.heaps[i], size, a);
    if r.None? {
      HoldsSame(h, kernel.Snap(), own.held);
      held := own.held;
      ok := false;
    } else {
      HoldsMore(h, kernel.Snap(), own.held, q, r.value, rounded);
      held := own.held;
      if rounded != 0 {
        held := held + [(r.value, rounded)];
      }
      assert held == Keeping(own.held, r.value, rounded);
      ok := true;
      assert AllocateTo(Config(h, own), own.heaps[i], size, a, Config(kernel.Snap(), own.(held := held)), r.value, q, hops,
                        kernel.ram.first, kernel.ram.last);
    }
    GrownStanding(before, Config(h, own), kernel.Snap(), held);
  }

  method PerformRelease(kernel: PageAllocator, i: nat, own: Own, ghost before: seq<bool>)
    requires kernel.Valid() && Standing(before, Config(kernel.Snap(), own)) && i < |own.held|
    modifies kernel
    ensures kernel.Valid()
    ensures var c' := Config(kernel.Snap(), own.(held := own.held[..i] + own.held[i + 1..]));
      Standing(before, c') && ReleaseStep(Config(old(kernel.Snap()), own), i, c')
  {
    hide HeapSound, Standing, Holds, Owns, Accounted, Live, Freed, SameChains, OthersKept, TakesFree, SameLinks;
    ghost var h := kernel.Snap();
    Standings(before, Config(h, own));
    HeldLive(h, own.held, i);
    kernel.Kfree(own.held[i].0, own.held[i].1);
    SameLinksTaken(h, kernel.Snap());
    HoldsLess(h, kernel.Snap(), own.held, i);
    GrownStanding(before, Config(h, own), kernel.Snap(), own.held[..i] + own.held[i + 1..]);
  }

  method PerformWrite(kernel: PageAllocator, i: nat, offset: nat, v: Word, own: Own, ghost before: seq<bool>)
    requires kernel.Valid() && Standing(before, Config(kernel.Snap(), own))
    requires i < |own.held| && offset % 8 == 0 && offset < own.held[i].1
    modifies kernel
    ensures kernel.Valid() && Standing(before, Config(kernel.Snap(), own))
    ensures kernel.Snap() == Stored(old(kernel.Snap()), own.held[i].0 + offset, v)
  {
    hide HeapSound, Standing, Holds, Owns, Accounted, Clients, TakesFree;
    ghost var h := kernel.Snap();
    Standings(before, Config(h, own));
    WriteHolds(h, own.held, i, offset, v);
    kernel.Store(own.held[i].0 + offset, v);
    TakesNone(h, kernel.Snap());
    GrownStanding(before, Config(h, own), kernel.Snap(), own.held);
  }

  method PerformPage(kernel: PageAllocator, heap: bool, own: Own, ghost before: seq<bool>) returns (ok: bool, own': Own)
    requires kernel.Valid() && Standing(before, Config(kernel.Snap(), own))
    modifies kernel, kernel.ram.bits
    ensures kernel.Valid() && Standing(before, Config(kernel.Snap(), own'))
    ensures var c, first, last := Config(old(kernel.Snap()), own), kernel.ram.first, kernel.ram.last;
      if ok then exists f: Word :: PageStep(c, f, heap, Config(kernel.Snap(), own'), first, last)
      else own' == own && Starved(c, if heap then StartHeap else Take, first, last) && SameClients(c.h, kernel.Snap())
  {
    hide HeapSound, Standing, SameClients, Lowest, CountClear, FreePage;
    ghost var c := Config(kernel.Snap(), own);
    Standings(before, c);
    SameRefl(c.h);
    var f;
    if heap {
      f := kernel.NewHeap();
    } else {
      f := kernel.TakePage();
    }
    if f.None? {
      return false, own;
    }
    if heap {
      StartedSound(c.h, f.value);
      StartedStanding(before, c, f.value);
      own' := own.(heaps := own.heaps + [f.value]);
    } else {
      assert kernel.Snap() == Marked(c.h, f.value, true);
      TakenStanding(before, c, f.value);
      own' := own.(pages := own.pages + [f.value]);
    }
    ok := true;
    assert PageStep(c, f.value, heap, Config(kernel.Snap(), own'), kernel.ram.first, kernel.ram.last);
  }

  lemma StartedSound(h: Heap, f: Word)
    requires HeapSound(h) && FreePage(h, f)
    ensures HeapSound(NewPage(h, f)) && SameClients(h, NewPage(h, f))
  {
    hide HeapSound, SameClients, NewPage;
    NewPageSound(h, f);
  }

  method PerformGiveBack(kernel: PageAllocator, i: nat, own: Own, ghost before: seq<bool>)
    requires kernel.Valid() && Standing(before, Config(kernel.Snap(), own)) && i < |own.pages|
    modifies kernel.ram.bits
    ensures kernel.Valid() && kernel.Snap() == Marked(old(kernel.Snap()), own.pages[i], false)
    ensures Standing(before, Config(kernel.Snap(), own.(pages := own.pages[..i] + own.pages[i + 1..])))
  {
    hide HeapSound, Standing, Holds, Owns, Accounted;
    ghost var c := Config(kernel.Snap(), own);
    Standings(before, c);
    OwnedAt(before, c.h, own.heaps, own.pages, i);
    kernel.Pfree(own.pages[i], PAGE_SIZE);
    assert kernel.Snap() == Marked(c.h, own.pages[i], false);
    GivenStanding(before, c, i);
  }

  method PerformWritePage(kernel: PageAllocator, i: nat, offset: nat, v: Word, own: Own, ghost before: seq<bool>)
    requires kernel.Valid() && Standing(before, Config(kernel.Snap(), own))
    requires i < |own.pages| && offset % 8 == 0 && offset < PAGE_SIZE
    modifies kernel
    ensures kernel.Valid() && Standing(before, Config(kernel.Snap(), own))
    ensures kernel.Snap() == Stored(old(kernel.Snap()), own.pages[i] + offset, v)
  {
    hide HeapSound, Standing, Holds, Owns, Accounted, Clients, TakesFree, Owned;
    ghost var h := kernel.Snap();
    Standings(before, Config(h, own));
    PageIsClients(before, h, own.pages[i], offset);
    kernel.Store(own.pages[i] + offset, v);
    StoredHolds(h, own.held, own.pages[i] + offset, v);
    TakesNone(h, kernel.Snap());
    GrownStanding(before, Config(h, own), kernel.Snap(), own.held);
  }
}
