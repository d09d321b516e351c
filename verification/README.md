# A verified model of the kernel's self-contained cores

The kernel is a hobby operating system for AArch64. This project models, in Dafny
4.11, the parts of it whose correctness does not depend on hardware, and proves what
they are for. Nothing here runs the kernel; `dafny verify dfyconfig.toml` checks every
proof.

| file | what it models |
|---|---|
| Basics.dfy | options, machine integers, the pigeonhole principle |
| PhysicalMemory.dfy | memory as 64-bit words at byte addresses |
| FreeList.dfy | the intrusive free list that both allocators thread through free memory |
| TempAllocator.dfy | `talloc` and `temp_free`, the allocator used during boot |
| RadixWalk.dfy, PageTables.dfy, Mmu.dfy | four-level translation tables, from the shape of the tree to the code that stores descriptors |
| PageBitmap.dfy, KernelHeap.dfy, HeapRuns.dfy | `palloc`, `pfree`, `kalloc` and `kfree`, and runs of their clients |
| MemFunctions.dfy | `memset` and `memcpy` |
| Line.dfy, Framebuffer.dfy | drawing into a back buffer, dirty rectangles, and the partial copy to the front buffer |
| XhciRing.dfy | the cycle-bit producer ring as a protocol between driver and host controller |
| Relocator.dfy | the relocator that rewrites branches and page addresses |
| Checksum.dfy, Packets.dfy | Internet checksums, and UDP over IPv4 over Ethernet |
| Scheduler.dfy | round robin and the process table |
| DoublyLinkedList.dfy, ChunkedList.dfy | the two list containers with a non-trivial invariant |
| FatChain.dfy | FAT32 cluster chains |

Code that changes state is modelled by methods that change state: objects are classes,
buffers are arrays, loops are loops. What such a method computes is said by a function
of the old state, and what the code is for is proved of that function. The hardware
walk of page tables, the meaning of A64 words and the controller's side of the ring are
written from the standards they come from (Arm Architecture Reference Manual DDI 0487;
the eXtensible Host Controller Interface specification), not from the kernel.

## Main results

- For every sequence of map and unmap calls, interleaved with allocations, frees and stores
  of other clients of the boot allocator, the hardware walk equals an abstract page map, and
  the tables stay a tree in memory nobody else holds (`Mmu.TranslationTables.Run`). A mapping
  succeeds exactly if as many pages are left as tables are missing (`MapBlock2Mb`,
  `MapPage4Kb`).
- Both allocators hand out zeroed regions apart from all others in every reachable state,
  with the free list spelled out in the very memory it manages (`TempAllocator.AllocationSafe`,
  `KernelHeap.PageAllocator.Kalloc` and `Kfree`); `kalloc` answers with the first offer along
  the chain and takes a new page only if there is none; page accounts are exact, its recursion
  terminates, no heap disturbs another (`OtherHeapGrid`), and over any
  run of `palloc`, `pfree`, `kalloc`, `kfree` and stores no page is lost or has two owners
  (`HeapRuns.Run`).
- Copying dirty rectangles shows the same picture as copying everything
  exactly if every difference is tracked (`Framebuffer.Screen.Flush`): after any run of drawing
  commands without lines the screen shows the picture that the commands up to the last flush
  denote, and with lines what exactly it shows is known too (`Run`); the line loop plots the points of a
  closed form that stays within half a pixel of the ideal line (`Line.PlotAccurate`).
- The producer ring refines an unbounded FIFO under every interleaving of single stores
  with controller steps (`XhciRing.Fifo`, `Drains`).
- A relocated program runs as the original does, with the registers that hold code addresses
  moved along (`Relocator.RelocationPreservesRuns`), word by word exactly under a condition a
  caller can check (`PreservedExactly`).
- Headers and segments verify although the code adds in the other byte order
  (`Packets.Ipv4HeaderVerifies`, `UdpSegmentVerifies`), and parsing undoes building.
- Round robin waits at most 16 switches (`Scheduler.BoundedWaiting`), and the process table's
  books balance over every run (`RunsStayBooked`); a process sleeps for its time and no longer
  than to the next wake (`SleepsUntil`, `WakesThen`).
- The two lists refine sequences, and a FAT chain is read exactly or never ends
  (`FatChain.ReadChain`, `EndsOrNever`).

## What does not hold

Where a property that the code is meant to have is false, the model keeps the code and
proves exactly when the property holds.

- A `kalloc` request of 4065 to 4080 bytes at 16-byte alignment fits no page: it uses up
  every free page and then follows a null pointer (BlankPageFits, Kalloc).
- `kfree` with a size other than the rounded one, as at kernel/filesystem/fat32.cpp:156 (255
  for a block of 256 bytes), leaves the account of its page wrong by the difference
  (KfreeExact, AccountDrifts).
- Freeing an empty region with `temp_free`, or requesting almost 2^64 bytes, breaks the
  boot allocator (EmptyFreeUnsound, AllocationExact, HugeRequestOverruns).
- `fb_draw_line` draws the whole line but marks one pixel (DrawLine, LostPixel).
- `fb_clear` of an odd number of pixels leaves another colour in the last one, unless
  the colour repeats one byte (MemsetUniform).
- With 255 TRBs outstanding on a ring of 256, driver and controller can deadlock; 254
  is the real capacity (MovesUnless, FullRingDeadlocks).
- Conditional branches out of the code are re-encoded as if they were unconditional
  (CondMisencodes), and ADRPs 2 GB away are misread (AdrpReadExactly); when they still come
  out right is part of PreservedExactly.
- IPv4 and UDP checksums verify only if the field was clear in the buffer before
  (Ipv4HeaderVerifies, UdpSegmentVerifies), and a computed UDP checksum of 0 is sent as
  "no checksum" (ZeroChecksumSent).
- `wake_processes` loses sleepers unless the due trackers come last (WokenExact; EarlyRiser
  is a run that gets there), and the 65536th process gets pid 0 in slot 0 (CreatedExact,
  IndexWraps).
- `insert_before` the head of a doubly linked list appends at the tail
  (InsertBeforeExact).
- A page mapped as "shared" (level 2) can be executed but not read from EL0 (PageRights).
- A 2 MB mapping of a physical address that is not 2 MB aligned maps the 2 MB frame that
  holds it, not the address itself (BlockMapsTo).
- `palloc` searches whole groups of 64 pages, so it can hand out pages below the start of
  RAM if that is not the first page of a group (SearchedFrom).

## Model

| member | source | states |
|---|---|---|
| TempAllocator.RoundUpCovers | kernel/memory/kalloc.c:54-54 | rounding to whole pages covers the request exactly if adding 0xFFF does not wrap; a request that wraps becomes 0 |
| FreeList.FindFit | kernel/memory/kalloc.c:62-77 | the search ends, at the first listed block that is large enough or at the end, and knows the link that led there |
| FreeList.Take | kernel/memory/kalloc.c:71-73 | the chosen block is bypassed in the link that led to it and the bytes asked for are zeroed |
| FreeList.Give | kernel/memory/kalloc.c:106-111 | a freed block is zeroed, gets its size and link words and becomes the head of the list |
| FreeList.ReusePacked | kernel/memory/kalloc.c:62-75 | reusing any listed block keeps all live and free blocks disjoint and inside the heap, and the list acyclic and spelled out by the words in memory |
| FreeList.BumpPacked | kernel/memory/kalloc.c:79-84 | taking memory behind the bump pointer keeps all blocks disjoint, inside the heap, and the list intact |
| FreeList.PushPacked | kernel/memory/kalloc.c:106-111 | putting a held block on the list keeps all blocks disjoint and the list acyclic and spelled out by memory |
| FreeList.StorePacked | kernel/memory/kalloc.c:52-112 | any client store outside the free blocks keeps the allocator's invariant |
| FreeList.ReuseGiven | kernel/memory/kalloc.c:71-74 | the region handed out of the list is zero over the requested size, apart from every held one, and nobody else's memory or holdings change |
| FreeList.BumpGiven | kernel/memory/kalloc.c:83-93 | the region handed out from behind the bump pointer is zero over the requested size, apart from every held one, and nobody else's memory or holdings change |
| TempAllocator.AllocationSafe | kernel/memory/kalloc.c:52-94 | unless the overflow check itself overflows, talloc either panics with nothing changed or hands over a page-aligned, zeroed region apart from all others, and the allocator stays sound |
| TempAllocator.AllocationExact | kernel/memory/kalloc.c:52-94 | talloc leaves the allocator sound exactly if a free block fits or the addition in the overflow check does not wrap into passing it |
| TempAllocator.PageAllocation | kernel/memory/kalloc.c:52-94 | a request for one page is met exactly if a free block is listed or a page is left behind the bump pointer, and then there is one fewer |
| TempAllocator.PushSound | kernel/memory/kalloc.c:96-112 | temp_free of a held block with its own size keeps the allocator sound |
| TempAllocator.HugeRequestOverruns | kernel/memory/kalloc.c:54-84 | a request of 2^64 - 4096 bytes is answered in any non-empty heap: the bump pointer moves back by a page, onto memory given out before, and the allocator is no longer sound |
| TempAllocator.EmptyFreeUnsound | kernel/memory/kalloc.c:96-112 | freeing an empty region always breaks the allocator, in every state |
| TempAllocator.TempHeap.Talloc | kernel/memory/kalloc.c:52-94 | for every request, the loops and stores of talloc compute first fit, else bump, else panic, and the state is sound afterwards exactly if the request does not overrun |
| TempAllocator.TempHeap.TempFree | kernel/memory/kalloc.c:96-112 | the stores of temp_free push exactly the freed block |
| RadixWalk.SharedTable | kernel/memory/mmu.c:51-63 | two walks that meet in a table came by the same indices: tables form a tree |
| RadixWalk.LinkShaped | kernel/memory/mmu.c:51-61 | hooking a fresh empty table into a faulting slot keeps one parent slot per table and one level per table |
| RadixWalk.LinkInvisible | kernel/memory/mmu.c:51-61 | hooking a fresh empty table into a faulting slot changes no walk |
| RadixWalk.OverwriteEffect | kernel/memory/mmu.c:67-67 | overwriting a slot redirects exactly the walks that share its prefix of indices |
| PageTables.PathPrefixes | kernel/memory/mmu.c:45-47 | two addresses share three (four) indices exactly if they lie in the same 2 MB region (4 KB page) |
| PageTables.TableDescriptorDecodes | kernel/memory/mmu.c:53-56 | masking a table descriptor gives back the address that was stored, and hardware reads it as a table |
| PageTables.BlockDescriptorDecodes | kernel/memory/mmu.c:66-67 | hardware reads a block descriptor back as the 2 MB frame that holds pa, accessible to EL1 alone |
| PageTables.PageDescriptorDecodes | kernel/memory/mmu.c:105-119 | hardware reads a page descriptor back as the 4 KB frame of pa, with the rights to read, write and execute that EL1 and EL0 are to have |
| Mmu.PageRights | kernel/memory/mmu.c:105-119 | through the hardware walk, a freshly mapped page of level 1 is read, written and executed by EL1 and out of reach for EL0; one of level 0 is read and written by both; one of level 2 is written by nobody, read by EL1 only, and executed by both |
| Mmu.LinkStep | kernel/memory/mmu.c:51-61 | a fresh table keeps the tree in allocator memory, every table held from the heap, no reserved encodings |
| Mmu.LinkSilent | kernel/memory/mmu.c:51-61 | hooking a fresh table changes no translation of any address |
| Mmu.OverwriteStep | kernel/memory/mmu.c:67-67 | storing a leaf or 0 into a level 2 or 3 slot keeps the tree in allocator memory; a level 3 table the slot pointed at leaves it |
| Mmu.RedirectedWalk | kernel/memory/mmu.c:67-67 | after a slot of level 2 or 3 was overwritten, exactly the addresses of its region or page translate by the new leaf, all others as before |
| Mmu.NoLeafAbove | kernel/memory/mmu.c:44-120 | blocks are never made above level 2 |
| Mmu.BlockMapsTo | kernel/memory/mmu.c:66-67 | a 2 MB mapping takes an address to pa plus its offset exactly if pa is 2 MB aligned (hardware ignores the low bits) |
| Mmu.UnmapWholeBlock | kernel/memory/mmu.c:152-157 | unmapping under a block takes away exactly the 512 pages of that block |
| Mmu.RunsKeepBlocksWhole | kernel/memory/mmu.c:44-165 | over every run, a page mapped by a block lies in a whole block of 512 pages with consecutive frames |
| Mmu.SparedStep | kernel/memory/mmu.c:44-165 | allocator steps that leave the tables' memory alone change no translation |
| Mmu.TranslationTables.Hook | kernel/memory/mmu.c:51-54 | a missing table is a zeroed page of its own, which fails exactly if the allocator has no page left and else takes one; reading the pointer back yields it; other clients keep their regions and contents |
| Mmu.TranslationTables.Below | kernel/memory/mmu.c:51-56 | one level down: an existing table is followed, a missing one is made; pages left and tables missing go down together |
| Mmu.TranslationTables.MapBlock2Mb | kernel/memory/mmu.c:44-68 | map-2M succeeds exactly if at least as many pages are left as tables are missing on the way, and takes exactly those; it sets exactly the 512 pages of its region, even over an existing level 3 table; a panic leaves the map as it was |
| Mmu.TranslationTables.MapPage4Kb | kernel/memory/mmu.c:71-120 | map-4K succeeds exactly if at least as many pages are left as tables are missing on the way, and takes exactly those; it sets exactly one unmapped page and changes nothing on a mapped page or under a block |
| Mmu.TranslationTables.Unmap | kernel/memory/mmu.c:138-165 | unmap clears exactly one page, or the whole block that covers it |
| Mmu.TranslationTables.ClientTalloc | kernel/memory/kalloc.c:52-94 | any other talloc leaves every translation alone, unless the request overruns the allocator itself |
| Mmu.TranslationTables.ClientFree | kernel/memory/kalloc.c:96-112 | freeing anything that is not a table in use leaves every translation alone |
| Mmu.TranslationTables.ClientStore | kernel/memory/kalloc.c:52-94 | whatever a client stores in the region it was given leaves every translation alone |
| Mmu.HandoverClients | kernel/memory/kalloc.c:52-94 | a region handed to a client is no table and no other client's |
| Mmu.TranslationTables.Run | kernel/memory/mmu.c:44-165 | for every sequence of map-4K, map-2M and unmap calls and of talloc, temp_free and stores of other clients, every operation that can be met is, as its step relation says; the run ends early only at one that cannot; and after every step the tables are a sound tree in memory that no client holds, and the hardware walk of every 48-bit address equals the page map that the operations up to there denote |
| PageBitmap.Bitmap.Palloc | kernel/memory/page_allocator.c:50-100 | palloc of one page takes the lowest free page of the searched range and nothing else, or reports that there is none |
| PageBitmap.Bitmap.Pfree | kernel/memory/page_allocator.c:38-44 | pfree clears the one bit of the page, whatever the size |
| PageBitmap.TakenOnce | kernel/memory/page_allocator.c:38-95 | over every run of palloc and pfree, between two calls that hand out the same page it was freed |
| PageBitmap.CountClearUpdate | kernel/memory/page_allocator.c:73-73 | taking a page lowers the number of free pages by one (the termination measure of kalloc) |
| PageBitmap.CountPagesLeast | kernel/memory/page_allocator.c:46-48 | count_pages is the least number of pages that hold the bytes |
| PageBitmap.SearchedFrom | kernel/memory/page_allocator.c:51-55 | the search starts at the group of 64 pages that holds the first page, so it stays above the start of RAM exactly if that is a multiple of 64 pages |
| PageBitmap.SearchedUpTo | kernel/memory/page_allocator.c:52-55 | the search stops before the group of 64 pages that holds the end, so it stays below the end of RAM exactly unless a page cut off by the end completes a group |
| PageBitmap.SearchedExactly | kernel/memory/kalloc.c:154-155 | with bounds that are multiples of 2 MB, as computed at boot, the searched range is the RAM range |
| KernelHeap.BlankPageFits | kernel/memory/page_allocator.c:159-163 | a blank page has room for a rounded size below 4096 exactly if it is not 4080 bytes at 16-byte alignment |
| KernelHeap.GivenSafe | kernel/memory/page_allocator.c:142-177 | a safe hand-over on one page is one among all heaps, and keeps every page, account and chain sound |
| KernelHeap.AdvancedSound | kernel/memory/page_allocator.c:159-159 | aligning the bump pointer for good keeps everything and no client notices |
| KernelHeap.GrownSound | kernel/memory/page_allocator.c:164-165 | appending a free page to a chain keeps chains acyclic and unshared and no client notices |
| KernelHeap.GivenBounds | kernel/memory/page_allocator.c:150-177 | the account of a page never overflows |
| KernelHeap.BlankGrid | kernel/memory/page_allocator.c:50-100 | a heap of one blank page has served no alignment yet |
| KernelHeap.NoCommonPage | kernel/memory/page_allocator.c:123-178 | two heaps of which neither page is on the other's chain have no page in common |
| KernelHeap.StillApart | kernel/memory/page_allocator.c:123-178 | whatever kalloc appends, heaps that were apart stay apart |
| KernelHeap.OtherHeapGrid | kernel/memory/page_allocator.c:123-178 | kalloc on one heap leaves the pages, links and alignment of every other heap alone |
| KernelHeap.PushSafe | kernel/memory/page_allocator.c:180-192 | kfree keeps every heap sound: the block goes on the list of its own page and the account goes down by its size |
| KernelHeap.StoredSound | kernel/memory/page_allocator.c:123-192 | a client's store into a region it holds, or into a page that is no heap page, keeps every heap sound and every region live |
| KernelHeap.AccountDrifts | kernel/memory/page_allocator.c:180-191 | kfree of a region with any size at all leaves the page's account off, modulo 2^64, by the difference to the rounded size, however the page is carved up afterwards |
| KernelHeap.KfreeExact | kernel/memory/page_allocator.c:180-192 | some carving of the page that takes back exactly this region makes the heaps sound if and only if the size passed is the rounded size of the block |
| KernelHeap.FreeThenReuse | kernel/memory/page_allocator.c:142-152 | kalloc of the same size right after kfree finds the same region again |
| KernelHeap.LiveRegionsApart | kernel/memory/page_allocator.c:123-192 | live regions of all heaps lie in [page + 32, page + 4096) and are pairwise disjoint |
| KernelHeap.FreeBlocksApart | kernel/memory/page_allocator.c:123-192 | every free block lies in its own page, apart from every live region |
| KernelHeap.AccountExact | kernel/memory/page_allocator.c:150-191 | page->size is the sum of the live rounded sizes of that page and at most 4064 |
| KernelHeap.PageAllocator.NewHeap | kernel/memory/page_allocator.c:50-100 | the lowest free page gets a header and is a blank heap of its own; nothing else changes |
| KernelHeap.PageAllocator.TakePage | kernel/memory/page_allocator.c:50-100 | palloc of the lowest free page without a header keeps all heaps sound; that page is part of no heap |
| KernelHeap.PageAllocator.Pfree | kernel/memory/page_allocator.c:38-44 | freeing a page that is part of no heap keeps all heaps sound |
| KernelHeap.PageAllocator.TryReuse | kernel/memory/page_allocator.c:142-155 | the free-list part of kalloc takes the first fit, hands it over safely, and keeps all heaps sound |
| KernelHeap.PageAllocator.Extend | kernel/memory/page_allocator.c:164-165 | a full page at the end of a chain gets the lowest free page as its next, blank |
| KernelHeap.PageAllocator.Kalloc | kernel/memory/page_allocator.c:123-178 | kalloc terminates; it answers with the first offer of any page of the caller's chain (its first free block that fits, else the room behind its aligned bump pointer), else with that of the lowest free page, which is taken only then; None means that no page of the chain had room; the region is zeroed and apart from every live one; the page that gives it is charged for it, those tried before get their pointer aligned, nothing else changes; a heap that only knows one alignment keeps it; a request of 4080 rounded bytes at 16-byte alignment is never met |
| KernelHeap.AlongFirst | kernel/memory/page_allocator.c:142-168 | what a chain offers is the offer of the first of its pages that has one; it offers nothing exactly if none of its pages does |
| KernelHeap.AlignUpCovers | kernel/memory/page_allocator.c:124-124 | rounding covers a size exactly if the addition does not wrap; a size that wraps becomes 0 |
| KernelHeap.PageAllocator.KallocNext | kernel/memory/page_allocator.c:163-168 | a full page passes the request on to the next one, which is added if there is none: the answer is that of the rest of the chain, else that of the new page; each recursive call has fewer free pages or a younger page |
| KernelHeap.PageAllocator.Kfree | kernel/memory/page_allocator.c:180-192 | kfree takes exactly one region back and makes it the first block of its page's list; the bump pointer stays |
| HeapRuns.PageUnknown | kernel/memory/page_allocator.c:50-100 | a page that palloc finds free is part of no heap and taken by nobody |
| HeapRuns.PagesApart | kernel/memory/page_allocator.c:38-192 | a page taken by palloc shares no byte with any live region of any heap |
| HeapRuns.Run | kernel/memory/page_allocator.c:38-192 | over any run of clients that start heaps, take and free pages, allocate, and write and free only what they own with the rounded size: every request is met as its step relation says; at every step all heaps are sound, what is held is live and apart, and each page in use is a page from before, a heap page or a taken page, the latter with one owner; the run ends early only at a request for which no page is left or none can ever have room |
| MemFunctions.Memset | shared/std/memfunctions.c:12-33 | memset writes count bytes and no others: whole words repeat the 32-bit value, the last count % 8 bytes its low byte |
| MemFunctions.MemsetWords | shared/std/memfunctions.c:12-33 | after memset of 4 * n bytes, every 32-bit word is the value, except an odd last one, which repeats its low byte |
| MemFunctions.MemsetHolds | shared/std/memfunctions.c:12-33 | seen as 32-bit words, memory holds after memset of 4 * n bytes exactly the words that the colour fill specifies |
| MemFunctions.MemsetUniform | shared/std/memfunctions.c:12-33 | a fill reaches every word exactly if the words pair up or the value repeats one byte |
| MemFunctions.Memcpy | shared/std/memfunctions.c:35-57 | the 32-, 8- and 1-byte pieces together copy exactly count bytes |
| MemFunctions.MemcpyHolds | shared/std/memfunctions.c:35-57 | seen as 32-bit words, memory holds after memcpy of 4 * n bytes the old words with exactly those n replaced by the source's |
| Framebuffer.MergeExactly | shared/ui/draw/draw.c:14-34 | try_merge merges exactly rectangles that overlap or touch |
| Framebuffer.MergeIsBoundingBox | shared/ui/draw/draw.c:23-31 | a merge yields the bounding box of the two rectangles |
| Framebuffer.AddRectCovers | shared/ui/draw/draw.c:53-60 | adding a rectangle to the dirty list loses no dirty pixel and stays on the screen; it overflows to a full redraw at 64 |
| Framebuffer.ClipExact | shared/ui/draw/draw.c:36-46 | in 32-bit arithmetic, every column drawn is inside the clipped mark and the mark on the screen exactly if the extent does not wrap |
| Framebuffer.MarkedCovers | shared/ui/draw/draw.c:36-61 | mark_dirty covers what it was asked to, clipped, and loses nothing |
| Framebuffer.Screen.MarkDirty | shared/ui/draw/draw.c:36-61 | the loop of mark_dirty computes the dirty list and flag that Marked specifies, and draws nothing |
| Framebuffer.Screen.PlotPixel | shared/ui/draw/draw.c:68-72 | changes one visible pixel or none |
| Framebuffer.Screen.FillRect | shared/ui/draw/draw.c:74-81 | changes exactly the visible pixels of the rectangle, marks exactly the rectangle, and shows nothing; what was tracked stays tracked |
| Framebuffer.Screen.DrawChar | shared/ui/draw/draw.c:108-119 | sets exactly the dots of the glyph, scaled, where a row's byte holds 128 for its leftmost dot down to 1 for its rightmost; marks exactly its box; what was tracked stays tracked |
| Framebuffer.BitIsDot | shared/ui/draw/draw.c:113-113 | the test by shift and mask finds the dot of a column exactly if the byte, as a number, holds the weight of the column |
| Framebuffer.DotsWeigh | shared/ui/draw/draw.c:111-113 | every byte is the sum of the weights of its dots; the leftmost dot is there exactly from 128 on |
| Framebuffer.Screen.DrawString | shared/ui/draw/draw.c:121-150 | sets exactly the dots of all characters laid out in lines and columns; marks each character and then the extent as the code computes it; returns the size of the text, its widest line by the number of its lines; what was tracked stays tracked |
| Framebuffer.Screen.Clear | shared/ui/draw/draw.c:63-66 | leaves the words that memset leaves, requests a full redraw and leaves the dirty list alone |
| Framebuffer.Screen.PlotLine | shared/ui/draw/draw.c:83-96 | the loop plots exactly max(dx, dy) + 1 points, those of the line, for all endpoints whose differences fit an int |
| Framebuffer.Screen.DrawLine | shared/ui/draw/draw.c:83-106 | only the end point is marked: the line is tracked exactly if a full redraw is due, or each visible point of it is covered by the dirty rectangles or showed the colour already; from a clean screen, exactly if each visible point but the end had the colour |
| Framebuffer.LostPixel | shared/ui/draw/draw.c:83-106 | a line of two pixels on a fresh screen, then a flush: one pixel is drawn and not shown, and nothing is marked any more |
| Framebuffer.LineStep | shared/ui/draw/draw.c:93-95 | one turn moves to the next point of the closed form, carries the error term, and stops at the last point and not before |
| Line.MinorStep | shared/ui/draw/draw.c:93-95 | the minor coordinate steps exactly if the error term is below the minor difference |
| Line.PlotEnds | shared/ui/draw/draw.c:83-96 | the line starts and ends at its end points |
| Line.PlotInBox | shared/ui/draw/draw.c:83-96 | no plotted point leaves the bounding box of the end points |
| Line.PlotConnected | shared/ui/draw/draw.c:93-95 | consecutive points are 8-neighbours, one step apart on the major axis |
| Line.PlotAccurate | shared/ui/draw/draw.c:83-96 | every point is within half a pixel of the ideal line on the minor axis |
| Framebuffer.Screen.DrawPixel | kernel/graph/drivers/videocore/videocore.cpp:108-111 | changes and marks one pixel; what was tracked stays tracked |
| Framebuffer.Screen.CopyRect | kernel/graph/drivers/videocore/videocore.cpp:83-97 | copies exactly the pixels of one dirty rectangle |
| Framebuffer.Screen.CopyRow | kernel/graph/drivers/videocore/videocore.cpp:93-96 | one memcpy of a row: exactly these words of the front buffer are replaced |
| Framebuffer.Screen.Flush | kernel/graph/drivers/videocore/videocore.cpp:71-102 | flush copies exactly what is marked; afterwards the front buffer equals the back buffer everywhere, as after a full copy, exactly if every difference was tracked before |
| Framebuffer.FullCopyReaches | kernel/graph/drivers/videocore/videocore.cpp:73-73 | copying width * height pixels in one piece reaches every pixel exactly if rows are stored back to back |
| Framebuffer.Screen.Run | kernel/graph/drivers/videocore/videocore.cpp:71-131 | over any run of clears, pixels, rectangles, characters, strings, lines and flushes, the back buffer has the picture that the commands denote, the dirty list is what they marked, and the front buffer shows what the flushes copied; without lines that is the picture of the commands up to the last flush, and every differing pixel stays tracked |
| XhciRing.ReachableInv | kernel/input/xhci.cpp:288-356 | every interleaving of single driver stores with controller steps keeps the ring invariant, for up to 255 outstanding TRBs |
| XhciRing.Fifo | kernel/input/xhci.cpp:344-356 | what the controller has consumed is a prefix of what was published, in order, once each, across any number of wraps |
| XhciRing.OwnedIsNext | kernel/input/xhci.cpp:344-356 | what the controller owns at a slot is the oldest outstanding TRB: stale ones never look valid |
| XhciRing.MovesUnless | kernel/input/xhci.cpp:352-356 | the controller can move exactly unless 255 are outstanding and it has not yet followed the link that was overwritten |
| XhciRing.AlwaysMoves | kernel/input/xhci.cpp:352-356 | with at most 254 outstanding it can always move, whatever the driver is at |
| XhciRing.Drains | kernel/input/xhci.cpp:344-356 | left alone with at most 254 outstanding, the controller consumes everything that was published |
| XhciRing.FullRingDeadlocks | kernel/input/xhci.cpp:344-356 | with 255 outstanding allowed, a run is given after which neither side can move |
| XhciRing.OverfullLosesOldest | kernel/input/xhci.cpp:344-349 | a 256th outstanding TRB overwrites the oldest one before the controller got to it |
| XhciRing.ProducerRing.constructor | kernel/input/xhci.cpp:295-299 | a zeroed ring linked by make_ring_link is the protocol's initial state |
| XhciRing.ProducerRing.Enqueue | kernel/input/xhci.cpp:543-556 | the enqueue of issue_command and poll is the protocol's claim followed by all the driver's stores |
| Relocator.BranchEncodes | kernel/process/loading/process_loader.c:55-62 | a distance survives the branch encoding exactly if it is a multiple of 4 within 128 MB |
| Relocator.AdrpReadExactly | kernel/process/loading/process_loader.c:103-106 | the shifts by 44 and 32 read an ADRP as the processor does exactly within 2 GB |
| Relocator.BranchReadExactly | kernel/process/loading/process_loader.c:44-46 | the shifts by 6 read a branch's distance as the processor does |
| Relocator.CondReadExactly | kernel/process/loading/process_loader.c:68-71 | the shifts by 13 read a conditional branch's distance as the processor does |
| Relocator.InRangeExactly | kernel/process/loading/process_loader.c:51-51 | the comparison with a sum that may wrap is membership of the range exactly as long as the range does not run past the end of the address space |
| Relocator.PageEncodes | kernel/process/loading/process_loader.c:123-129 | the ADRP encoding is exact for multiples of 4 KB within 4 GB and for nothing else |
| Relocator.PageNames | kernel/process/loading/process_loader.c:120-129 | what a rewritten ADRP names, whatever address it was made for |
| Relocator.CondMisencodes | kernel/process/loading/process_loader.c:85-88 | of the distances a conditional branch can encode, only b.eq to itself survives the 26-bit mask |
| Relocator.TableOrder | kernel/process/loading/process_loader.c:185-213 | no earlier entry of the table shadows branch, conditional branch or ADRP; all other words come back unchanged |
| Relocator.PreservedExactly | kernel/process/loading/process_loader.c:43-133 | the emitted word means at its new place what the original meant, moved along, exactly if a condition on target and distance holds; for every word and every layout, ADRPs that the relocator misreads included |
| Relocator.RelocateCode | kernel/process/loading/process_loader.c:215-250 | word by word, each translated for its own place; nothing beyond size / 4 words is written |
| Relocator.LinkMoves | kernel/process/loading/process_loader.c:215-250 | the return address that a BL leaves moves to the one that the moved BL leaves |
| Relocator.RelocationPreservesRuns | kernel/process/loading/process_loader.c:215-250 | a relocated program executes the moved counterpart of every instruction of the original, for every run, calls and returns through registers included, and ends where it ends, moved along |
| Checksum.FoldResidue | shared/net/checksums.c:6-6 | folding terminates, keeps the residue modulo 65535 and gives 0 for 0 only |
| Checksum.SwappedSum | shared/net/checksums.c:10-36 | the big-endian sum is 256 times the little-endian one modulo 65535 |
| Checksum.OrderIndependent | shared/net/checksums.c:3-8 | a sum verifies in one byte order exactly if it does in the other (section 2(B) of RFC 1071) |
| Checksum.Checksum16 | shared/net/checksums.c:3-8 | the loop computes the complement of the folded little-endian sum; 32 bits suffice for 65537 words |
| Checksum.ChecksumPseudo | shared/net/checksums.c:10-36 | the additions and the loop compute the complement of the folded network-order sum of the twelve pseudo-header bytes of RFC 768 followed by the data, for odd and even lengths; 32 bits suffice for any length |
| Checksum.PseudoHeaderSum | shared/net/checksums.c:19-24 | the six terms added first are the network-order sum of the pseudo-header's twelve bytes |
| Packets.CreateIpv4 | shared/net/ipv4.c:7-20 | writes exactly the 20 header bytes, with the checksum over a header that still holds the old checksum bytes |
| Packets.Ipv4HeaderVerifies | shared/net/ipv4.c:7-19 | the header sums to 0xFFFF in network order exactly if the checksum field held 0 or 0xFFFF before |
| Packets.CreateUdp | shared/net/udp.c:8-26 | writes exactly the frame and leaves the rest of the buffer alone |
| Packets.UdpSegmentVerifies | shared/net/udp.c:24-24 | a segment of up to 65527 payload bytes, odd or even, sums to 0xFFFF together with the twelve pseudo-header bytes exactly if the checksum field held 0 or 0xFFFF before |
| Packets.ZeroChecksumSent | shared/net/udp.c:24-24 | the checksum 0, which RFC 768 reserves, is sent exactly if the covered sum is a multiple of 65535 |
| Packets.ParseUndoesBuild | shared/net/udp.c:8-53 | EtherType, source MAC, protocol, source address, destination port and payload come back from the built frame; the payload exactly up to 65535 bytes, and the length fields are true exactly up to 65527 (UDP) and 65507 (IPv4) bytes |
| Packets.CreateEth | shared/net/eth.c:4-10 | writes exactly the 14 header bytes |
| Scheduler.BoundedWaiting | kernel/process/scheduler.c:43-55 | a slot that stays READY is selected within 16 consecutive switches, whatever the others do |
| Scheduler.WaitBound | kernel/process/scheduler.c:43-55 | a slot that stays READY is selected within as many switches as it is slots away |
| Scheduler.SixteenNeeded | kernel/process/scheduler.c:43-55 | the bound of 16 cannot be lowered: with every slot READY each switch goes exactly one slot on |
| Scheduler.CreatedExact | kernel/process/scheduler.c:132-154 | creating a process keeps proc_count, pids and sleep trackers consistent exactly until the 16-bit index has wrapped |
| Scheduler.IndexWraps | kernel/process/scheduler.c:132-154 | a run of 65534 creations after which the next one puts pid 0 into the kernel's own slot |
| Scheduler.StoppedBooked | kernel/process/scheduler.c:163-173 | stopping a READY process keeps proc_count, pids and sleep trackers consistent |
| Scheduler.SleptBooked | kernel/process/scheduler.c:189-197 | going to sleep keeps proc_count, pids and sleep trackers consistent |
| Scheduler.TrackerLeft | kernel/process/scheduler.c:190-190 | a process that goes to sleep always finds a free tracker |
| Scheduler.KeptExactly | kernel/process/scheduler.c:206-220 | the trackers kept by wake_processes are exactly those not due, if and only if the due ones come last |
| Scheduler.WokenExact | kernel/process/scheduler.c:206-220 | wake_processes keeps proc_count, pids and sleep trackers consistent exactly if the due trackers come last |
| Scheduler.EarlyRiser | kernel/process/scheduler.c:189-223 | a run of six calls after boot at whose end a due tracker is not among the last, so that wake_processes loses a sleeper |
| Scheduler.SleepsUntil | kernel/process/scheduler.c:189-223 | a process that goes to sleep at `now` for `msec` stays BLOCKED under its tracker for as long as no wake reads a clock of now + msec or more, whatever else happens in the run |
| Scheduler.WakesThen | kernel/process/scheduler.c:206-215 | the first wake whose readings are now + msec or more makes it READY |
| Scheduler.RunsStayBooked | kernel/process/scheduler.c:118-223 | over every run with at most 65534 creations after boot and due trackers last at each wake: proc_count is the number of slots in use, pids are unique, and BLOCKED slots other than 0 are those with a live tracker |
| Scheduler.ProcessTable.SwitchProc | kernel/process/scheduler.c:43-55 | the search ends at the cyclically next READY slot exactly if there is one, panics exactly on an empty table, and else never ends |
| Scheduler.ProcessTable.GetProcByPid | kernel/process/scheduler.c:83-88 | the first slot with the pid |
| Scheduler.ProcessTable.InitProcess | kernel/process/scheduler.c:132-154 | the slot of the creation index below 16, then the first STOPPED slot, else the panic |
| Scheduler.ProcessTable.StopProcess | kernel/process/scheduler.c:163-174 | a pid of no slot faults with nothing changed; a process that is not READY is left alone; a READY one is stopped and the switch ends as Switching says of the table without it |
| Scheduler.ProcessTable.SleepProcess | kernel/process/scheduler.c:189-204 | blocks the current process under a new tracker if one is left; the switch then ends as Switching says of the new table |
| Scheduler.ProcessTable.WakeProcesses | kernel/process/scheduler.c:206-220 | the loop, which reads the clock anew for each tracker, wakes the owners of those due at their reading and lowers the count by their number |
| Scheduler.ProcessTable.constructor | kernel/process/scheduler.c:118-130 | the state after boot |
| DoublyLinkedList.LinkIn | shared/data_struct/doubly_linked_list.c:129-133 | linking a node in between neighbours keeps one ring in which next and prev are inverse, and adds it to the sequence at that place |
| DoublyLinkedList.LinkOut | shared/data_struct/doubly_linked_list.c:152-153 | linking a node out keeps the ring and takes it from the sequence |
| DoublyLinkedList.CutSpliced | shared/data_struct/doubly_linked_list.c:120-158 | removing undoes inserting |
| DoublyLinkedList.InsertBeforeExact | shared/data_struct/doubly_linked_list.c:139-146 | insert_before puts the node right before its neighbour exactly if that is not the head |
| DoublyLinkedList.List.PushFront | shared/data_struct/doubly_linked_list.c:50-67 | the sequence gets one element in front |
| DoublyLinkedList.List.PushBack | shared/data_struct/doubly_linked_list.c:69-86 | the sequence gets one element at the end |
| DoublyLinkedList.List.PopFront | shared/data_struct/doubly_linked_list.c:88-102 | the first element is removed and returned, if any |
| DoublyLinkedList.List.PopBack | shared/data_struct/doubly_linked_list.c:104-118 | the last element is removed and returned, if any |
| DoublyLinkedList.List.InsertAfter | shared/data_struct/doubly_linked_list.c:120-137 | the element goes right after the node, or in front for none |
| DoublyLinkedList.List.InsertBefore | shared/data_struct/doubly_linked_list.c:139-146 | the element goes right before the node, but to the end for none and for the head |
| DoublyLinkedList.List.Remove | shared/data_struct/doubly_linked_list.c:148-158 | exactly that node's element is removed and returned |
| DoublyLinkedList.List.Clone | shared/data_struct/doubly_linked_list.c:23-48 | a new ring with the same sequence |
| ChunkedList.PushedFlat | shared/data_struct/chunked_list.c:58-69 | push_back adds one element at the end of the flat sequence |
| ChunkedList.InsertedFlat | shared/data_struct/chunked_list.c:79-95 | the new element comes right after the chunk's last one, whether or not it gets a chunk of its own |
| ChunkedList.RemovedFlat | shared/data_struct/chunked_list.c:127-137 | what goes is the first element of the chunk |
| ChunkedList.RemovedFilled | shared/data_struct/chunked_list.c:133-137 | no chunk is left empty, and none overfull |
| ChunkedList.List.PushBack | shared/data_struct/chunked_list.c:46-70 | the list in memory keeps its invariant and its flat sequence gets one element at the end |
| ChunkedList.List.InsertAfter | shared/data_struct/chunked_list.c:72-96 | the element comes right after the last one of the given chunk, in that chunk if it has room and else in a chunk of its own behind it, and the chunk that got it is returned; after none means at the end |
| ChunkedList.List.PopFront | shared/data_struct/chunked_list.c:98-115 | the first element of the flat sequence is removed and returned, if any, and its chunk with its last element |
| ChunkedList.List.RemoveNode | shared/data_struct/chunked_list.c:117-140 | the chunk's first element is removed and returned, and the chunk with its last one; a chunk of another list is refused with nothing changed |
| ChunkedList.List.Clone | shared/data_struct/chunked_list.c:34-44 | a new list with the same chunk size and flat sequence, packed: all its chunks but the last are full |
| ChunkedList.Chunk.Shift | shared/data_struct/chunked_list.c:103-105 | the shift loop drops the first element and keeps the order of the rest |
| FatChain.ChainDistinct | kernel/filesystem/fat32.cpp:231-238 | a chain that ends never comes back to a cluster |
| FatChain.ChainBound | kernel/filesystem/fat32.cpp:231-238 | a chain that ends is no longer than the table |
| FatChain.EndsOrNever | kernel/filesystem/fat32.cpp:231-238 | in a table with entries in range, the walk ends within as many steps as there are entries, or never |
| FatChain.CountFat | kernel/filesystem/fat32.cpp:231-238 | count_FAT of a chain that ends is its length |
| FatChain.ClustersTile | kernel/filesystem/fat32.cpp:76-76 | cluster 2 is the first of the data area, and the sectors of clusters lie back to back without overlap |
| FatChain.ReadCluster | kernel/filesystem/fat32.cpp:70-90 | the buffer holds the clusters of the chain in order, as many as asked for, then zeros |
| FatChain.ReadChain | kernel/filesystem/fat32.cpp:70-90 | count_FAT followed by read_cluster with that count yields exactly the file, cluster after cluster |

## Left out

- Mmu.TranslationTables.MapBlock2Mb: attribute indices above 7, which would run into other descriptor fields, are excluded; MAIR_EL1 has eight attributes.
- Mmu.TranslationTables.MapPage4Kb: levels above 2 are excluded, since the code leaves the permission bits uninitialised for them, and so are attribute indices above 7, as for MapBlock2Mb.
- Mmu.TranslationTables.Unmap: barriers and TLB maintenance (kernel/memory/mmu.c:122-136) are not modelled; the walk always sees memory. A block is cleared without them.
- KernelHeap.PageAllocator.Kalloc: requests that round to 4096 bytes or more (page by page, contiguity not guaranteed), and alignments other than 16 and 64, are not modelled; the page header is a record rather than words of memory.
- KernelHeap.PageAllocator.Pfree: pages that heaps live on are never freed; the kernel only frees stacks.
- HeapRuns.Run: sizes and alignments are as for Kalloc, and pages that heaps live on are never freed, as for Pfree.
- PageBitmap.Bitmap.Palloc: one page at a time; the contiguity test for several pages (kernel/memory/page_allocator.c:59-68) does not test the bits it means to. mark_used indexes by groups of 64 pages and is left out for the same reason.
- Framebuffer.Screen.FillRect: extents that wrap past 2^32 are excluded; ClipExact shows that they must be.
- Framebuffer.Screen.DrawChar: glyphs whose extent wraps past 2^32 are excluded, as for FillRect.
- Framebuffer.Screen.DrawString: neither the text nor the extent marked at the end, in which the code counts the line heights twice, may reach 2^32.
- Framebuffer.Screen.Flush: for a stride of four bytes per pixel of width; FullCopyReaches says when a whole-screen copy in one piece is right.
- Framebuffer.Screen.Clear: the fill and the copies are written word by word; MemsetHolds and MemcpyHolds prove that the real memset and memcpy leave the same words.
- XhciRing.ProducerRing.Enqueue: single-TRB enqueues only; control transfers check for the wrap after two or three TRBs (kernel/input/xhci.cpp:425-449). Doorbells, completion events and the event ring are left out.
- Relocator.RelocationPreservesRuns: conditions and the addresses that registers hold are inputs of a run, and after the move a register is taken to hold the moved address (LinkMoves says so of return addresses); an exception (SVC, BRK) counts as an instruction that falls through, and what it does is not modelled.
- Packets.CreateUdp: the payload must not overlap the frame buffer.
- Scheduler.ProcessTable.SleepProcess: the virtual timer is left out, and so is the wake-up time that wake_processes programs into it. The valid flag of trackers is written and never read.
- Scheduler.ProcessTable.InitProcess: resetting the slot (stack page, registers, name, input and packet buffers) is left out.
- DoublyLinkedList.List.InsertAfter: nodes must belong to the list, as they must in the code; allocation never fails. destroy, find and update are left out.
- ChunkedList.List.PushBack: chunk sizes are at least 1 (a chunk of size 0 would be written past its end); the slots of a chunk are a sequence field of fixed length.
- FatChain.CountFat: requires a chain that ends; EndsOrNever says when there is one.
- FatChain.ReadCluster: sectors are opaque values; the buffer is taken to be contiguous, although kalloc gathers requests of 4096 bytes or more page by page; and sizes do not wrap at 4 GB as the 32-bit product in the code does.
- Registration of allocated pages with the page tables (kernel/memory/page_allocator.c:78-81), logging and panics: no effect here, or the end of a run.
- KernelHeap.ChainGrid: alignment is promised for a heap that has served one alignment only; in one that has served two, the free list ignores alignment.
- TCP, ARP, ICMP, DHCP and HTTP, USB and PCI enumeration, audio, the console, the UI, device trees and FAT directory entries: hardware or text plumbing.
- linked_list, ring_buffer, queue, Array, IndexMap and the string helpers: they would only add easier members.
- ramfb and virtio-gpu drivers: their flush is a device command, and ramfb draws lines into the front buffer.
- Context switches, exception entry, timers and the multicore side: assembly and hardware.
