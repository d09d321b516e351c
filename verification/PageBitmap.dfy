/** The page bitmap of kernel/memory/page_allocator.c: `palloc` of one page, `pfree`. */
module PageBitmap {
  import opened Division
  import opened Options

  const WORDS: nat := 65536
  const PAGE_SIZE: nat := 0x1000

  /** The lowest clear bit in [from, limit). */
  function LowestClear(bits: seq<bool>, from: nat, limit: nat): (r: Option<nat>)
    requires from <= limit <= |bits|
    ensures r.Some? ==> from <= r.value < limit && !bits[r.value]
    ensures forall k :: from <= k < (if r.Some? then r.value else limit) ==> bits[k]
    decreases limit - from
  {
    if from == limit then None
    else if !bits[from] then Some(from)
    else LowestClear(bits, from + 1, limit)
  }

  lemma {:induction false} LowestClearSkips(bits: seq<bool>, from: nat, mid: nat, limit: nat)
    requires from <= mid <= limit <= |bits|
    requires forall k :: from <= k < mid ==> bits[k]
    ensures LowestClear(bits, from, limit) == LowestClear(bits, mid, limit)
    decreases mid - from
  {
    if from < mid {
      LowestClearSkips(bits, from + 1, mid, limit);
    }
  }

  /** How many bits of [from, limit) are clear. */
  function CountClear(bits: seq<bool>, from: nat, limit: nat): nat
    requires from <= limit <= |bits|
    decreases limit - from
  {
    if from == limit then 0 else (if bits[from] then 0 else 1) + CountClear(bits, from + 1, limit)
  }

  lemma {:induction false} CountClearUpdate(bits: seq<bool>, from: nat, limit: nat, i: nat, v: bool)
    requires from <= limit <= |bits| && i < |bits|
    ensures CountClear(bits[i := v], from, limit) == CountClear(bits, from, limit)
         + if from <= i < limit then (if bits[i] then 1 else 0) - (if v then 1 else 0) else 0
    decreases limit - from
  {
    if from < limit {
      CountClearUpdate(bits, from + 1, limit, i, v);
    }
  }

  lemma {:induction false} NoneClear(bits: seq<bool>, from: nat, limit: nat)
    requires from <= limit <= |bits|
    ensures CountClear(bits, from, limit) == 0 <==> LowestClear(bits, from, limit).None?
    decreases limit - from
  {
    if from < limit {
      NoneClear(bits, from + 1, limit);
    }
  }

  /** `count_pages`: division rounded up. */
  function CountPages(bytes: nat, unit: nat): nat
    requires unit > 0
  {
    bytes / unit + if bytes % unit > 0 then 1 else 0
  }

  /** The least number of units that hold the bytes. */
  lemma CountPagesLeast(bytes: nat, unit: nat)
    requires unit > 0
    ensures bytes <= CountPages(bytes, unit) * unit < bytes + unit
  {
    assert bytes == bytes / unit * unit + bytes % unit;
    assert (bytes / unit + 1) * unit == bytes / unit * unit + unit;
  }

  /** The pages `palloc` searches: whole bitmap words only. */
  function FirstPage(ramStart: nat): nat { CountPages(ramStart, PAGE_SIZE) / 64 * 64 }
  function LastPage(ramEnd: nat): nat { CountPages(ramEnd, PAGE_SIZE) / 64 * 64 }

  /** Searching by whole words of 64 pages stays above the start of RAM exactly if the
      start, in pages, is a multiple of 64, ... */
  lemma SearchedFrom(ramStart: nat)
    ensures ramStart <= FirstPage(ramStart) * PAGE_SIZE <==> CountPages(ramStart, PAGE_SIZE) % 64 == 0
    ensures FirstPage(ramStart) % 64 == 0 && FirstPage(ramStart) <= CountPages(ramStart, PAGE_SIZE) < FirstPage(ramStart) + 64
  {
    var pages := CountPages(ramStart, PAGE_SIZE);
    assert pages == pages / 64 * 64 + pages % 64;
    assert (pages - 1) * PAGE_SIZE < ramStart <= pages * PAGE_SIZE;
  }

  /** ... and below its end unless a page that is cut off by the end completes a word. */
  lemma SearchedUpTo(ramEnd: nat)
    ensures LastPage(ramEnd) * PAGE_SIZE <= ramEnd
       <==> ramEnd % PAGE_SIZE == 0 || CountPages(ramEnd, PAGE_SIZE) % 64 != 0
    ensures LastPage(ramEnd) % 64 == 0 && LastPage(ramEnd) <= CountPages(ramEnd, PAGE_SIZE) < LastPage(ramEnd) + 64
  {
    var pages := CountPages(ramEnd, PAGE_SIZE);
    assert pages == pages / 64 * 64 + pages % 64;
    assert ramEnd == ramEnd / PAGE_SIZE * PAGE_SIZE + ramEnd % PAGE_SIZE;
  }

  /** With the bounds that `calc_ram` computes, multiples of 2 MB, it is exact. */
  lemma SearchedExactly(ramStart: nat, ramEnd: nat)
    requires ramStart % 0x20_0000 == 0 && ramEnd % 0x20_0000 == 0
    ensures FirstPage(ramStart) * PAGE_SIZE == ramStart && LastPage(ramEnd) * PAGE_SIZE == ramEnd
  {
    WholeWords(ramStart, ramStart / 0x20_0000);
    WholeWords(ramEnd, ramEnd / 0x20_0000);
    hide CountPages;
  }

  lemma WholeWords(ram: nat, n: nat)
    requires ram == n * 0x20_0000
    ensures CountPages(ram, PAGE_SIZE) == n * 512 && n * 512 / 64 * 64 * PAGE_SIZE == ram
  {
    DivModIs(ram, 0x1000, n * 512, 0);
    DivModIs(n * 512, 64, n * 8, 0);
  }

  lemma PageBounds(ramStart: nat, ramEnd: nat)
    requires ramStart <= ramEnd <= 64 * WORDS * PAGE_SIZE
    ensures FirstPage(ramStart) % 64 == 0 && LastPage(ramEnd) % 64 == 0
    ensures FirstPage(ramStart) <= LastPage(ramEnd) <= 64 * WORDS
  {
    var m, n := CountPages(ramStart, PAGE_SIZE), CountPages(ramEnd, PAGE_SIZE);
    assert m <= n <= 64 * WORDS;
    hide CountPages;
  }

  class Bitmap {
    const bits: array<bool>   // mem_bitmap, bit b of word i at 64 * i + b
    const first: nat          // the first and last bit searched
    const last: nat

    ghost predicate Valid() {
      bits.Length == 64 * WORDS && first % 64 == 0 && last % 64 == 0 && first <= last <= bits.Length
    }

    /** `page_allocator_init`, for a RAM range inside the 16 GB the bitmap covers. */
    constructor (ramStart: nat, ramEnd: nat)
      requires ramStart <= ramEnd <= 64 * WORDS * PAGE_SIZE
      ensures Valid() && fresh(bits) && first == FirstPage(ramStart) && last == LastPage(ramEnd)
      ensures bits[..] == seq(64 * WORDS, _ => false)
    {
      PageBounds(ramStart, ramEnd);
      bits := new bool[64 * WORDS](_ => false);
      first, last := CountPages(ramStart, PAGE_SIZE) / 64 * 64, CountPages(ramEnd, PAGE_SIZE) / 64 * 64;
    }

    /** `__builtin_ctzll(~mem_bitmap[i])`, or 64 for a full word. */
    method FirstClear(i: nat) returns (bit: nat)
      requires Valid() && i < WORDS
      ensures bit <= 64 && (bit < 64 ==> !bits[64 * i + bit])
      ensures forall k :: 64 * i <= k < 64 * i + bit ==> bits[k]
    {
      bit := 0;
      while bit < 64 && bits[64 * i + bit]
        invariant bit <= 64
        invariant forall k :: 64 * i <= k < 64 * i + bit ==> bits[k]
      {
        bit := bit + 1;
      }
    }

    /** `palloc` of one page: the lowest free page of the searched range, now taken. */
    method Palloc() returns (page: Option<nat>)
      requires Valid()
      modifies bits
      ensures page == LowestClear(old(bits[..]), first, last)
      ensures bits[..] == if page.Some? then old(bits[..])[page.value := true] else old(bits[..])
    {
      for i := first / 64 to last / 64
        invariant forall k :: first <= k < 64 * i ==> bits[k]
        invariant bits[..] == old(bits[..])
      {
        var bit := FirstClear(i);
        LowestClearSkips(bits[..], first, 64 * i + bit, last);
        if bit < 64 {
          bits[64 * i + bit] := true;
          return Some(64 * i + bit);
        }
      }
      LowestClearSkips(bits[..], first, last, last);
      return None;
    }

    /** `pfree`: one bit, whatever the size. */
    method Pfree(address: nat, size: nat)
      requires Valid() && address / PAGE_SIZE < 64 * WORDS
      modifies bits
      ensures bits[..] == old(bits[..])[address / PAGE_SIZE := false]
    {
      bits[address / PAGE_SIZE] := false;
    }
  }

  // --- Runs ---

  /** A call of `palloc` with its answer, or of `pfree`. */
  datatype Call = Handed(answer: Option<nat>) | Returned(page: nat)

  /** What a call makes of the bitmap (the contracts of Palloc and Pfree). */
  ghost predicate CallStep(bits: seq<bool>, call: Call, bits': seq<bool>, first: nat, last: nat) {
    && first <= last <= |bits|
    && match call
       case Handed(answer) =>
         && answer == LowestClear(bits, first, last)
         && bits' == if answer.Some? then bits[answer.value := true] else bits
       case Returned(page) => page < |bits| && bits' == bits[page := false]
  }

  /** Bitmaps `run[k]`, call `k` leading from one to the next. */
  ghost predicate Calls(run: seq<seq<bool>>, calls: seq<Call>, first: nat, last: nat) {
    && |run| == |calls| + 1
    && forall k {:trigger calls[k]} :: 0 <= k < |calls| ==> CallStep(run[k], calls[k], run[k + 1], first, last)
  }

  /** Until it is freed, a page that was handed out stays taken ... */
  lemma {:induction false} StaysTaken(run: seq<seq<bool>>, calls: seq<Call>, first: nat, last: nat, i: nat, j: nat, page: nat)
    requires Calls(run, calls, first, last) && i < j <= |calls| && calls[i] == Handed(Some(page))
    requires forall k :: i < k < j ==> calls[k] != Returned(page)
    ensures page < |run[j]| && run[j][page]
    decreases j
  {
    hide LowestClear;
    assert CallStep(run[j - 1], calls[j - 1], run[j], first, last);
    if i + 1 < j {
      StaysTaken(run, calls, first, last, i, j - 1, page);
    }
  }

  /** ... so between any two calls that hand out the same page, it was freed. */
  lemma TakenOnce(run: seq<seq<bool>>, calls: seq<Call>, first: nat, last: nat, i: nat, j: nat, page: nat)
    requires Calls(run, calls, first, last) && i < j < |calls|
    requires calls[i] == Handed(Some(page)) && calls[j] == Handed(Some(page))
    ensures exists k :: i < k < j && calls[k] == Returned(page)
  {
    assert CallStep(run[j], calls[j], run[j + 1], first, last);
    if forall k :: i < k < j ==> calls[k] != Returned(page) {
      StaysTaken(run, calls, first, last, i, j, page);
    }
  }
}
