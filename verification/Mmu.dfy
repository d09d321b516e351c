/** `mmu_map_2mb`, `mmu_map_4kb` and `mmu_unmap` of kernel/memory/mmu.c, storing
    through table pointers into memory shared with the boot allocator. */
module Mmu {
  import opened Division
  import opened Options
  import opened PhysicalMemory
  import opened FreeList
  import opened TempAllocator
  import opened RadixWalk
  import opened PageTables

  // --- Tables in allocator memory ---

  /** Every table but the static root is a page held from the heap. */
  ghost predicate InPlace(s: Snapshot, bottom: nat, limit: nat, t: Tree) {
    && limit <= 0x1_0000_0000_0000
    && Aligned(t.root) && (t.root + 0x1000 <= bottom || limit <= t.root) && t.root < 0x1_0000_0000_0000
    && (forall x :: x in t.level && x != t.root ==> Held(s, x) && s.block[x] == 0x1000)
  }

  /** A valid entry is a table above level 2 and never an encoding its level reserves. */
  predicate Proper(d: Word, k: nat) {
    d % 2 == 1 ==> if k < 2 then Decode(d, k).Next? else Decode(d, k) != Fault
  }

  ghost predicate NoReserved(m: Memory, t: Tree) {
    forall x, i {:trigger Desc(m, x, i)} :: x in t.level && 0 <= i < 512 ==> Proper(Desc(m, x, i), t.level[x])
  }

  ghost predicate Good(s: Snapshot, bottom: nat, limit: nat, t: Tree) {
    && Sound(s, bottom, limit) && InPlace(s, bottom, limit, t)
    && NoReserved(s.mem, t) && Shaped(EntriesOf(s.mem), t)
  }

  lemma SlotsDiffer(x: nat, i: nat, y: nat, j: nat)
    requires Aligned(x) && Aligned(y) && i < 512 && j < 512 && (x != y || i != j)
    ensures x + 8 * i != y + 8 * j
  {
    hide Aligned;
    if x != y {
      AlignedApart(x, y);
    }
  }

  lemma SlotAligned(x: nat, i: nat)
    requires Aligned(x)
    ensures (x + 8 * i) % 8 == 0
  {
    DivModIs(x + 8 * i, 8, x / 0x1000 * 0x200 + i, 0);
  }

  lemma TableSlot(s: Snapshot, bottom: nat, limit: nat, t: Tree, x: nat, i: nat)
    requires Sound(s, bottom, limit) && InPlace(s, bottom, limit, t) && x in t.level && i < 512
    ensures Aligned(x) && x < 0x1_0000_0000_0000
    ensures (x + 8 * i) % 8 == 0 && Foreign(s, bottom, limit, x + 8 * i)
  {
    SlotAligned(x, i);
    if x != t.root {
      assert Held(s, x) && x <= x + 8 * i < x + s.block[x];
    }
  }

  /** Storing `v` into slot (x, i), other table words unchanged from `m`. */
  lemma StoredSlot(m: Memory, m': Memory, t: Tree, x: nat, i: nat, v: Word)
    requires x in t.level && i < 512 && Desc(m', x, i) == v
    requires forall y, j {:trigger Desc(m', y, j)} ::
               y in t.level && 0 <= j < 512 && (y != x || j != i) ==> Desc(m', y, j) == Desc(m, y, j)
    ensures OnlySlot(EntriesOf(m), EntriesOf(m'), t, x, i)
    ensures EntriesOf(m')(t.level[x], x, i) == Decode(v, t.level[x])
  {
    var e, e' := EntriesOf(m), EntriesOf(m');
    forall y, j {:trigger e'(t.level[y], y, j)} | y in t.level && 0 <= j < 512 && (y != x || j != i)
      ensures e'(t.level[y], y, j) == e(t.level[y], y, j)
    {
      assert Desc(m', y, j) == Desc(m, y, j);
    }
  }

  /** Memory and tree after hooking the new page `n` into the faulting slot (x, i). */
  ghost function Hooked(s: Snapshot, x: nat, i: nat, n: nat): Snapshot {
    s.(mem := s.mem[x + 8 * i := TableDescriptor(n)])
  }

  /** What the words of the tables in use hold after the hook ... */
  lemma HookedWord(s: Snapshot, s1: Snapshot, bottom: nat, limit: nat, t: Tree, x: nat, i: nat, n: nat, y: nat, j: nat)
    requires Sound(s, bottom, limit) && InPlace(s, bottom, limit, t)
    requires Handover(s, s1, bottom, limit, n, 0x1000)
    requires x in t.level && i < 512 && y in t.level && j < 512
    ensures n != y
    ensures Desc(Hooked(s1, x, i, n).mem, y, j)
         == if y == x && j == i then TableDescriptor(n) else Desc(s.mem, y, j)
  {
    hide InPlace, Sound, Aligned, TableDescriptor, Given, Foreign;
    HookedElsewhere(s, s1, bottom, limit, t, n, y);
    TableSlot(s, bottom, limit, t, y, j);
    TableSlot(s, bottom, limit, t, x, i);
    GivenLoad(s, s1, bottom, limit, n, 0x1000, y + 8 * j);
    if y != x || j != i {
      SlotsDiffer(x, i, y, j);
    }
  }

  lemma HookedElsewhere(s: Snapshot, s1: Snapshot, bottom: nat, limit: nat, t: Tree, n: nat, y: nat)
    requires Sound(s, bottom, limit) && InPlace(s, bottom, limit, t)
    requires Handover(s, s1, bottom, limit, n, 0x1000) && y in t.level
    ensures n != y
  {
    hide Sound, Aligned;
    if y != t.root {
      assert Held(s, y) && Apart(n, 0x1000, y, s.block[y]);
    }
  }

  /** ... and what the new table holds. */
  lemma HookedFresh(s: Snapshot, s1: Snapshot, bottom: nat, limit: nat, t: Tree, x: nat, i: nat, n: nat, j: nat)
    requires Sound(s, bottom, limit) && InPlace(s, bottom, limit, t)
    requires Handover(s, s1, bottom, limit, n, 0x1000)
    requires x in t.level && i < 512 && j < 512
    ensures Desc(Hooked(s1, x, i, n).mem, n, j) == 0
  {
    TableSlot(s, bottom, limit, t, x, i);
    HookedWord(s, s1, bottom, limit, t, x, i, n, x, i);
    SlotsDiffer(x, i, n, j);
    assert Load(s1.mem, n + 8 * j) == 0;
  }

  lemma HookedEntries(s: Snapshot, s1: Snapshot, bottom: nat, limit: nat, t: Tree, x: nat, i: nat, n: nat)
    requires Sound(s, bottom, limit) && InPlace(s, bottom, limit, t)
    requires Handover(s, s1, bottom, limit, n, 0x1000)
    requires x in t.level && t.level[x] < 3 && i < 512
    ensures var e, e' := EntriesOf(s.mem), EntriesOf(Hooked(s1, x, i, n).mem);
            && OnlySlot(e, e', t, x, i) && e'(t.level[x], x, i) == Next(n)
            && Empty(e', t.level[x] + 1, n)
    ensures n !in t.level
  {
    var m, m' := s.mem, Hooked(s1, x, i, n).mem;
    forall y, j {:trigger Desc(m', y, j)} | y in t.level && 0 <= j < 512 && (y != x || j != i)
      ensures Desc(m', y, j) == Desc(m, y, j)
    {
      HookedWord(s, s1, bottom, limit, t, x, i, n, y, j);
    }
    HookedWord(s, s1, bottom, limit, t, x, i, n, x, i);
    StoredSlot(m, m', t, x, i, TableDescriptor(n));
    TableDescriptorDecodes(n, t.level[x]);
    forall j {:trigger EntriesOf(m')(t.level[x] + 1, n, j)} | 0 <= j < 512
      ensures EntriesOf(m')(t.level[x] + 1, n, j) == Fault
    {
      HookedFresh(s, s1, bottom, limit, t, x, i, n, j);
    }
    if n in t.level {
      HookedWord(s, s1, bottom, limit, t, x, i, n, n, 0);
    }
  }

  lemma HookedNoReserved(s: Snapshot, s1: Snapshot, bottom: nat, limit: nat, t: Tree, x: nat, i: nat, n: nat)
    requires Sound(s, bottom, limit) && InPlace(s, bottom, limit, t) && NoReserved(s.mem, t)
    requires Handover(s, s1, bottom, limit, n, 0x1000)
    requires x in t.level && t.level[x] < 3 && i < 512
    ensures NoReserved(Hooked(s1, x, i, n).mem, Grown(t, x, i, n))
  {
    var m', t' := Hooked(s1, x, i, n).mem, Grown(t, x, i, n);
    forall y, j {:trigger Desc(m', y, j)} | y in t'.level && 0 <= j < 512
      ensures Proper(Desc(m', y, j), t'.level[y])
    {
      if y == n {
        HookedFresh(s, s1, bottom, limit, t, x, i, n, j);
      } else {
        HookedWord(s, s1, bottom, limit, t, x, i, n, y, j);
        TableDescriptorDecodes(n, t.level[x]);
      }
    }
  }

  lemma HookedInPlace(s: Snapshot, s1: Snapshot, bottom: nat, limit: nat, t: Tree, x: nat, i: nat, n: nat)
    requires Sound(s, bottom, limit) && InPlace(s, bottom, limit, t) && x in t.level && n !in t.level
    requires Handover(s, s1, bottom, limit, n, 0x1000)
    ensures InPlace(Hooked(s1, x, i, n), bottom, limit, Grown(t, x, i, n))
  {
    var s2, t' := Hooked(s1, x, i, n), Grown(t, x, i, n);
    forall y | y in t'.level && y != t'.root
      ensures Held(s2, y) && s2.block[y] == 0x1000
    {
      if y == n {
        assert Held(s, n) ==> Apart(n, 0x1000, n, s.block[n]);
      } else {
        assert Held(s, y);
      }
      assert Held(s1, y);
    }
  }

  lemma HookedSound(s: Snapshot, s1: Snapshot, bottom: nat, limit: nat, t: Tree, x: nat, i: nat, n: nat)
    requires Sound(s, bottom, limit) && InPlace(s, bottom, limit, t) && x in t.level && i < 512
    requires Sound(s1, bottom, limit) && Handover(s, s1, bottom, limit, n, 0x1000)
    ensures Foreign(s1, bottom, limit, x + 8 * i) && Sound(Hooked(s1, x, i, n), bottom, limit)
  {
    TableSlot(s, bottom, limit, t, x, i);
    GivenKeepsForeign(s, s1, bottom, limit, n, 0x1000, x + 8 * i);
    StoreSound(s1, bottom, limit, x + 8 * i, TableDescriptor(n));
  }

  /** Hooking a fresh page into a faulting slot keeps everything. */
  lemma LinkStep(s: Snapshot, s1: Snapshot, bottom: nat, limit: nat, t: Tree, x: nat, i: nat, n: nat)
    requires Good(s, bottom, limit, t) && Sound(s1, bottom, limit)
    requires Handover(s, s1, bottom, limit, n, 0x1000)
    requires x in t.level && t.level[x] < 3 && i < 512 && EntriesOf(s.mem)(t.level[x], x, i) == Fault
    ensures Good(Hooked(s1, x, i, n), bottom, limit, Grown(t, x, i, n))
    ensures EntriesOf(Hooked(s1, x, i, n).mem)(t.level[x], x, i) == Next(n)
  {
    HookedEntries(s, s1, bottom, limit, t, x, i, n);
    HookedInPlace(s, s1, bottom, limit, t, x, i, n);
    HookedNoReserved(s, s1, bottom, limit, t, x, i, n);
    LinkShaped(EntriesOf(s.mem), EntriesOf(Hooked(s1, x, i, n).mem), t, x, i, n);
    HookedSound(s, s1, bottom, limit, t, x, i, n);
  }

  /** ... and no translation notices. */
  lemma LinkSilent(s: Snapshot, s1: Snapshot, bottom: nat, limit: nat, t: Tree, x: nat, i: nat, n: nat, p: Path)
    requires Good(s, bottom, limit, t)
    requires Handover(s, s1, bottom, limit, n, 0x1000)
    requires x in t.level && t.level[x] < 3 && i < 512 && EntriesOf(s.mem)(t.level[x], x, i) == Fault
    ensures WalkFrom(EntriesOf(Hooked(s1, x, i, n).mem), t.root, 0, p) == WalkFrom(EntriesOf(s.mem), t.root, 0, p)
  {
    HookedEntries(s, s1, bottom, limit, t, x, i, n);
    LinkInvisible(EntriesOf(s.mem), EntriesOf(Hooked(s1, x, i, n).mem), t, x, i, n, p);
  }

  ghost function Overwritten(s: Snapshot, x: nat, i: nat, v: Word): Snapshot {
    s.(mem := s.mem[x + 8 * i := v])
  }

  lemma OverwrittenEntries(s: Snapshot, bottom: nat, limit: nat, t: Tree, x: nat, i: nat, v: Word)
    requires Sound(s, bottom, limit) && InPlace(s, bottom, limit, t) && x in t.level && i < 512
    ensures var e, e' := EntriesOf(s.mem), EntriesOf(Overwritten(s, x, i, v).mem);
            OnlySlot(e, e', t, x, i) && e'(t.level[x], x, i) == Decode(v, t.level[x])
    ensures forall y, j {:trigger Desc(Overwritten(s, x, i, v).mem, y, j)} ::
              y in t.level && 0 <= j < 512 && (y != x || j != i) ==>
                Desc(Overwritten(s, x, i, v).mem, y, j) == Desc(s.mem, y, j)
  {
    var m' := Overwritten(s, x, i, v).mem;
    TableSlot(s, bottom, limit, t, x, i);
    forall y, j {:trigger Desc(m', y, j)} | y in t.level && 0 <= j < 512 && (y != x || j != i)
      ensures Desc(m', y, j) == Desc(s.mem, y, j)
    {
      TableSlot(s, bottom, limit, t, y, j);
      SlotsDiffer(x, i, y, j);
    }
    StoredSlot(s.mem, m', t, x, i, v);
  }

  lemma OverwrittenNoReserved(s: Snapshot, bottom: nat, limit: nat, t: Tree, x: nat, i: nat, v: Word)
    requires Sound(s, bottom, limit) && InPlace(s, bottom, limit, t) && NoReserved(s.mem, t)
    requires x in t.level && i < 512 && Proper(v, t.level[x])
    ensures NoReserved(Overwritten(s, x, i, v).mem, t)
  {
    var m' := Overwritten(s, x, i, v).mem;
    OverwrittenEntries(s, bottom, limit, t, x, i, v);
    assert Desc(m', x, i) == v;
    forall y, j {:trigger Desc(m', y, j)} | y in t.level && 0 <= j < 512
      ensures Proper(Desc(m', y, j), t.level[y])
    {
      assert y != x || j != i ==> Desc(m', y, j) == Desc(s.mem, y, j);
    }
  }

  lemma PrunedInPlace(s: Snapshot, bottom: nat, limit: nat, t: Tree, entry: Entry)
    requires InPlace(s, bottom, limit, t)
    ensures InPlace(s, bottom, limit, Pruned(t, entry))
    ensures NoReserved(s.mem, t) ==> NoReserved(s.mem, Pruned(t, entry))
  {
  }

  lemma OverwrittenShaped(s: Snapshot, bottom: nat, limit: nat, t: Tree, x: nat, i: nat, v: Word)
    requires Good(s, bottom, limit, t) && x in t.level && 2 <= t.level[x] && i < 512
    requires !Decode(v, t.level[x]).Next?
    ensures Shaped(EntriesOf(Overwritten(s, x, i, v).mem), Pruned(t, EntriesOf(s.mem)(t.level[x], x, i)))
  {
    OverwrittenEntries(s, bottom, limit, t, x, i, v);
    OverwriteShaped(EntriesOf(s.mem), EntriesOf(Overwritten(s, x, i, v).mem), t, x, i);
  }

  lemma OverwrittenSound(s: Snapshot, bottom: nat, limit: nat, t: Tree, x: nat, i: nat, v: Word)
    requires Sound(s, bottom, limit) && InPlace(s, bottom, limit, t) && x in t.level && i < 512
    ensures Sound(Overwritten(s, x, i, v), bottom, limit) && InPlace(Overwritten(s, x, i, v), bottom, limit, t)
  {
    TableSlot(s, bottom, limit, t, x, i);
    StoreSound(s, bottom, limit, x + 8 * i, v);
    assert forall y :: Held(Overwritten(s, x, i, v), y) == Held(s, y);
  }

  /** Storing a leaf or an invalid word into a level 2 or 3 slot keeps everything,
      except that a table the slot pointed at is no longer part of the tree. */
  lemma OverwriteStep(s: Snapshot, bottom: nat, limit: nat, t: Tree, x: nat, i: nat, v: Word)
    requires Good(s, bottom, limit, t) && x in t.level && 2 <= t.level[x] && i < 512
    requires !Decode(v, t.level[x]).Next? && Proper(v, t.level[x])
    ensures Good(Overwritten(s, x, i, v), bottom, limit, Pruned(t, EntriesOf(s.mem)(t.level[x], x, i)))
  {
    OverwrittenShaped(s, bottom, limit, t, x, i, v);
    OverwrittenSound(s, bottom, limit, t, x, i, v);
    OverwrittenNoReserved(s, bottom, limit, t, x, i, v);
    PrunedInPlace(Overwritten(s, x, i, v), bottom, limit, t, EntriesOf(s.mem)(t.level[x], x, i));
  }

  /** ... and changes exactly the translations that read the slot. */
  lemma OverwriteTranslations(s: Snapshot, bottom: nat, limit: nat, t: Tree, x: nat, va: nat, v: Word, q: Path)
    requires Good(s, bottom, limit, t) && x in t.level && 2 <= t.level[x]
    requires TableAt(EntriesOf(s.mem), t.root, PathOf(va), t.level[x]) == Some(x)
    requires !Decode(v, t.level[x]).Next?
    ensures WalkFrom(EntriesOf(Overwritten(s, x, PathOf(va)[t.level[x]], v).mem), t.root, 0, q)
         == if q[..t.level[x] + 1] == PathOf(va)[..t.level[x] + 1] then Decode(v, t.level[x])
            else WalkFrom(EntriesOf(s.mem), t.root, 0, q)
  {
    OverwrittenEntries(s, bottom, limit, t, x, PathOf(va)[t.level[x]], v);
    OverwriteEffect(EntriesOf(s.mem), EntriesOf(Overwritten(s, x, PathOf(va)[t.level[x]], v).mem), t, x, PathOf(va), q);
  }

  // --- Other users of the allocator ---

  /** A step of the allocator that leaves the tables' memory alone. */
  ghost predicate SparesTables(s: Snapshot, s': Snapshot, bottom: nat, limit: nat, t: Tree) {
    && (forall x :: x in t.level && x != t.root ==> Held(s', x) && s'.block[x] == 0x1000)
    && (forall x, i {:trigger Desc(s'.mem, x, i)} :: x in t.level && 0 <= i < 512 ==> Desc(s'.mem, x, i) == Desc(s.mem, x, i))
  }

  lemma SparedStep(s: Snapshot, s': Snapshot, bottom: nat, limit: nat, t: Tree)
    requires Good(s, bottom, limit, t) && Sound(s', bottom, limit) && SparesTables(s, s', bottom, limit, t)
    ensures Good(s', bottom, limit, t)
    ensures forall p: Path {:trigger WalkFrom(EntriesOf(s'.mem), t.root, 0, p)} ::
              WalkFrom(EntriesOf(s'.mem), t.root, 0, p) == WalkFrom(EntriesOf(s.mem), t.root, 0, p)
  {
    var e, e' := EntriesOf(s.mem), EntriesOf(s'.mem);
    forall x, j {:trigger e'(t.level[x], x, j)} | x in t.level && 0 <= j < 512
      ensures e'(t.level[x], x, j) == e(t.level[x], x, j)
    {
      assert Desc(s'.mem, x, j) == Desc(s.mem, x, j);
    }
    SameEntriesShaped(e, e', t);
    forall p: Path
      ensures WalkFrom(e', t.root, 0, p) == WalkFrom(e, t.root, 0, p)
    {
      SameEntriesSameWalks(e, e', t, p);
    }
  }

  lemma HandoverSpares(s: Snapshot, s': Snapshot, bottom: nat, limit: nat, t: Tree, p: nat, size: nat)
    requires Sound(s, bottom, limit) && InPlace(s, bottom, limit, t)
    requires Handover(s, s', bottom, limit, p, size)
    ensures SparesTables(s, s', bottom, limit, t)
  {
    forall x | x in t.level && x != t.root
      ensures Held(s', x) && s'.block[x] == 0x1000
    {
      assert Held(s, x);
    }
    forall x, i {:trigger Desc(s'.mem, x, i)} | x in t.level && 0 <= i < 512
      ensures Desc(s'.mem, x, i) == Desc(s.mem, x, i)
    {
      TableSlot(s, bottom, limit, t, x, i);
    }
  }

  lemma PushSpares(s: Snapshot, bottom: nat, limit: nat, t: Tree, p: Word)
    requires Sound(s, bottom, limit) && InPlace(s, bottom, limit, t)
    requires Held(s, p) && p !in t.level
    ensures SparesTables(s, Push(s, p, s.block[p]), bottom, limit, t)
  {
    var s' := Push(s, p, s.block[p]);
    forall x, i {:trigger Desc(s'.mem, x, i)} | x in t.level && 0 <= i < 512
      ensures Desc(s'.mem, x, i) == Desc(s.mem, x, i)
    {
      if x != t.root {
        assert Held(s, x) && Apart(p, s.block[p], x, s.block[x]);
      }
    }
  }

  /** A client's own memory is no table's. */
  lemma StoreSpares(s: Snapshot, bottom: nat, limit: nat, t: Tree, q: nat, k: nat, v: Word)
    requires Sound(s, bottom, limit) && InPlace(s, bottom, limit, t)
    requires Client(s, t, q) && 8 * k < s.block[q]
    ensures (q + 8 * k) % 8 == 0 && Foreign(s, bottom, limit, q + 8 * k)
    ensures SparesTables(s, s.(mem := s.mem[q + 8 * k := v]), bottom, limit, t)
  {
    var s' := s.(mem := s.mem[q + 8 * k := v]);
    assert Aligned(q) && q <= q + 8 * k < q + s.block[q];
    SlotAligned(q, k);
    forall x, i {:trigger Desc(s'.mem, x, i)} | x in t.level && 0 <= i < 512
      ensures Desc(s'.mem, x, i) == Desc(s.mem, x, i)
    {
      SlotOutside(s, bottom, limit, t, x, i, q);
    }
    forall x | x in t.level && x != t.root
      ensures Held(s', x)
    {
      assert Held(s, x);
    }
  }

  /** A held region that is no translation table belongs to some other client. */
  ghost predicate Client(s: Snapshot, t: Tree, q: nat) {
    Held(s, q) && q !in t.level
  }

  ghost predicate ClientKept(s: Snapshot, t: Tree, s': Snapshot, t': Tree, q: nat) {
    Client(s, t, q) ==>
      && Client(s', t', q) && s'.block[q] == s.block[q]
      && forall a: nat :: q <= a < q + s.block[q] ==> Load(s'.mem, a) == Load(s.mem, a)
  }

  /** Every other client still holds its region, with the contents it had. */
  ghost predicate ClientsKept(s: Snapshot, t: Tree, s': Snapshot, t': Tree) {
    forall q: nat :: ClientKept(s, t, s', t', q)
  }

  lemma SlotOutside(s: Snapshot, bottom: nat, limit: nat, t: Tree, x: nat, i: nat, q: nat)
    requires Sound(s, bottom, limit) && InPlace(s, bottom, limit, t) && x in t.level && i < 512
    requires Client(s, t, q)
    ensures x + 8 * i < q || q + s.block[q] <= x + 8 * i
  {
    if x != t.root {
      assert Held(s, x) && Apart(x, s.block[x], q, s.block[q]);
    } else {
      assert q in s.block && Placed(s.block, bottom, s.next, q);
    }
  }

  lemma LinkKeepsClients(s: Snapshot, s1: Snapshot, bottom: nat, limit: nat, t: Tree, x: nat, i: nat, n: nat)
    requires Sound(s, bottom, limit) && InPlace(s, bottom, limit, t) && x in t.level && i < 512
    requires Handover(s, s1, bottom, limit, n, 0x1000)
    ensures ClientsKept(s, t, Hooked(s1, x, i, n), Grown(t, x, i, n))
  {
    var s2, t' := Hooked(s1, x, i, n), Grown(t, x, i, n);
    forall q: nat
      ensures ClientKept(s, t, s2, t', q)
    {
      if Client(s, t, q) {
        assert Apart(n, 0x1000, q, s.block[q]) && Held(s1, q);
        SlotOutside(s, bottom, limit, t, x, i, q);
        assert forall a: nat :: q <= a < q + s.block[q] ==> Foreign(s, bottom, limit, a);
      }
    }
  }

  lemma OverwriteKeepsClients(s: Snapshot, bottom: nat, limit: nat, t: Tree, x: nat, i: nat, v: Word, entry: Entry)
    requires Sound(s, bottom, limit) && InPlace(s, bottom, limit, t) && x in t.level && i < 512
    ensures ClientsKept(s, t, Overwritten(s, x, i, v), Pruned(t, entry))
  {
    var s', t' := Overwritten(s, x, i, v), Pruned(t, entry);
    forall q: nat
      ensures ClientKept(s, t, s', t', q)
    {
      if Client(s, t, q) {
        SlotOutside(s, bottom, limit, t, x, i, q);
      }
    }
  }

  lemma ClientsKeptTwice(s: Snapshot, t: Tree, s': Snapshot, t': Tree, s'': Snapshot, t'': Tree)
    requires ClientsKept(s, t, s', t') && ClientsKept(s', t', s'', t'')
    ensures ClientsKept(s, t, s'', t'')
  {
    forall q: nat
      ensures ClientKept(s, t, s'', t'', q)
    {
      assert ClientKept(s, t, s', t', q) && ClientKept(s', t', s'', t'', q);
    }
  }

  // --- From walks to the page map ---

  /** The page of a virtual address; bits 63 to 48 take no part in the indices. */
  function PageOf(va: nat): nat {
    va % 0x1_0000_0000_0000 / 0x1000
  }

  lemma LowIndices(va: nat, q: nat, r: nat)
    requires va == q * 0x1_0000_0000_0000 + r
    ensures va / 0x80_0000_0000 == q * 512 + r / 0x80_0000_0000
    ensures va / 0x4000_0000 == q * 0x40000 + r / 0x4000_0000
    ensures va / 0x20_0000 == q * 0x800_0000 + r / 0x20_0000
    ensures va / 0x1000 == q * 0x10_0000_0000 + r / 0x1000
  {
    DivModIs(va, 0x80_0000_0000, q * 512 + r / 0x80_0000_0000, r % 0x80_0000_0000);
    DivModIs(va, 0x4000_0000, q * 0x40000 + r / 0x4000_0000, r % 0x4000_0000);
    DivModIs(va, 0x20_0000, q * 0x800_0000 + r / 0x20_0000, r % 0x20_0000);
    DivModIs(va, 0x1000, q * 0x10_0000_0000 + r / 0x1000, r % 0x1000);
  }

  lemma ModSame(a: nat, b: nat, q: nat)
    requires a == q * 512 + b
    ensures a % 512 == b % 512
  {
    DivModIs(a, 512, q + b / 512, b % 512);
  }

  lemma PathOfLow(va: nat)
    ensures PathOf(va) == PathOf(va % 0x1_0000_0000_0000)
  {
    var q, r := va / 0x1_0000_0000_0000, va % 0x1_0000_0000_0000;
    LowIndices(va, q, r);
    ModSame(va / 0x80_0000_0000, r / 0x80_0000_0000, q);
    ModSame(va / 0x4000_0000, r / 0x4000_0000, q * 0x200);
    ModSame(va / 0x20_0000, r / 0x20_0000, q * 0x40000);
    ModSame(va / 0x1000, r / 0x1000, q * 0x800_0000);
  }

  lemma SameWalksRepresent(m: Memory, m': Memory, root: nat, pages: PageMap)
    requires Represents(m, root, pages)
    requires forall p: Path {:trigger WalkFrom(EntriesOf(m'), root, 0, p)} ::
               WalkFrom(EntriesOf(m'), root, 0, p) == WalkFrom(EntriesOf(m), root, 0, p)
    ensures Represents(m', root, pages)
  {
    forall va: nat {:trigger Walk(m', root, va)} | va < 0x1_0000_0000_0000
      ensures Walk(m', root, va) == Lookup(pages, va)
    {
      assert Walk(m, root, va) == Lookup(pages, va);
    }
  }

  lemma RegionMembers(q: nat, page: nat)
    ensures q in Region(page) <==> q / 512 == page / 512
  {
    if page / 512 * 512 <= q < page / 512 * 512 + 512 {
      DivModIs(q, 512, page / 512, q - page / 512 * 512);
    }
  }

  lemma PageOffset(va: nat)
    ensures va % 0x20_0000 == va / 0x1000 % 512 * 0x1000 + va % 0x1000
    ensures va / 0x20_0000 == va / 0x1000 / 512
  {
    var page := va / 0x1000;
    DivModIs(va, 0x20_0000, page / 512, page % 512 * 0x1000 + va % 0x1000);
  }

  /** Sharing the first three (four) indices is lying in the same region (page). */
  lemma SharedPrefix(w: nat, va: nat, n: nat)
    requires w < 0x1_0000_0000_0000 && 3 <= n <= 4
    ensures PathOf(w)[..n] == PathOf(va)[..n] <==> if n == 3 then w / 0x1000 in Region(PageOf(va)) else w / 0x1000 == PageOf(va)
  {
    hide PathOf, Region;
    PathOfLow(va);
    PathPrefixes(w, va % 0x1_0000_0000_0000);
    PageOffset(w);
    PageOffset(va % 0x1_0000_0000_0000);
    RegionMembers(w / 0x1000, PageOf(va));
  }

  /** The walks that share the first `n` indices of `va` end in `leaf`; no other
      walk changes. */
  ghost predicate Redirected(m: Memory, m': Memory, root: nat, va: nat, n: nat, leaf: Entry)
    requires n <= 4
  {
    forall q: Path {:trigger WalkFrom(EntriesOf(m'), root, 0, q)} ::
      WalkFrom(EntriesOf(m'), root, 0, q) ==
        if q[..n] == PathOf(va)[..n] then leaf else WalkFrom(EntriesOf(m), root, 0, q)
  }

  /** ... so exactly one region (n = 3) or page (n = 4) is translated by `leaf`. */
  lemma RedirectedWalk(m: Memory, m': Memory, root: nat, pages: PageMap, va: nat, n: nat, leaf: Entry, w: nat)
    requires Represents(m, root, pages) && 3 <= n <= 4 && Redirected(m, m', root, va, n, leaf)
    requires w < 0x1_0000_0000_0000 && !leaf.Next?
    ensures var same := if n == 3 then w / 0x1000 in Region(PageOf(va)) else w / 0x1000 == PageOf(va);
            Walk(m', root, w) ==
              if !same then Lookup(pages, w) else if leaf.Leaf? then Some(Output(leaf.word, leaf.level, w)) else None
  {
    hide PathOf, Region, PageOf, Lookup, Output, EntriesOf;
    SharedPrefix(w, va, n);
    assert Walk(m, root, w) == Lookup(pages, w);
    assert WalkFrom(EntriesOf(m'), root, 0, PathOf(w)) ==
      if PathOf(w)[..n] == PathOf(va)[..n] then leaf else WalkFrom(EntriesOf(m), root, 0, PathOf(w));
  }

  lemma BlockMapped(m: Memory, m': Memory, root: nat, pages: PageMap, va: nat, pa: Word, attrIndex: nat)
    requires Represents(m, root, pages) && attrIndex < 8
    requires Redirected(m, m', root, va, 3, Leaf(BlockDescriptor(pa, attrIndex), 2))
    ensures Represents(m', root, MapBlock(pages, PageOf(va), Target(pa) / 0x20_0000 * 0x20_0000, BlockAttributes(attrIndex)))
  {
    hide PathOf, WalkFrom, Output, Target, Region, PageOf, BlockDescriptor, BlockAttributes, EntriesOf;
    var pages' := MapBlock(pages, PageOf(va), Target(pa) / 0x20_0000 * 0x20_0000, BlockAttributes(attrIndex));
    forall w: nat {:trigger Walk(m', root, w)} | w < 0x1_0000_0000_0000
      ensures Walk(m', root, w) == Lookup(pages', w)
    {
      RedirectedWalk(m, m', root, pages, va, 3, Leaf(BlockDescriptor(pa, attrIndex), 2), w);
      BlockDescriptorDecodes(pa, attrIndex, w);
      PageOffset(w);
    }
  }

  lemma PageMapped(m: Memory, m': Memory, root: nat, pages: PageMap, va: nat, pa: Word, attrIndex: nat, level: nat)
    requires Represents(m, root, pages) && attrIndex < 8 && level <= 2 && PageOf(va) !in pages
    requires Redirected(m, m', root, va, 4, Leaf(PageDescriptor(pa, attrIndex, level), 3))
    ensures Represents(m', root, MapPage(pages, PageOf(va), Mapping(Target(pa), PageAttributes(attrIndex, level), 3)))
  {
    hide PathOf, WalkFrom, Output, Target, PageOf, PageDescriptor, PageAttributes, EntriesOf;
    var pages' := MapPage(pages, PageOf(va), Mapping(Target(pa), PageAttributes(attrIndex, level), 3));
    forall w: nat {:trigger Walk(m', root, w)} | w < 0x1_0000_0000_0000
      ensures Walk(m', root, w) == Lookup(pages', w)
    {
      RedirectedWalk(m, m', root, pages, va, 4, Leaf(PageDescriptor(pa, attrIndex, level), 3), w);
      PageDescriptorDecodes(pa, attrIndex, level, w);
    }
  }

  /** Clearing the slot of the block that covers `va` ... */
  lemma BlockUnmapped(m: Memory, m': Memory, root: nat, pages: PageMap, va: nat)
    requires Represents(m, root, pages) && Redirected(m, m', root, va, 3, Fault)
    requires PageOf(va) in pages && pages[PageOf(va)].level == 2
    ensures Represents(m', root, UnmapPage(pages, PageOf(va)))
  {
    hide PathOf, WalkFrom, Output;
    forall w: nat {:trigger Walk(m', root, w)} | w < 0x1_0000_0000_0000
      ensures Walk(m', root, w) == Lookup(UnmapPage(pages, PageOf(va)), w)
    {
      RedirectedWalk(m, m', root, pages, va, 3, Fault, w);
    }
  }

  /** ... or its level 3 slot. */
  lemma PageUnmapped(m: Memory, m': Memory, root: nat, pages: PageMap, va: nat)
    requires Represents(m, root, pages) && Redirected(m, m', root, va, 4, Fault)
    requires PageOf(va) in pages ==> pages[PageOf(va)].level != 2
    ensures Represents(m', root, UnmapPage(pages, PageOf(va)))
  {
    hide PathOf, WalkFrom, Output;
    forall w: nat {:trigger Walk(m', root, w)} | w < 0x1_0000_0000_0000
      ensures Walk(m', root, w) == Lookup(UnmapPage(pages, PageOf(va)), w)
    {
      RedirectedWalk(m, m', root, pages, va, 4, Fault, w);
    }
  }

  /** What the walk for `va` ends in says how the page map has it. */
  lemma WalkedPage(m: Memory, root: nat, pages: PageMap, va: nat)
    requires Represents(m, root, pages)
    ensures match WalkFrom(EntriesOf(m), root, 0, PathOf(va))
            case Leaf(d, k) => PageOf(va) in pages && pages[PageOf(va)].level == k
            case Fault => PageOf(va) !in pages
  {
    PathOfLow(va);
    assert Walk(m, root, va % 0x1_0000_0000_0000) == Lookup(pages, va % 0x1_0000_0000_0000);
  }

  /** The page map after `mmu_map_2mb(va, pa, attrIndex)`: hardware ignores the low
      bits of the block's address, so it maps the 2 MB frame that holds `pa`. */
  function BlockMap(pages: PageMap, va: nat, pa: Word, attrIndex: nat): PageMap {
    MapBlock(pages, PageOf(va), Target(pa) / 0x20_0000 * 0x20_0000, BlockAttributes(attrIndex))
  }

  /** The page map after `mmu_map_4kb(va, pa, attrIndex, level)`. */
  function PageMapping(pages: PageMap, va: nat, pa: Word, attrIndex: nat, level: nat): PageMap {
    MapPage(pages, PageOf(va), Mapping(Target(pa), PageAttributes(attrIndex, level), 3))
  }

  /** What a fresh mapping of a page lets EL1 and EL0 do with it: level 1 keeps EL0 out, level
      0 lets EL0 read and write, level 2 lets nobody write and EL0 only execute. */
  lemma PageRights(m: Memory, root: nat, pages: PageMap, va: nat, pa: Word, attrIndex: nat, level: nat)
    requires va < 0x1_0000_0000_0000 && PageOf(va) !in pages && level <= 2
    requires Represents(m, root, PageMapping(pages, va, pa, attrIndex, level))
    ensures Walk(m, root, va).Some?
    ensures var t := Walk(m, root, va).value;
            && t.pa == Target(pa) + va % 0x1000 && t.level == 3 && t.attributes.accessed
            && var el1, el0 := t.attributes.el1, t.attributes.el0;
              && el1.read && (el1.write <==> level != 2) && (el1.execute <==> level != 0)
              && (el0.read <==> level == 0) && (el0.write <==> level == 0) && (el0.execute <==> level != 1)
  {
    hide Walk, Target;
    assert Walk(m, root, va) == Lookup(PageMapping(pages, va, pa, attrIndex, level), va);
  }

  // --- The kernel's tables ---

  /** The tables form a tree in the allocator's memory, and the hardware walk of
      every 48-bit address agrees with `pages`. */
  ghost predicate Consistent(s: Snapshot, bottom: nat, limit: nat, t: Tree, pages: PageMap) {
    Good(s, bottom, limit, t) && Represents(s.mem, t.root, pages)
  }

  lemma LinkConsistent(s: Snapshot, s1: Snapshot, bottom: nat, limit: nat, t: Tree, pages: PageMap,
                       p: Path, k: nat, x: nat, i: nat, n: nat)
    requires Consistent(s, bottom, limit, t, pages) && Sound(s1, bottom, limit)
    requires Handover(s, s1, bottom, limit, n, 0x1000)
    requires k < 3 && i == p[k] && TableAt(EntriesOf(s.mem), t.root, p, k) == Some(x)
    requires EntriesOf(s.mem)(k, x, i) == Fault
    ensures x in t.level
    ensures Consistent(Hooked(s1, x, i, n), bottom, limit, Grown(t, x, i, n), pages)
    ensures TableAt(EntriesOf(Hooked(s1, x, i, n).mem), t.root, p, k + 1) == Some(n)
  {
    var s2 := Hooked(s1, x, i, n);
    TableAtLevel(EntriesOf(s.mem), t, p, k);
    LinkStep(s, s1, bottom, limit, t, x, i, n);
    HookedEntries(s, s1, bottom, limit, t, x, i, n);
    ChangeKeepsAbove(EntriesOf(s.mem), EntriesOf(s2.mem), t, x, i, p, k);
    forall q: Path {:trigger WalkFrom(EntriesOf(s2.mem), t.root, 0, q)}
      ensures WalkFrom(EntriesOf(s2.mem), t.root, 0, q) == WalkFrom(EntriesOf(s.mem), t.root, 0, q)
    {
      LinkSilent(s, s1, bottom, limit, t, x, i, n, q);
    }
    SameWalksRepresent(s.mem, s2.mem, t.root, pages);
  }

  /** One missing table: what `talloc` returned is zeroed memory nobody holds, and
      hooking it in is safe. */
  lemma FreshTable(s: Snapshot, s1: Snapshot, bottom: nat, limit: Word, t: Tree, pages: PageMap,
                   p: Path, k: nat, x: nat, i: nat, n: nat)
    requires Consistent(s, bottom, limit, t, pages) && Allocation(s, limit, 0x1000) == (Some(n), s1)
    requires k < 3 && i == p[k] && TableAt(EntriesOf(s.mem), t.root, p, k) == Some(x)
    requires EntriesOf(s.mem)(k, x, i) == Fault
    requires !Overruns(s.next, limit, 0x1000)
    ensures x in t.level && (x + 8 * i) % 8 == 0
    ensures Empty(EntriesOf(Hooked(s1, x, i, n).mem), k + 1, n)
    ensures Sound(s1, bottom, limit) && Foreign(s1, bottom, limit, x + 8 * i)
    ensures Target(TableDescriptor(n)) == n
    ensures Consistent(Hooked(s1, x, i, n), bottom, limit, Grown(t, x, i, n), pages)
    ensures TableAt(EntriesOf(Hooked(s1, x, i, n).mem), t.root, p, k + 1) == Some(n)
    ensures ClientsKept(s, t, Hooked(s1, x, i, n), Grown(t, x, i, n))
  {
    hide Sound, InPlace, NoReserved, Shaped, Represents, ClientsKept, Handover;
    ListedBlocks(s, bottom, limit);
    AllocationSafe(s, bottom, limit, 0x1000);
    assert Handover(s, s1, bottom, limit, n, 0x1000);
    LinkConsistent(s, s1, bottom, limit, t, pages, p, k, x, i, n);
    TableAtLevel(EntriesOf(s.mem), t, p, k);
    HookedEntries(s, s1, bottom, limit, t, x, i, n);
    LinkKeepsClients(s, s1, bottom, limit, t, x, i, n);
    HookedSound(s, s1, bottom, limit, t, x, i, n);
    TableSlot(s, bottom, limit, t, x, i);
    TableDescriptorDecodes(n, k);
  }

  /** Storing a table pointer takes no page. */
  lemma HookedPages(s: Snapshot, x: nat, i: nat, n: nat, limit: nat)
    ensures PagesLeft(Hooked(s, x, i, n), limit) == PagesLeft(s, limit)
  {
  }

  lemma OverwrittenPages(s: Snapshot, x: nat, i: nat, v: Word, limit: nat)
    ensures PagesLeft(Overwritten(s, x, i, v), limit) == PagesLeft(s, limit)
  {
  }

  lemma MissingFresh(e: Entries, x: nat, k: nat, n: nat, p: Path)
    requires k <= n <= 3 && Empty(e, k, x)
    ensures Missing(e, x, k, n, p) == n - k
  {
  }

  lemma AllocationSpares(s: Snapshot, bottom: nat, limit: Word, t: Tree, pages: PageMap, size: nat)
    requires Consistent(s, bottom, limit, t, pages) && Aligned(size)
    requires forall k :: 0 <= k < |s.free| ==> s.free[k] in s.block
    requires FirstFit(s.block, s.free, size) < |s.free| || !Overruns(s.next, limit, size)
    ensures Consistent(Allocation(s, limit, size).1, bottom, limit, t, pages)
  {
    var (r, s') := Allocation(s, limit, size);
    hide Sound, Represents, Shaped, NoReserved, Handover, InPlace, SparesTables;
    AllocationSafe(s, bottom, limit, size);
    if r.Some? {
      HandoverSpares(s, s', bottom, limit, t, r.value, size);
      SparedStep(s, s', bottom, limit, t);
      SameWalksRepresent(s.mem, s'.mem, t.root, pages);
    }
  }

  /** The bump pointer moves down exactly when the allocator is wrecked. */
  lemma AllocationNext(s: Snapshot, limit: Word, request: Word)
    requires forall k :: 0 <= k < |s.free| ==> s.free[k] in s.block
    requires s.next < 0x1_0000_0000_0000_0000
    ensures var (r, s') := Allocation(s, limit, RoundUp(request));
            s'.next < s.next <==> !Fits(s, request) && Overruns(s.next, limit, RoundUp(request))
    ensures Allocation(s, limit, RoundUp(request)).0.None? <==>
      !Fits(s, request) && !Overruns(s.next, limit, RoundUp(request)) && s.next + RoundUp(request) > limit
    ensures Overruns(s.next, limit, RoundUp(request)) ==> s.next + RoundUp(request) > limit
  {
    hide RoundUp;
  }

  lemma AllocationClients(s: Snapshot, bottom: nat, limit: Word, t: Tree, held: seq<HeldRegion>, request: Word)
    requires Sound(s, bottom, limit) && InPlace(s, bottom, limit, t) && Clients(s, t, held)
    requires forall k :: 0 <= k < |s.free| ==> s.free[k] in s.block
    requires Fits(s, request) || !Overruns(s.next, limit, RoundUp(request))
    ensures var (r, s') := Allocation(s, limit, RoundUp(request));
            r.Some? ==>
              && r.value < 0x1_0000_0000_0000_0000
              && Clients(s', t, Keeping(held, r.value, request))
  {
    hide Sound, Handover, InPlace, Clients, RoundUp;
    AllocationSafe(s, bottom, limit, RoundUp(request));
    var (r, s') := Allocation(s, limit, RoundUp(request));
    if r.Some? {
      assert Handover(s, s', bottom, limit, r.value, RoundUp(request));
      HandoverClients(s, s', bottom, limit, t, held, r.value, request);
    }
  }

  lemma Translates(m: Memory, root: nat, pages: PageMap)
    requires Represents(m, root, pages)
    ensures forall va: nat {:trigger Walk(m, root, va)} :: va < 0x1_0000_0000_0000 ==>
              Walk(m, root, va) == Lookup(pages, va)
  {
  }

  lemma ConsistentTranslates(s: Snapshot, bottom: nat, limit: nat, t: Tree, pages: PageMap)
    requires Consistent(s, bottom, limit, t, pages)
    ensures forall va: nat {:trigger Walk(s.mem, t.root, va)} :: va < 0x1_0000_0000_0000 ==>
              Walk(s.mem, t.root, va) == Lookup(pages, va)
  {
    hide Good;
    Translates(s.mem, t.root, pages);
  }

  // --- Runs ---

  /** MAIR_EL1 has eight attribute fields. */
  type MairIndex = x: int | 0 <= x < 8

  /** 0 for EL0, 1 for EL1, 2 for shared pages. */
  type PageLevel = x: int | 0 <= x < 3

  /** What happens to the tables, and what others do with the allocator meanwhile:
      allocate, free the `index`th region they hold, store to a word of it. */
  datatype Operation =
    | MapPageAt(va: Word, pa: Word, attrIndex: MairIndex, level: PageLevel)
    | MapBlockAt(va: Word, pa: Word, attrIndex: MairIndex)
    | UnmapAt(va: Word)
    | TallocOf(request: Word)
    | FreeOf(index: nat)
    | StoreIn(index: nat, word: nat, v: Word)

  function Meaning(pages: PageMap, op: Operation): PageMap {
    match op
    case MapPageAt(va, pa, attrIndex, level) => PageMapping(pages, va, pa, attrIndex, level)
    case MapBlockAt(va, pa, attrIndex) => BlockMap(pages, va, pa, attrIndex)
    case UnmapAt(va) => UnmapPage(pages, PageOf(va))
    case _ => pages
  }

  function Denotation(pages: PageMap, ops: seq<Operation>): PageMap {
    if ops == [] then pages else Meaning(Denotation(pages, ops[..|ops| - 1]), ops[|ops| - 1])
  }

  lemma DenotesNothing(pages: PageMap, ops: seq<Operation>)
    requires ops == []
    ensures Denotation(pages, ops) == pages
  {
  }

  lemma DenotesNext(pages: PageMap, ops: seq<Operation>, i: nat)
    requires i < |ops|
    ensures Denotation(pages, ops[..i + 1]) == Meaning(Denotation(pages, ops[..i]), ops[i])
  {
    hide Meaning;
    assert ops[..i + 1][..i] == ops[..i];
  }

  /** A region a client holds: its address, and the size it asked for. */
  type HeldRegion = (Word, Word)

  /** What a run goes through: allocator, tables, what the tables mean, and the regions
      that other clients hold. */
  datatype Config = Config(s: Snapshot, tree: Tree, pages: PageMap, held: seq<HeldRegion>)

  ghost predicate Clients(s: Snapshot, t: Tree, held: seq<HeldRegion>) {
    && (forall i :: 0 <= i < |held| ==> Client(s, t, held[i].0) && s.block[held[i].0] == RoundUp(held[i].1))
    && (forall i, j :: 0 <= i < j < |held| ==> held[i].0 != held[j].0)
  }

  /** Pages left less the tables that a mapping of `va` at level `n` misses. */
  ghost function Spare(c: Config, limit: nat, n: nat, va: Word): int
    requires n <= 3
  {
    PagesLeft(c.s, limit) - Missing(EntriesOf(c.s.mem), c.tree.root, 0, n, PathOf(va))
  }

  ghost predicate Fits(s: Snapshot, request: Word) {
    && (forall k :: 0 <= k < |s.free| ==> s.free[k] in s.block)
    && FirstFit(s.block, s.free, RoundUp(request)) < |s.free|
  }

  /** What holds of every state of a run: a sound allocator, tables that form a tree in its
      memory and translate as `pages` says, and clients that hold what they were given. */
  ghost predicate Standing(c: Config, bottom: nat, limit: nat, root: nat) {
    Consistent(c.s, bottom, limit, c.tree, c.pages) && c.tree.root == root && Clients(c.s, c.tree, c.held)
  }

  /** The operation cannot be met: too few pages for the missing tables, or a region that
      neither the free list nor the rest of the heap has. */
  ghost predicate Blocked(c: Config, op: Operation, limit: Word) {
    match op
    case MapPageAt(va, _, _, _) => Spare(c, limit, 3, va) < 0
    case MapBlockAt(va, _, _) => Spare(c, limit, 2, va) < 0
    case TallocOf(request) => !Fits(c.s, request) && c.s.next + RoundUp(request) > limit
    case _ => false
  }

  /** ... and the allocator does not notice. */
  ghost predicate Wrecking(c: Config, op: Operation, limit: Word) {
    op.TallocOf? && !Fits(c.s, op.request) && Overruns(c.s.next, limit, RoundUp(op.request))
  }

  /** A mapping down to level `n` takes exactly the missing tables from the allocator,
      and nothing from the other clients. */
  ghost predicate MapStep(c: Config, c': Config, limit: nat, n: nat, va: Word)
    requires n <= 3
  {
    && PagesLeft(c'.s, limit) == Spare(c, limit, n, va)
    && ClientsKept(c.s, c.tree, c'.s, c'.tree) && c'.held == c.held
  }

  /** An empty region is nothing to hold. */
  function Keeping(held: seq<HeldRegion>, p: Word, request: Word): seq<HeldRegion> {
    if RoundUp(request) == 0 then held else held + [(p, request)]
  }

  ghost predicate TallocStep(c: Config, c': Config, limit: Word, request: Word) {
    && (forall k :: 0 <= k < |c.s.free| ==> c.s.free[k] in c.s.block)
    && var (r, s') := Allocation(c.s, limit, RoundUp(request));
      && r.Some? && r.value < 0x1_0000_0000_0000_0000
      && c' == c.(s := s', held := Keeping(c.held, r.value, request))
  }

  /** One operation that can be met. */
  ghost predicate Step(c: Config, op: Operation, c': Config, limit: Word) {
    && !Blocked(c, op, limit)
    && c'.pages == Meaning(c.pages, op)
    && match op
       case MapPageAt(va, _, _, _) => MapStep(c, c', limit, 3, va)
       case MapBlockAt(va, _, _) => MapStep(c, c', limit, 2, va)
       case UnmapAt(_) =>
         ClientsKept(c.s, c.tree, c'.s, c'.tree) && c' == c.(s := c.s.(mem := c'.s.mem), pages := c'.pages)
       case TallocOf(request) => TallocStep(c, c', limit, request)
       case FreeOf(i) =>
         c' == if i < |c.held| then
                 c.(s := Push(c.s, c.held[i].0, RoundUp(c.held[i].1)), held := c.held[..i] + c.held[i + 1..])
               else c
       case StoreIn(i, k, v) =>
         c' == if i < |c.held| && 8 * k < RoundUp(c.held[i].1) then
                 c.(s := c.s.(mem := c.s.mem[c.held[i].0 + 8 * k := v]))
               else c
  }

  lemma KeptClients(s: Snapshot, t: Tree, s': Snapshot, t': Tree, held: seq<HeldRegion>)
    requires Clients(s, t, held) && ClientsKept(s, t, s', t')
    ensures Clients(s', t', held)
  {
    forall i | 0 <= i < |held|
      ensures Client(s', t', held[i].0) && s'.block[held[i].0] == RoundUp(held[i].1)
    {
      assert ClientKept(s, t, s', t', held[i].0);
    }
  }

  /** A new region is nobody else's and no table. */
  lemma HandoverClients(s: Snapshot, s': Snapshot, bottom: nat, limit: nat, t: Tree, held: seq<HeldRegion>, p: nat, request: Word)
    requires Sound(s, bottom, limit) && InPlace(s, bottom, limit, t) && Clients(s, t, held)
    requires Handover(s, s', bottom, limit, p, RoundUp(request))
    ensures p < 0x1_0000_0000_0000_0000
    ensures Clients(s', t, Keeping(held, p, request))
  {
    if RoundUp(request) != 0 {
      assert !Held(s, p);
      assert Held(s', p);
    }
  }

  lemma PushClients(s: Snapshot, t: Tree, held: seq<HeldRegion>, i: nat)
    requires Clients(s, t, held) && i < |held|
    ensures Clients(Push(s, held[i].0, RoundUp(held[i].1)), t, held[..i] + held[i + 1..])
  {
    var rest, s' := held[..i] + held[i + 1..], Push(s, held[i].0, RoundUp(held[i].1));
    forall k | 0 <= k < |rest|
      ensures Client(s', t, rest[k].0) && s'.block[rest[k].0] == RoundUp(rest[k].1)
    {
      assert rest[k] == held[if k < i then k else k + 1];
    }
  }

  /** Every page mapped by a block lies in a whole block: all 512 pages of its
      region, onto consecutive frames, with the same attributes. */
  ghost predicate BlocksWhole(pages: PageMap) {
    forall p, q {:trigger p in pages, q in Region(p)} :: p in pages && pages[p].level == 2 && q in Region(p) ==>
      && q in pages && pages[q].level == 2 && pages[q].attributes == pages[p].attributes
      && pages[q].frame - q % 512 * 0x1000 == pages[p].frame - p % 512 * 0x1000
  }

  lemma {:induction false} RunsKeepBlocksWhole(pages: PageMap, ops: seq<Operation>)
    requires BlocksWhole(pages)
    ensures BlocksWhole(Denotation(pages, ops))
  {
    if ops != [] {
      RunsKeepBlocksWhole(pages, ops[..|ops| - 1]);
      StepKeepsBlocksWhole(Denotation(pages, ops[..|ops| - 1]), ops[|ops| - 1]);
    }
  }

  lemma StepKeepsBlocksWhole(pages: PageMap, op: Operation)
    requires BlocksWhole(pages)
    ensures BlocksWhole(Meaning(pages, op))
  {
    match op
    case MapPageAt(va, pa, attrIndex, level) =>
      PageKeepsBlocksWhole(pages, PageOf(va), Mapping(Target(pa), PageAttributes(attrIndex, level), 3));
    case MapBlockAt(va, pa, attrIndex) =>
      BlockKeepsBlocksWhole(pages, PageOf(va), Target(pa) / 0x20_0000 * 0x20_0000, BlockAttributes(attrIndex));
    case UnmapAt(va) =>
      UnmapKeepsBlocksWhole(pages, PageOf(va));
    case _ =>
  }

  lemma PageKeepsBlocksWhole(pages: PageMap, page: nat, mapping: Mapping)
    requires BlocksWhole(pages) && mapping.level == 3
    ensures BlocksWhole(MapPage(pages, page, mapping))
  {
  }

  lemma BlockKeepsBlocksWhole(pages: PageMap, page: nat, base: nat, attributes: Attributes)
    requires BlocksWhole(pages)
    ensures BlocksWhole(MapBlock(pages, page, base, attributes))
  {
    var pages' := MapBlock(pages, page, base, attributes);
    forall p, q {:trigger p in pages', q in Region(p)} | p in pages' && pages'[p].level == 2 && q in Region(p)
      ensures q in pages' && pages'[q].level == 2 && pages'[q].attributes == pages'[p].attributes
      ensures pages'[q].frame - q % 512 * 0x1000 == pages'[p].frame - p % 512 * 0x1000
    {
      RegionMembers(q, p);
      RegionMembers(p, page);
      RegionMembers(q, page);
      hide Region;
    }
  }

  lemma UnmapKeepsBlocksWhole(pages: PageMap, page: nat)
    requires BlocksWhole(pages)
    ensures BlocksWhole(UnmapPage(pages, page))
  {
    var pages' := UnmapPage(pages, page);
    forall p, q {:trigger p in pages', q in Region(p)} | p in pages' && pages'[p].level == 2 && q in Region(p)
      ensures q in pages' && pages'[q] == pages[q]
    {
      RegionMembers(q, p);
      RegionMembers(p, page);
      RegionMembers(q, page);
      RegionMembers(page, p);
      hide Region;
    }
  }

  /** So `mmu_unmap` under a block takes away exactly the block. */
  lemma UnmapWholeBlock(pages: PageMap, va: nat, page: nat)
    requires BlocksWhole(pages) && PageOf(va) in pages && pages[PageOf(va)].level == 2
    ensures page in UnmapPage(pages, PageOf(va)) <==> page in pages && page / 512 != PageOf(va) / 512
    ensures page / 512 == PageOf(va) / 512 ==> page in pages
  {
    RegionMembers(page, PageOf(va));
  }

  /** A 2 MB mapping takes `va` to `pa` plus the offset in the region exactly when
      `pa` starts a 2 MB frame. */
  lemma BlockMapsTo(pages: PageMap, va: nat, pa: Word, attrIndex: nat)
    requires va < 0x1_0000_0000_0000 && pa < 0x1_0000_0000_0000
    ensures var r := Lookup(BlockMap(pages, va, pa, attrIndex), va);
            r.Some? && (r.value.pa == pa + va % 0x20_0000 <==> pa % 0x20_0000 == 0)
  {
    hide Target;
    RegionMembers(PageOf(va), PageOf(va));
    PageOffset(va);
    BlockBase(pa);
  }

  lemma BlockBase(pa: Word)
    requires pa < 0x1_0000_0000_0000
    ensures Target(pa) / 0x20_0000 * 0x20_0000 == pa - pa % 0x20_0000
  {
    var page := pa / 0x1000;
    DivModIs(page, 0x10_0000_0000, 0, page);
    DivModIs(page * 0x1000, 0x20_0000, page / 512, page % 512 * 0x1000);
    PageOffset(pa);
  }

  /** An entry on the way that is valid and no leaf is the next table. */
  lemma PresentTable(m: Memory, t: Tree, p: Path, k: nat, x: nat, i: nat)
    requires Shaped(EntriesOf(m), t) && NoReserved(m, t)
    requires k < 3 && i == p[k] && TableAt(EntriesOf(m), t.root, p, k) == Some(x)
    requires !EntriesOf(m)(k, x, i).Leaf?
    ensures Desc(m, x, i) % 2 == 0 ==> EntriesOf(m)(k, x, i) == Fault
    ensures Desc(m, x, i) % 2 == 1 ==> EntriesOf(m)(k, x, i) == Next(Target(Desc(m, x, i)))
    ensures Desc(m, x, i) % 2 == 1 ==> TableAt(EntriesOf(m), t.root, p, k + 1) == Some(Target(Desc(m, x, i)))
  {
    hide Shaped, Target;
    TableAtLevel(EntriesOf(m), t, p, k);
    var d := Desc(m, x, i);
    LowTwoBits(d);
    assert EntriesOf(m)(k, x, i) == Decode(d, k);
    assert Proper(d, k);
  }

  /** Overwriting the level `k` slot the walk for `va` reads, as one step. */
  lemma SlotStep(s: Snapshot, bottom: nat, limit: nat, t: Tree, x: nat, va: nat, k: nat, v: Word)
    requires Good(s, bottom, limit, t) && 2 <= k <= 3
    requires TableAt(EntriesOf(s.mem), t.root, PathOf(va), k) == Some(x)
    requires !Decode(v, k).Next? && Proper(v, k)
    ensures var i := PathOf(va)[k];
            var s', t' := Overwritten(s, x, i, v), Pruned(t, EntriesOf(s.mem)(k, x, i));
            && Foreign(s, bottom, limit, x + 8 * i) && (x + 8 * i) % 8 == 0
            && Good(s', bottom, limit, t') && ClientsKept(s, t, s', t')
            && Redirected(s.mem, s'.mem, t.root, va, k + 1, Decode(v, k))
  {
    hide Sound, InPlace, NoReserved, Shaped, ClientsKept;
    var i := PathOf(va)[k];
    var s' := Overwritten(s, x, i, v);
    TableAtLevel(EntriesOf(s.mem), t, PathOf(va), k);
    TableSlot(s, bottom, limit, t, x, i);
    OverwriteStep(s, bottom, limit, t, x, i, v);
    OverwriteKeepsClients(s, bottom, limit, t, x, i, v, EntriesOf(s.mem)(k, x, i));
    forall q: Path {:trigger WalkFrom(EntriesOf(s'.mem), t.root, 0, q)}
      ensures WalkFrom(EntriesOf(s'.mem), t.root, 0, q)
           == if q[..k + 1] == PathOf(va)[..k + 1] then Decode(v, k) else WalkFrom(EntriesOf(s.mem), t.root, 0, q)
    {
      OverwriteTranslations(s, bottom, limit, t, x, va, v, q);
    }
  }

  lemma ProperLeaf(d: Word, k: nat)
    requires 2 <= k <= 3 && Decode(d, k).Leaf?
    ensures Proper(d, k) && !Decode(d, k).Next?
  {
  }

  lemma StoreBlock(s: Snapshot, bottom: nat, limit: nat, t: Tree, pages: PageMap, x: nat, va: nat, pa: Word, attrIndex: nat)
    requires Consistent(s, bottom, limit, t, pages) && attrIndex < 8
    requires TableAt(EntriesOf(s.mem), t.root, PathOf(va), 2) == Some(x)
    ensures var i, v := PathOf(va)[2], BlockDescriptor(pa, attrIndex);
            var s', t' := Overwritten(s, x, i, v), Pruned(t, EntriesOf(s.mem)(2, x, i));
            && Foreign(s, bottom, limit, x + 8 * i) && (x + 8 * i) % 8 == 0
            && ClientsKept(s, t, s', t')
            && Consistent(s', bottom, limit, t', BlockMap(pages, va, pa, attrIndex))
  {
    hide Sound, InPlace, NoReserved, Shaped, ClientsKept, Represents, Target, PathOf, TableAt, Foreign, Region, BlockDescriptor, BlockAttributes;
    BlockDescriptorDecodes(pa, attrIndex, 0);
    ProperLeaf(BlockDescriptor(pa, attrIndex), 2);
    SlotStep(s, bottom, limit, t, x, va, 2, BlockDescriptor(pa, attrIndex));
    BlockMapped(s.mem, Overwritten(s, x, PathOf(va)[2], BlockDescriptor(pa, attrIndex)).mem, t.root, pages, va, pa, attrIndex);
  }

  lemma StorePage(s: Snapshot, bottom: nat, limit: nat, t: Tree, pages: PageMap, x: nat, va: nat, pa: Word, attrIndex: nat, level: nat)
    requires Consistent(s, bottom, limit, t, pages) && attrIndex < 8 && level <= 2
    requires TableAt(EntriesOf(s.mem), t.root, PathOf(va), 3) == Some(x)
    requires EntriesOf(s.mem)(3, x, PathOf(va)[3]) == Fault
    ensures var i, v := PathOf(va)[3], PageDescriptor(pa, attrIndex, level);
            var s' := Overwritten(s, x, i, v);
            && Foreign(s, bottom, limit, x + 8 * i) && (x + 8 * i) % 8 == 0
            && ClientsKept(s, t, s', t)
            && Consistent(s', bottom, limit, t, PageMapping(pages, va, pa, attrIndex, level))
  {
    hide Sound, InPlace, NoReserved, Shaped, ClientsKept, Represents, Target, PathOf, TableAt, Foreign, Region, PageDescriptor, PageAttributes, Decode;
    WalkThrough(EntriesOf(s.mem), t.root, PathOf(va), 3);
    WalkedPage(s.mem, t.root, pages, va);
    PageDescriptorDecodes(pa, attrIndex, level, 0);
    ProperLeaf(PageDescriptor(pa, attrIndex, level), 3);
    SlotStep(s, bottom, limit, t, x, va, 3, PageDescriptor(pa, attrIndex, level));
    PageMapped(s.mem, Overwritten(s, x, PathOf(va)[3], PageDescriptor(pa, attrIndex, level)).mem, t.root, pages, va, pa, attrIndex, level);
  }

  lemma ClearSlot(s: Snapshot, bottom: nat, limit: nat, t: Tree, pages: PageMap, x: nat, va: nat, k: nat)
    requires Consistent(s, bottom, limit, t, pages) && 2 <= k <= 3
    requires TableAt(EntriesOf(s.mem), t.root, PathOf(va), k) == Some(x)
    requires k == 2 ==> EntriesOf(s.mem)(k, x, PathOf(va)[k]).Leaf?
    ensures var i := PathOf(va)[k];
            var s' := Overwritten(s, x, i, 0);
            && Foreign(s, bottom, limit, x + 8 * i) && (x + 8 * i) % 8 == 0
            && ClientsKept(s, t, s', t)
            && Consistent(s', bottom, limit, t, UnmapPage(pages, PageOf(va)))
  {
    hide Sound, InPlace, NoReserved, Shaped, ClientsKept, Represents, Target, PathOf, TableAt, Foreign, Region, UnmapPage;
    WalkThrough(EntriesOf(s.mem), t.root, PathOf(va), k);
    WalkedPage(s.mem, t.root, pages, va);
    SlotStep(s, bottom, limit, t, x, va, k, 0);
    if k == 2 {
      BlockUnmapped(s.mem, Overwritten(s, x, PathOf(va)[k], 0).mem, t.root, pages, va);
    } else {
      PageUnmapped(s.mem, Overwritten(s, x, PathOf(va)[k], 0).mem, t.root, pages, va);
    }
  }

  lemma Preliminaries(s: Snapshot, bottom: nat, limit: nat, t: Tree, p: Path)
    requires Good(s, bottom, limit, t)
    ensures limit <= 0x1_0000_0000_0000
    ensures TableAt(EntriesOf(s.mem), t.root, p, 0) == Some(t.root)
    ensures ClientsKept(s, t, s, t)
  {
  }

  /** The kernel never makes blocks above level 2. */
  lemma NoLeafAbove(s: Snapshot, bottom: nat, limit: nat, t: Tree, p: Path, k: nat, x: nat, i: nat)
    requires Good(s, bottom, limit, t)
    requires k < 2 && i == p[k] && TableAt(EntriesOf(s.mem), t.root, p, k) == Some(x)
    ensures !EntriesOf(s.mem)(k, x, i).Leaf?
  {
    hide Sound, InPlace, Shaped, TableAt, Target;
    TableAtLevel(EntriesOf(s.mem), t, p, k);
    LowTwoBits(Desc(s.mem, x, i));
    assert Proper(Desc(s.mem, x, i), k);
  }

  /** The entry at which the walk for `va` ends tells whether its page is mapped. */
  lemma EntrySays(s: Snapshot, bottom: nat, limit: nat, t: Tree, pages: PageMap, va: nat, k: nat, x: nat, i: nat)
    requires Consistent(s, bottom, limit, t, pages) && k <= 3 && i == PathOf(va)[k]
    requires TableAt(EntriesOf(s.mem), t.root, PathOf(va), k) == Some(x)
    ensures var d := Desc(s.mem, x, i);
            && (d % 2 == 0 ==> PageOf(va) !in pages && EntriesOf(s.mem)(k, x, i) == Fault)
            && (d % 2 == 1 && 2 <= k ==> (EntriesOf(s.mem)(k, x, i).Leaf? <==> d % 4 == 1 || k == 3))
            && (d % 2 == 1 && (d % 4 == 1 || k == 3) && 2 <= k ==> PageOf(va) in pages && pages[PageOf(va)].level == k)
  {
    hide Sound, InPlace, Shaped, TableAt, Represents, PathOf, PageOf, Target;
    TableAtLevel(EntriesOf(s.mem), t, PathOf(va), k);
    LowTwoBits(Desc(s.mem, x, i));
    assert Proper(Desc(s.mem, x, i), k);
    WalkThrough(EntriesOf(s.mem), t.root, PathOf(va), k);
    WalkedPage(s.mem, t.root, pages, va);
  }

  class TranslationTables {
    const heap: TempHeap
    const root: Word            // page_table_l0
    ghost var tree: Tree        // the tables reachable from the root
    ghost var pages: PageMap    // what the tables mean

    ghost predicate Valid()
      reads this, heap
    {
      && heap.Valid() && tree.root == root
      && Consistent(heap.Snap(), heap.heapBottom, heap.heapLimit, tree, pages)
    }

    /** The statically allocated, zeroed level 0 table. */
    constructor (h: TempHeap, l0: Word)
      requires h.Valid() && h.heapLimit <= 0x1_0000_0000_0000
      requires Aligned(l0) && l0 < 0x1_0000_0000_0000 && (l0 + 0x1000 <= h.heapBottom || h.heapLimit <= l0)
      requires forall i {:trigger Desc(h.mem, l0, i)} :: 0 <= i < 512 ==> Desc(h.mem, l0, i) == 0
      ensures Valid() && heap == h && pages == map[]
    {
      heap, root := h, l0;
      tree, pages := Tree(l0, map[l0 := 0], map[]), map[];
    }

    /** Pages the allocator can still hand out, less the tables missing on the way down to
        level `n`: negative exactly if a call is going to panic. */
    ghost function Surplus(x: nat, k: nat, n: nat, p: Path): int
      requires k <= n <= 3
      reads this, heap
    {
      PagesLeft(heap.Snap(), heap.heapLimit) - Missing(EntriesOf(heap.mem), x, k, n, p)
    }

    /** `table[i] = ((uint64_t)talloc(PAGE_SIZE) & 0xFFFFFFFFF000) | PD_TABLE`.  None is the
        allocator's panic. */
    method Hook(x: nat, i: nat, ghost k: nat, ghost p: Path) returns (r: Option<nat>)
      requires Valid() && k < 3 && i == p[k]
      requires TableAt(EntriesOf(heap.mem), root, p, k) == Some(x)
      requires EntriesOf(heap.mem)(k, x, i) == Fault
      modifies this, heap
      ensures Valid() && pages == old(pages)
      ensures r.None? <==> old(PagesLeft(heap.Snap(), heap.heapLimit)) == 0
      ensures r.None? ==> heap.Snap() == old(heap.Snap()) && tree == old(tree)
      ensures r.Some? ==> PagesLeft(heap.Snap(), heap.heapLimit) == old(PagesLeft(heap.Snap(), heap.heapLimit)) - 1
      ensures r.Some? ==> TableAt(EntriesOf(heap.mem), root, p, k + 1) == r && Empty(EntriesOf(heap.mem), k + 1, r.value)
      ensures r.Some? ==> Target(Desc(heap.mem, x, i)) == r.value
      ensures ClientsKept(old(heap.Snap()), old(tree), heap.Snap(), tree)
    {
      hide Sound, Represents, ClientsKept, Handover, Shaped, NoReserved, InPlace, Foreign, Decode, TableAt, PagesLeft, Empty,
           Allocation, Overruns, FirstFit, Target, TableDescriptor;
      ghost var s, t := heap.Snap(), tree;
      Preliminaries(s, heap.heapBottom, heap.heapLimit, t, p);
      ListedBlocks(s, heap.heapBottom, heap.heapLimit);
      PageAllocation(s, heap.heapBottom, heap.heapLimit);
      var n := heap.Talloc(0x1000);
      assert RoundUp(0x1000) == 0x1000;
      if n.None? {
        return None;
      }
      ghost var s1 := heap.Snap();
      FreshTable(s, s1, heap.heapBottom, heap.heapLimit, t, pages, p, k, x, i, n.value);
      heap.Store(x + 8 * i, TableDescriptor(n.value));
      tree := Grown(t, x, i, n.value);
      assert heap.Snap() == Hooked(s1, x, i, n.value);
      HookedPages(s1, x, i, n.value, heap.heapLimit);
      return n;
    }

    /** One `if (!(table[i] & 1)) ...` followed by reading the pointer back. */
    method Below(x: nat, i: nat, ghost k: nat, ghost n: nat, ghost p: Path) returns (r: Option<nat>)
      requires Valid() && k < n <= 3 && i == p[k]
      requires TableAt(EntriesOf(heap.mem), root, p, k) == Some(x)
      requires !EntriesOf(heap.mem)(k, x, i).Leaf?
      modifies this, heap
      ensures Valid() && pages == old(pages)
      ensures r.None? ==> PagesLeft(heap.Snap(), heap.heapLimit) == 0 && old(Surplus(x, k, n, p)) < 0
      ensures r.None? ==> heap.Snap() == old(heap.Snap()) && tree == old(tree)
      ensures r.Some? ==> TableAt(EntriesOf(heap.mem), root, p, k + 1) == r
      ensures r.Some? ==> Surplus(r.value, k + 1, n, p) == old(Surplus(x, k, n, p))
      ensures ClientsKept(old(heap.Snap()), old(tree), heap.Snap(), tree)
    {
      hide Sound, Represents, ClientsKept, NoReserved, InPlace, Foreign, Decode, TableAt, PagesLeft;
      Preliminaries(heap.Snap(), heap.heapBottom, heap.heapLimit, tree, p);
      PresentTable(heap.mem, tree, p, k, x, i);
      if Desc(heap.mem, x, i) % 2 == 0 {
        var next := Hook(x, i, k, p);
        if next.None? {
          return None;
        }
        MissingFresh(EntriesOf(heap.mem), next.value, k + 1, n, p);
      }
      return Some(Target(Desc(heap.mem, x, i)));
    }

    /** The first two levels, the same in both. */
    method Level2(va: Word, ghost n: nat) returns (l2: Option<nat>)
      requires Valid() && 2 <= n <= 3
      modifies this, heap
      ensures Valid() && pages == old(pages)
      ensures l2.None? ==> PagesLeft(heap.Snap(), heap.heapLimit) == 0 && old(Surplus(root, 0, n, PathOf(va))) < 0
      ensures l2.Some? ==> TableAt(EntriesOf(heap.mem), root, PathOf(va), 2) == l2
      ensures l2.Some? ==> Surplus(l2.value, 2, n, PathOf(va)) == old(Surplus(root, 0, n, PathOf(va)))
      ensures ClientsKept(old(heap.Snap()), old(tree), heap.Snap(), tree)
    {
      hide Sound, Good, Represents, ClientsKept, TableAt, Foreign, Decode, PagesLeft, Missing;
      var p := PathOf(va);
      Preliminaries(heap.Snap(), heap.heapBottom, heap.heapLimit, tree, p);
      NoLeafAbove(heap.Snap(), heap.heapBottom, heap.heapLimit, tree, p, 0, root, p[0]);
      var l1 := Below(root, p[0], 0, n, p);
      if l1.None? { return None; }
      ghost var s1, t1 := heap.Snap(), tree;
      NoLeafAbove(s1, heap.heapBottom, heap.heapLimit, tree, p, 1, l1.value, p[1]);
      l2 := Below(l1.value, p[1], 1, n, p);
      ClientsKeptTwice(old(heap.Snap()), old(tree), s1, t1, heap.Snap(), tree);
    }

    /** `mmu_map_2mb`.  False is the allocator's panic, which comes exactly if more tables
        are missing than pages are left. */
    method MapBlock2Mb(va: Word, pa: Word, attrIndex: nat) returns (ok: bool)
      requires Valid() && attrIndex < 8
      modifies this, heap
      ensures Valid()
      ensures pages == if ok then BlockMap(old(pages), va, pa, attrIndex) else old(pages)
      ensures ok <==> old(Surplus(root, 0, 2, PathOf(va))) >= 0
      ensures PagesLeft(heap.Snap(), heap.heapLimit) == if ok then old(Surplus(root, 0, 2, PathOf(va))) else 0
      ensures ClientsKept(old(heap.Snap()), old(tree), heap.Snap(), tree)
    {
      hide Sound, Good, Represents, ClientsKept, TableAt, Foreign, BlockMap, BlockDescriptor, Decode, PagesLeft;
      var p := PathOf(va);
      var l2 := Level2(va, 2);
      if l2.None? { return false; }
      ghost var s2, t2 := heap.Snap(), tree;
      StoreBlock(s2, heap.heapBottom, heap.heapLimit, t2, pages, l2.value, va, pa, attrIndex);
      heap.Store(l2.value + 8 * p[2], BlockDescriptor(pa, attrIndex));
      tree := Pruned(t2, EntriesOf(s2.mem)(2, l2.value, p[2]));
      pages := BlockMap(pages, va, pa, attrIndex);
      assert heap.Snap() == Overwritten(s2, l2.value, p[2], BlockDescriptor(pa, attrIndex));
      OverwrittenPages(s2, l2.value, p[2], BlockDescriptor(pa, attrIndex), heap.heapLimit);
      ClientsKeptTwice(old(heap.Snap()), old(tree), s2, t2, heap.Snap(), tree);
      return true;
    }

    /** `mmu_map_4kb`.  False is the allocator's panic, which comes exactly if more tables
        are missing than pages are left. */
    method MapPage4Kb(va: Word, pa: Word, attrIndex: nat, level: nat) returns (ok: bool)
      requires Valid() && attrIndex < 8 && level <= 2
      modifies this, heap
      ensures Valid()
      ensures pages == if ok then PageMapping(old(pages), va, pa, attrIndex, level) else old(pages)
      ensures ok <==> old(Surplus(root, 0, 3, PathOf(va))) >= 0
      ensures PagesLeft(heap.Snap(), heap.heapLimit) == if ok then old(Surplus(root, 0, 3, PathOf(va))) else 0
      ensures ClientsKept(old(heap.Snap()), old(tree), heap.Snap(), tree)
    {
      hide Sound, Good, Represents, ClientsKept, TableAt, Foreign, PageDescriptor, Decode, PathOf, PagesLeft;
      var p := PathOf(va);
      var l2 := Level2(va, 3);
      if l2.None? { return false; }
      ghost var s2, t2 := heap.Snap(), tree;
      EntrySays(s2, heap.heapBottom, heap.heapLimit, t2, pages, va, 2, l2.value, p[2]);
      if Desc(heap.mem, l2.value, p[2]) % 4 == 1 {
        return true;     // already mapped at higher granularity
      }
      var l3 := Below(l2.value, p[2], 2, 3, p);
      ClientsKeptTwice(old(heap.Snap()), old(tree), s2, t2, heap.Snap(), tree);
      if l3.None? { return false; }
      ghost var s3, t3 := heap.Snap(), tree;
      EntrySays(s3, heap.heapBottom, heap.heapLimit, t3, pages, va, 3, l3.value, p[3]);
      if Desc(heap.mem, l3.value, p[3]) % 2 == 1 {
        return true;     // already mapped
      }
      StorePage(s3, heap.heapBottom, heap.heapLimit, t3, pages, l3.value, va, pa, attrIndex, level);
      heap.Store(l3.value + 8 * p[3], PageDescriptor(pa, attrIndex, level));
      pages := PageMapping(pages, va, pa, attrIndex, level);
      assert heap.Snap() == Overwritten(s3, l3.value, p[3], PageDescriptor(pa, attrIndex, level));
      OverwrittenPages(s3, l3.value, p[3], PageDescriptor(pa, attrIndex, level), heap.heapLimit);
      ClientsKeptTwice(old(heap.Snap()), old(tree), s3, t3, heap.Snap(), tree);
      return true;
    }

    /** `mmu_unmap`; its second parameter is not used. */
    method Unmap(va: Word)
      requires Valid()
      modifies this, heap
      ensures Valid() && tree == old(tree)
      ensures heap.Snap() == old(heap.Snap()).(mem := heap.mem)
      ensures pages == UnmapPage(old(pages), PageOf(va))
      ensures ClientsKept(old(heap.Snap()), tree, heap.Snap(), tree)
    {
      hide Sound, Represents, ClientsKept, TableAt, Foreign, Decode, PathOf, Shaped, NoReserved, InPlace;
      var p := PathOf(va);
      ghost var s := heap.Snap();
      Preliminaries(s, heap.heapBottom, heap.heapLimit, tree, p);
      EntrySays(s, heap.heapBottom, heap.heapLimit, tree, pages, va, 0, root, p[0]);
      if Desc(heap.mem, root, p[0]) % 2 == 0 { return; }
      NoLeafAbove(s, heap.heapBottom, heap.heapLimit, tree, p, 0, root, p[0]);
      PresentTable(heap.mem, tree, p, 0, root, p[0]);
      var l1 := Target(Desc(heap.mem, root, p[0]));
      EntrySays(s, heap.heapBottom, heap.heapLimit, tree, pages, va, 1, l1, p[1]);
      if Desc(heap.mem, l1, p[1]) % 2 == 0 { return; }
      NoLeafAbove(s, heap.heapBottom, heap.heapLimit, tree, p, 1, l1, p[1]);
      PresentTable(heap.mem, tree, p, 1, l1, p[1]);
      var l2 := Target(Desc(heap.mem, l1, p[1]));
      EntrySays(s, heap.heapBottom, heap.heapLimit, tree, pages, va, 2, l2, p[2]);
      if Desc(heap.mem, l2, p[2]) % 2 == 0 {
        return;
      } else if Desc(heap.mem, l2, p[2]) % 4 == 1 {
        ClearSlot(s, heap.heapBottom, heap.heapLimit, tree, pages, l2, va, 2);
        heap.Store(l2 + 8 * p[2], 0);
        assert heap.Snap() == Overwritten(s, l2, p[2], 0);
      } else {
        PresentTable(heap.mem, tree, p, 2, l2, p[2]);
        var l3 := Target(Desc(heap.mem, l2, p[2]));
        ClearSlot(s, heap.heapBottom, heap.heapLimit, tree, pages, l3, va, 3);
        heap.Store(l3 + 8 * p[3], 0);
        assert heap.Snap() == Overwritten(s, l3, p[3], 0);
      }
      pages := UnmapPage(pages, PageOf(va));
    }

    /** Any other use of `talloc` leaves every translation alone, unless it wrecks the
        allocator itself; ... */
    method ClientTalloc(request: Word, ghost held: seq<HeldRegion>) returns (r: Option<nat>)
      requires Valid() && Clients(heap.Snap(), tree, held)
      modifies this, heap
      ensures tree == old(tree) && pages == old(pages)
      ensures Valid() <==> !Wrecking(old(Now(held)), TallocOf(request), heap.heapLimit)
      ensures forall k :: 0 <= k < |old(heap.free)| ==> old(heap.free)[k] in old(heap.block)
      ensures (r, heap.Snap()) == Allocation(old(heap.Snap()), heap.heapLimit, RoundUp(request))
      ensures Valid() && r.Some? ==>
        r.value < 0x1_0000_0000_0000_0000 && Clients(heap.Snap(), tree, Keeping(held, r.value, request))
      ensures r.None? ==> heap.Snap() == old(heap.Snap())
    {
      hide Sound, Represents, Shaped, NoReserved, Handover, InPlace, SparesTables, Clients;
      ghost var s := heap.Snap();
      r := heap.Talloc(request);
      if heap.Valid() {
        AllocationSpares(s, heap.heapBottom, heap.heapLimit, tree, pages, RoundUp(request));
        AllocationClients(s, heap.heapBottom, heap.heapLimit, tree, held, request);
      }
    }

    /** ... so does `temp_free` of anything that is not a table in use, ... */
    method ClientFree(p: Word, request: Word)
      requires Valid() && Client(heap.Snap(), tree, p) && heap.block[p] == RoundUp(request)
      modifies this, heap
      ensures Valid() && tree == old(tree) && pages == old(pages)
      ensures heap.Snap() == Push(old(heap.Snap()), p, RoundUp(request))
    {
      hide Sound, Represents, Shaped, NoReserved, InPlace, SparesTables;
      ghost var s := heap.Snap();
      PushSpares(s, heap.heapBottom, heap.heapLimit, tree, p);
      heap.TempFree(p, request);
      SparedStep(s, heap.Snap(), heap.heapBottom, heap.heapLimit, tree);
      SameWalksRepresent(s.mem, heap.mem, root, pages);
    }

    /** ... and so does whatever a client stores in its own region. */
    method ClientStore(p: Word, k: nat, v: Word)
      requires Valid() && Client(heap.Snap(), tree, p) && 8 * k < heap.block[p]
      modifies this, heap
      ensures Valid() && tree == old(tree) && pages == old(pages)
      ensures heap.Snap() == old(heap.Snap()).(mem := old(heap.mem)[p + 8 * k := v])
    {
      hide Sound, Represents, Shaped, NoReserved, InPlace, SparesTables, Foreign;
      ghost var s := heap.Snap();
      StoreSpares(s, heap.heapBottom, heap.heapLimit, tree, p, k, v);
      heap.Store(p + 8 * k, v);
      SparedStep(s, heap.Snap(), heap.heapBottom, heap.heapLimit, tree);
      SameWalksRepresent(s.mem, heap.mem, root, pages);
    }

    ghost function Now(held: seq<HeldRegion>): Config
      reads this, heap
    {
      Config(heap.Snap(), tree, pages, held)
    }

    /** Over any run of mappings, unmappings and other uses of the allocator, the hardware
        translates every 48-bit address as the page map that the run denotes.  `trace` is
        the run, step by step; it ends early only at an operation that cannot be met, and
        the state is sound at the end unless that one wrecked the allocator. */
    method Run(ops: seq<Operation>, clients: seq<HeldRegion>) returns (done: nat, held: seq<HeldRegion>, ghost trace: seq<Config>)
      requires Valid() && Clients(heap.Snap(), tree, clients)
      modifies this, heap
      ensures done <= |ops| && |trace| == done + 1 && trace[0] == old(Now(clients))
      ensures forall i {:trigger ops[i]} :: 0 <= i < done ==> Step(trace[i], ops[i], trace[i + 1], heap.heapLimit)
      ensures forall i {:trigger trace[i]} :: 0 <= i <= done ==>
                Standing(trace[i], heap.heapBottom, heap.heapLimit, root) && trace[i].pages == Denotation(old(pages), ops[..i])
      ensures done == |ops| ==> trace[done] == Now(held)
      ensures done < |ops| ==> Blocked(trace[done], ops[done], heap.heapLimit)
      ensures Valid() <==> done == |ops| || !Wrecking(trace[done], ops[done], heap.heapLimit)
      ensures Valid() ==> Clients(heap.Snap(), tree, held)
      ensures pages == Denotation(old(pages), ops[..done])
      ensures Valid() ==> forall va: nat {:trigger Walk(heap.mem, root, va)} :: va < 0x1_0000_0000_0000 ==>
                Walk(heap.mem, root, va) == Lookup(Denotation(old(pages), ops[..done]), va)
    {
      hide Consistent, Represents, Meaning, Clients, Step, Blocked, Wrecking, Denotation;
      DenotesNothing(pages, ops[..0]);
      done, held, trace := 0, clients, [Now(clients)];
      while done < |ops|
        invariant Valid() && Clients(heap.Snap(), tree, held)
        invariant done <= |ops| && |trace| == done + 1 && trace[0] == old(Now(clients)) && trace[done] == Now(held)
        invariant forall i {:trigger ops[i]} :: 0 <= i < done ==> Step(trace[i], ops[i], trace[i + 1], heap.heapLimit)
        invariant forall i {:trigger trace[i]} :: 0 <= i <= done ==>
          Standing(trace[i], heap.heapBottom, heap.heapLimit, root) && trace[i].pages == Denotation(old(pages), ops[..i])
      {
        DenotesNext(old(pages), ops, done);
        var ok;
        ok, held := Perform(ops[done], held);
        if !ok { break; }
        trace := trace + [Now(held)];
        done := done + 1;
      }
      if Valid() {
        ConsistentTranslates(heap.Snap(), heap.heapBottom, heap.heapLimit, tree, pages);
      }
    }

    method Perform(op: Operation, held: seq<HeldRegion>) returns (ok: bool, held': seq<HeldRegion>)
      requires Valid() && Clients(heap.Snap(), tree, held)
      modifies this, heap
      ensures Valid() <==> !Wrecking(old(Now(held)), op, heap.heapLimit)
      ensures Valid() ==> Clients(heap.Snap(), tree, held')
      ensures ok <==> !Blocked(old(Now(held)), op, heap.heapLimit)
      ensures ok ==> Valid() && Step(old(Now(held)), op, Now(held'), heap.heapLimit)
      ensures pages == if ok then Meaning(old(pages), op) else old(pages)
    {
      hide Sound, Good, Represents, PageMapping, BlockMap, UnmapPage, ClientsKept, Clients, PagesLeft, Missing, Allocation, PathOf;
      held' := held;
      match op {
        case MapPageAt(va, pa, attrIndex, level) =>
          ok := MapPage4Kb(va, pa, attrIndex, level);
          KeptClients(old(heap.Snap()), old(tree), heap.Snap(), tree, held);
        case MapBlockAt(va, pa, attrIndex) =>
          ok := MapBlock2Mb(va, pa, attrIndex);
          KeptClients(old(heap.Snap()), old(tree), heap.Snap(), tree, held);
        case UnmapAt(va) =>
          Unmap(va);
          ok := true;
          KeptClients(old(heap.Snap()), old(tree), heap.Snap(), tree, held);
        case TallocOf(request) => ok, held' := PerformTalloc(request, held);
        case FreeOf(i) => held' := PerformFree(i, held); ok := true;
        case StoreIn(i, k, v) => PerformStore(i, k, v, held); ok := true;
      }
    }

    method PerformTalloc(request: Word, held: seq<HeldRegion>) returns (ok: bool, held': seq<HeldRegion>)
      requires Valid() && Clients(heap.Snap(), tree, held)
      modifies this, heap
      ensures Valid() <==> !Wrecking(old(Now(held)), TallocOf(request), heap.heapLimit)
      ensures Valid() ==> Clients(heap.Snap(), tree, held')
      ensures ok <==> !Blocked(old(Now(held)), TallocOf(request), heap.heapLimit)
      ensures ok ==> Valid() && TallocStep(old(Now(held)), Now(held'), heap.heapLimit, request)
      ensures pages == old(pages)
    {
      hide Sound, Good, Represents, Clients, RoundUp, Reuse, Bump, Overrun, Overruns, Fits;
      var next := heap.nextFree;
      ListedBlocks(heap.Snap(), heap.heapBottom, heap.heapLimit);
      AllocationNext(heap.Snap(), heap.heapLimit, request);
      var r := ClientTalloc(request, held);
      ok, held' := false, held;
      if r.Some? && next <= heap.nextFree {
        ok := true;
        if RoundUp(request) != 0 {
          held' := held + [(r.value, request)];
        }
      }
    }

    method PerformFree(i: nat, held: seq<HeldRegion>) returns (held': seq<HeldRegion>)
      requires Valid() && Clients(heap.Snap(), tree, held)
      modifies this, heap
      ensures Valid() && Clients(heap.Snap(), tree, held')
      ensures Step(old(Now(held)), FreeOf(i), Now(held'), heap.heapLimit)
    {
      hide Sound, Good, Represents, RoundUp, Push;
      held' := held;
      if i < |held| {
        PushClients(heap.Snap(), tree, held, i);
        ClientFree(held[i].0, held[i].1);
        held' := held[..i] + held[i + 1..];
      }
    }

    method PerformStore(i: nat, k: nat, v: Word, held: seq<HeldRegion>)
      requires Valid() && Clients(heap.Snap(), tree, held)
      modifies this, heap
      ensures Valid() && Clients(heap.Snap(), tree, held)
      ensures Step(old(Now(held)), StoreIn(i, k, v), Now(held), heap.heapLimit)
    {
      hide Sound, Good, Represents, RoundUp;
      if i < |held| && 8 * k < RoundUp(held[i].1) {
        ClientStore(held[i].0, k, v);
      }
    }
  }
}
