/** The translation tables of kernel/memory/mmu.c, read as the hardware reads them
    (Arm Architecture Reference Manual DDI 0487, VMSAv8-64 translation, 4 KB
    granule, 48-bit input and output addresses). */
module PageTables {
  import opened Division
  import opened Options
  import opened PhysicalMemory
  import opened RadixWalk

  // --- Descriptors ---

  /** `d & 0xFFFFFFFFF000`: bits 47 to 12. */
  function Target(d: nat): (a: nat)
    ensures Aligned(a) && a < 0x1_0000_0000_0000
  {
    d / 0x1000 % 0x10_0000_0000 * 0x1000
  }

  /** What a valid bit and type bit mean at each level; 0b01 at levels 0 and 3 is
      reserved and faults. */
  function Decode(d: Word, k: nat): Entry {
    if d % 4 == 3 then (if k < 3 then Next(Target(d)) else Leaf(d, k))
    else if d % 4 == 1 && 1 <= k <= 2 then Leaf(d, k)
    else Fault
  }

  lemma LowTwoBits(d: nat)
    ensures d % 2 == 1 <==> d % 4 == 1 || d % 4 == 3
  {
    DivModIs(d, 2, d / 4 * 2 + d % 4 / 2, d % 4 % 2);
  }

  /** The `i`th word of the table at `x`. */
  function Desc(m: Memory, x: nat, i: nat): Word {
    Load(m, x + 8 * i)
  }

  function EntriesOf(m: Memory): Entries {
    (k: nat, x: nat, i: nat) => Decode(Desc(m, x, i), k)
  }

  datatype Fields = Fields(uxn: nat, pxn: nat, af: nat, sh: nat, ap: nat, attrIndx: nat)

  function FieldsOf(d: nat): Fields {
    Fields(d / 0x40_0000_0000_0000 % 2, d / 0x20_0000_0000_0000 % 2,
           d % 0x800 / 0x400, d % 0x400 / 0x100, d % 0x100 / 0x40, d % 0x20 / 4)
  }

  datatype Access = Access(read: bool, write: bool, execute: bool)

  /** What EL1 and EL0 may do with a page, and the memory type it is accessed as; an access
      faults unless `accessed` is set. */
  datatype Attributes = Attributes(el1: Access, el0: Access, accessed: bool, shareability: nat, attrIndx: nat)

  /** AP[2] takes away writing and AP[1] gives EL0 access to data; what EL0 may write is
      never executable at EL1. */
  function AttributesOf(d: nat): Attributes {
    Rights(FieldsOf(d))
  }

  function Rights(f: Fields): Attributes {
    var readOnly, unprivileged := f.ap / 2 % 2 == 1, f.ap % 2 == 1;
    Attributes(Access(true, !readOnly, f.pxn == 0 && (readOnly || !unprivileged)),
               Access(unprivileged, unprivileged && !readOnly, f.uxn == 0),
               f.af == 1, f.sh, f.attrIndx)
  }

  // --- The hardware walk ---

  function PathOf(va: nat): Path {
    [va / 0x80_0000_0000 % 512, va / 0x4000_0000 % 512, va / 0x20_0000 % 512, va / 0x1000 % 512]
  }

  datatype Translation = Translation(pa: nat, attributes: Attributes, level: nat)

  /** Output address and attributes of a leaf found at level `k`. */
  function Output(d: nat, k: nat, va: nat): Translation {
    Translation(if k == 1 then d / 0x4000_0000 % 0x4_0000 * 0x4000_0000 + va % 0x4000_0000
                else if k == 2 then d / 0x20_0000 % 0x800_0000 * 0x20_0000 + va % 0x20_0000
                else Target(d) + va % 0x1000,
                AttributesOf(d), k)
  }

  /** The translation of a 48-bit address; None is a translation fault. */
  function Walk(m: Memory, root: nat, va: nat): Option<Translation> {
    match WalkFrom(EntriesOf(m), root, 0, PathOf(va))
    case Leaf(d, k) => Some(Output(d, k, va))
    case Fault => None
  }

  /** Addresses share their first three (four) indices exactly when they lie in the
      same 2 MB region (4 KB page). */
  lemma PathPrefixes(va: nat, va': nat)
    requires va < 0x1_0000_0000_0000 && va' < 0x1_0000_0000_0000
    ensures PathOf(va)[..3] == PathOf(va')[..3] <==> va / 0x20_0000 == va' / 0x20_0000
    ensures PathOf(va)[..4] == PathOf(va')[..4] <==> va / 0x1000 == va' / 0x1000
  {
    PathDigits(va);
    PathDigits(va');
    assert forall w: nat :: PathOf(w)[..3] == [PathOf(w)[0], PathOf(w)[1], PathOf(w)[2]];
    assert forall w: nat :: PathOf(w)[..4] == PathOf(w);
  }

  lemma PathDigits(va: nat)
    requires va < 0x1_0000_0000_0000
    ensures va / 0x1000 == va / 0x20_0000 * 512 + PathOf(va)[3]
    ensures va / 0x20_0000 == PathOf(va)[0] * 0x40000 + PathOf(va)[1] * 512 + PathOf(va)[2]
  {
    assert va / 0x20_0000 == va / 0x1000 / 512;
    assert va / 0x4000_0000 == va / 0x20_0000 / 512;
    assert va / 0x80_0000_0000 == va / 0x4000_0000 / 512;
  }

  // --- The abstract map ---

  /** What one 4 KB page of address space is mapped to. */
  datatype Mapping = Mapping(frame: nat, attributes: Attributes, level: nat)

  type PageMap = map<nat, Mapping>

  function Lookup(pages: PageMap, va: nat): Option<Translation> {
    var page := va / 0x1000;
    if page in pages then
      Some(Translation(pages[page].frame + va % 0x1000, pages[page].attributes, pages[page].level))
    else None
  }

  /** A page is mapped only if nothing maps it yet. */
  function MapPage(pages: PageMap, page: nat, mapping: Mapping): PageMap {
    if page in pages then pages else pages[page := mapping]
  }

  predicate InRegion(q: nat, page: nat) {
    q / 512 == page / 512
  }

  function Region(page: nat): set<nat> {
    set q {:trigger InRegion(q, page)} | page / 512 * 512 <= q < page / 512 * 512 + 512 && InRegion(q, page)
  }

  /** A 2 MB block replaces whatever its 512 pages were mapped to. */
  function MapBlock(pages: PageMap, page: nat, base: nat, attributes: Attributes): PageMap {
    pages + map q | q in Region(page) :: Mapping(base + q % 512 * 0x1000, attributes, 2)
  }

  /** Unmapping takes away one page, or the whole block that covers it. */
  function UnmapPage(pages: PageMap, page: nat): PageMap {
    if page !in pages then pages
    else if pages[page].level == 2 then pages - Region(page)
    else pages - {page}
  }

  ghost predicate Represents(m: Memory, root: nat, pages: PageMap) {
    forall va: nat {:trigger Walk(m, root, va)} :: va < 0x1_0000_0000_0000 ==> Walk(m, root, va) == Lookup(pages, va)
  }

  // --- The descriptors the kernel writes ---

  /** `(table & 0xFFFFFFFFF000) | PD_TABLE`. */
  function TableDescriptor(table: nat): Word {
    Target(table) + 3
  }

  /** AP for EL0, EL1 and shared pages. */
  function Permission(level: nat): nat {
    if level == 0 then 1 else if level == 1 then 0 else 2
  }

  /** UXN, AF, shareability 0b11, AP 0b00. */
  function BlockDescriptor(pa: Word, attrIndex: nat): Word
    requires attrIndex < 8
  {
    Target(pa) + 0x40_0000_0000_0000 + 0x400 + 0x300 + 4 * attrIndex + 1
  }

  /** UXN for EL1 pages only, AF, shareability 0b01, AP by level. */
  function PageDescriptor(pa: Word, attrIndex: nat, level: nat): Word
    requires attrIndex < 8 && level <= 2
  {
    Target(pa) + (if level == 1 then 0x40_0000_0000_0000 else 0)
    + 0x400 + 0x100 + 0x40 * Permission(level) + 4 * attrIndex + 3
  }

  const NOTHING := Access(false, false, false)
  const EVERYTHING := Access(true, true, true)

  /** A block belongs to EL1. */
  function BlockAttributes(attrIndex: nat): Attributes {
    Attributes(EVERYTHING, NOTHING, true, 3, attrIndex)
  }

  /** A page of level 0 is memory of EL0, which EL1 does not execute; one of level 1 belongs
      to EL1; one of level 2 is code that both execute, and only EL1 reads. */
  function PageAttributes(attrIndex: nat, level: nat): Attributes {
    var (el1, el0) :=
      if level == 0 then (Access(true, true, false), EVERYTHING)
      else if level == 1 then (EVERYTHING, NOTHING)
      else (Access(true, false, true), Access(false, false, true));
    Attributes(el1, el0, true, 1, attrIndex)
  }

  lemma LowBits(d: nat, q: nat, lo: nat)
    requires d == q * 0x1000 + lo && lo < 0x1000
    ensures d % 0x800 == lo % 0x800 && d % 0x400 == lo % 0x400 && d % 0x100 == lo % 0x100
    ensures d % 0x20 == lo % 0x20 && d % 4 == lo % 4
  {
    DivModIs(d, 0x800, 2 * q + lo / 0x800, lo % 0x800);
    DivModIs(d, 0x400, 4 * q + lo / 0x400, lo % 0x400);
    DivModIs(d, 0x100, 16 * q + lo / 0x100, lo % 0x100);
    DivModIs(d, 0x20, 128 * q + lo / 0x20, lo % 0x20);
    DivModIs(d, 4, 1024 * q + lo / 4, lo % 4);
  }

  lemma FrameBits(d: nat, hi: nat, f: nat, lo: nat)
    requires d == hi * 0x1_0000_0000_0000 + f * 0x1000 + lo && f < 0x10_0000_0000 && lo < 0x1000
    ensures Target(d) == f * 0x1000
    ensures d / 0x20_0000 % 0x800_0000 == f / 512
  {
    DivModIs(d, 0x1000, hi * 0x10_0000_0000 + f, lo);
    DivModIs(hi * 0x10_0000_0000 + f, 0x10_0000_0000, hi, f);
    DivModIs(d, 0x20_0000, hi * 0x800_0000 + f / 512, f % 512 * 0x1000 + lo);
    DivModIs(hi * 0x800_0000 + f / 512, 0x800_0000, hi, f / 512);
  }

  lemma HighBits(d: nat, hi: nat, f: nat, lo: nat)
    requires d == hi * 0x1_0000_0000_0000 + f * 0x1000 + lo && f < 0x10_0000_0000 && lo < 0x1000
    ensures d / 0x40_0000_0000_0000 == hi / 64 && d / 0x20_0000_0000_0000 == hi / 32
  {
    DivModIs(d, 0x40_0000_0000_0000, hi / 64, hi % 64 * 0x1_0000_0000_0000 + f * 0x1000 + lo);
    DivModIs(d, 0x20_0000_0000_0000, hi / 32, hi % 32 * 0x1_0000_0000_0000 + f * 0x1000 + lo);
  }

  /** The fields of a word made of 16 high bits, 36 frame bits and 12 low bits. */
  lemma DescriptorFields(d: nat, hi: nat, f: nat, lo: nat)
    requires d == hi * 0x1_0000_0000_0000 + f * 0x1000 + lo && f < 0x10_0000_0000 && lo < 0x1000
    ensures Target(d) == f * 0x1000 && d / 0x20_0000 % 0x800_0000 == f / 512 && d % 4 == lo % 4
    ensures FieldsOf(d)
         == Fields(hi / 64 % 2, hi / 32 % 2, lo % 0x800 / 0x400, lo % 0x400 / 0x100, lo % 0x100 / 0x40, lo % 0x20 / 4)
  {
    LowBits(d, hi * 0x10_0000_0000 + f, lo);
    FrameBits(d, hi, f, lo);
    HighBits(d, hi, f, lo);
    hide Target;
  }

  /** The fields of the twelve low bits. */
  lemma LowFields(lo: nat, sh: nat, ap: nat, attrIndex: nat, bits: nat)
    requires lo == 0x400 + 0x100 * sh + 0x40 * ap + 4 * attrIndex + bits
    requires sh < 4 && ap < 4 && attrIndex < 8 && bits < 4
    ensures lo < 0x800 && lo % 0x800 / 0x400 == 1 && lo % 0x400 / 0x100 == sh && lo % 0x100 / 0x40 == ap
    ensures lo % 0x20 / 4 == attrIndex && lo % 4 == bits
  {
    DivModIs(lo, 0x800, 0, lo);
    DivModIs(lo, 0x400, 1, lo - 0x400);
    DivModIs(lo, 0x100, 4 + sh, 0x40 * ap + 4 * attrIndex + bits);
    DivModIs(lo - 0x400, 0x100, sh, 0x40 * ap + 4 * attrIndex + bits);
    DivModIs(0x40 * ap + 4 * attrIndex + bits, 0x40, ap, 4 * attrIndex + bits);
    DivModIs(lo, 0x20, 0x20 + 8 * sh + 2 * ap, 4 * attrIndex + bits);
    DivModIs(4 * attrIndex + bits, 4, attrIndex, bits);
    DivModIs(lo, 4, 0x100 + 0x40 * sh + 0x10 * ap + attrIndex, bits);
  }

  lemma TableDescriptorDecodes(table: nat, k: nat)
    requires Aligned(table) && table < 0x1_0000_0000_0000 && k < 3
    ensures Decode(TableDescriptor(table), k) == Next(table)
  {
    DescriptorFields(TableDescriptor(table), 0, table / 0x1000, 3);
    hide FieldsOf;
  }

  /** A descriptor with the attributes of a leaf. */
  lemma LeafFields(d: nat, pa: Word, uxn: nat, sh: nat, ap: nat, attrIndex: nat, bits: nat)
    requires d == Target(pa) + uxn * 0x40_0000_0000_0000 + 0x400 + 0x100 * sh + 0x40 * ap + 4 * attrIndex + bits
    requires uxn < 2 && sh < 4 && ap < 4 && attrIndex < 8 && bits < 4
    ensures d % 4 == bits && Target(d) == Target(pa) && FieldsOf(d) == Fields(uxn, 0, 1, sh, ap, attrIndex)
    ensures d / 0x20_0000 % 0x800_0000 == Target(pa) / 0x20_0000
  {
    var f, lo := pa / 0x1000 % 0x10_0000_0000, 0x400 + 0x100 * sh + 0x40 * ap + 4 * attrIndex + bits;
    assert Target(pa) == f * 0x1000;
    DivModIs(f * 0x1000, 0x20_0000, f / 512, f % 512 * 0x1000);
    DivModIs(64 * uxn, 64, uxn, 0);
    DivModIs(64 * uxn, 32, 2 * uxn, 0);
    DivModIs(uxn, 2, 0, uxn);
    DivModIs(2 * uxn, 2, uxn, 0);
    hide *;
    LowFields(lo, sh, ap, attrIndex, bits);
    DescriptorFields(d, 64 * uxn, f, lo);
  }

  /** The hardware reads a block descriptor back as the 2 MB frame holding `pa`,
      for EL1 alone, with the attribute index asked for. */
  lemma BlockDescriptorDecodes(pa: Word, attrIndex: nat, va: nat)
    requires attrIndex < 8
    ensures Decode(BlockDescriptor(pa, attrIndex), 2) == Leaf(BlockDescriptor(pa, attrIndex), 2)
    ensures Output(BlockDescriptor(pa, attrIndex), 2, va)
         == Translation(Target(pa) / 0x20_0000 * 0x20_0000 + va % 0x20_0000, BlockAttributes(attrIndex), 2)
  {
    LeafFields(BlockDescriptor(pa, attrIndex), pa, 1, 3, 0, attrIndex, 1);
    hide Target, FieldsOf, BlockDescriptor;
  }

  lemma PageDescriptorDecodes(pa: Word, attrIndex: nat, level: nat, va: nat)
    requires attrIndex < 8 && level <= 2
    ensures Decode(PageDescriptor(pa, attrIndex, level), 3) == Leaf(PageDescriptor(pa, attrIndex, level), 3)
    ensures Output(PageDescriptor(pa, attrIndex, level), 3, va)
         == Translation(Target(pa) + va % 0x1000, PageAttributes(attrIndex, level), 3)
  {
    LeafFields(PageDescriptor(pa, attrIndex, level), pa, if level == 1 then 1 else 0, 1, Permission(level), attrIndex, 3);
    hide Target, FieldsOf, PageDescriptor;
  }
}
