/** The code relocator of kernel/process/loading/process_loader.c: what it emits for a
    word, against what the processor makes of that word (Arm Architecture Reference
    Manual DDI 0487, A64 base instruction descriptions, chapter C6.2). */
module Relocator {
  import opened Division
  import opened MachineTypes

  /** Addresses wrap. */
  function Wrap(a: int): U64 { a % 0x1_0000_0000_0000_0000 }

  /** The signed value of a field whose values run up to 2 * half. */
  function Signed(v: nat, half: nat): int {
    if v < half then v else v - 2 * half
  }

  /** `process_layout`. */
  datatype Layout = Layout(code: U64, codeSize: U32, data: U64, dataSize: U32)

  predicate Inside(a: U64, start: U64, size: U32) {
    start <= a < start + size
  }

  // --- What the processor does ---

  predicate IsBranch(w: U32) { w / 0x400_0000 % 32 == 5 }                      // B, BL
  predicate IsCondBranch(w: U32) { w / 0x100_0000 == 0x54 && w / 16 % 2 == 0 } // B.cond
  predicate IsAdrp(w: U32) { w / 0x8000_0000 == 1 && w / 0x100_0000 % 32 == 16 }

  /** B and BL: SignExtend(imm26:00). */
  function BranchOffset(w: U32): int {
    4 * Signed(w % 0x400_0000, 0x200_0000)
  }

  /** B.cond: SignExtend(imm19:00). */
  function CondOffset(w: U32): int {
    4 * Signed(w / 32 % 0x8_0000, 0x4_0000)
  }

  /** ADRP: the 21-bit count immhi:immlo of pages. */
  function PageCount(w: U32): nat {
    w / 32 % 0x8_0000 * 4 + w / 0x2000_0000 % 4
  }

  /** SignExtend(immhi:immlo:Zeros(12)). */
  function PageOffset(w: U32): int {
    0x1000 * Signed(PageCount(w), 0x10_0000)
  }

  function PageOf(a: U64): U64 { a - a % 0x1000 }

  function BranchTarget(w: U32, pc: U64): U64 { Wrap(pc + BranchOffset(w)) }
  function CondTarget(w: U32, pc: U64): U64 { Wrap(pc + CondOffset(w)) }
  function PageTarget(w: U32, pc: U64): U64 { Wrap(PageOf(pc) + PageOffset(w)) }

  // --- What the relocator does ---

  /** `a >= start && a < start + size`, the sum wrapping. */
  predicate InRange(a: U64, start: U64, size: U32) {
    start <= a < Wrap(start + size)
  }

  /** `(field << n) >> n` on an `int32_t`, for a `unit` of 2^n. */
  function ShiftedBack(field: nat, unit: nat): int
    requires unit > 0
  {
    Signed(field * unit % 0x1_0000_0000, 0x8000_0000) / unit
  }

  function BranchOffsetRead(w: U32): int {
    4 * ShiftedBack(w % 0x400_0000, 64)
  }

  function CondOffsetRead(w: U32): int {
    4 * ShiftedBack(w / 32 % 0x8_0000, 0x2000)
  }

  /** `pc & ~0xFFF`. */
  function PageBase(a: U64): U64 { a / 0x1000 * 0x1000 }

  /** Where the instruction at `pc` goes; `(uint32_t)(pc - source->code_base_start)`
      in the branch cases. */
  function MovedPc(pc: U64, source: Layout, destination: Layout): U64 {
    Wrap(destination.code + Wrap(pc - source.code) % 0x1_0000_0000)
  }

  /** `((int64_t)((immhi << 2) | immlo) << 44) >> 32`: bit 20 of the count is shifted out,
      bit 19 taken for the sign. */
  function PageOffsetRead(w: U32): int {
    var count := w / 32 % 0x8_0000 * 4 + w / 0x2000_0000 % 4;
    Signed(count * 0x1000_0000_0000 % 0x1_0000_0000_0000_0000, 0x8000_0000_0000_0000) / 0x1_0000_0000
  }

  /** The word with its low 26 bits replaced by those of `distance >> 2`. */
  function WithBranch(w: U32, distance: U64): U32 {
    w / 0x400_0000 * 0x400_0000 + distance / 4 % 0x400_0000
  }

  /** The word with immhi and immlo replaced by bits 32:14 and 13:12 of `distance`. */
  function WithPage(w: U32, distance: U64): U32 {
    w / 0x8000_0000 * 0x8000_0000 + distance / 0x1000 % 4 * 0x2000_0000
    + w / 0x100_0000 % 32 * 0x100_0000 + distance / 0x4000 % 0x8_0000 * 32 + w % 32
  }

  /** `print_branch` with `translate` set. */
  function RelocateBranch(w: U32, pc: U64, source: Layout, destination: Layout): U32 {
    var target := Wrap(pc + BranchOffsetRead(w));
    if InRange(target, source.code, source.codeSize) then w
    else WithBranch(w, Wrap(target - MovedPc(pc, source, destination)))
  }

  /** `print_cond_branch` with `translate` set. */
  function RelocateCondBranch(w: U32, pc: U64, source: Layout, destination: Layout): U32 {
    var target := Wrap(pc + CondOffsetRead(w));
    if InRange(target, source.code, source.codeSize) then w
    else WithBranch(w, Wrap(target - MovedPc(pc, source, destination)))
  }

  /** `print_adrp` with `translate` set. */
  function RelocateAdrp(w: U32, pc: U64, source: Layout, destination: Layout): U32 {
    var target := Wrap(PageBase(pc) + PageOffsetRead(w));
    if InRange(target, source.data, source.dataSize) then
      var newTarget := Wrap(destination.data + Wrap(target - source.data));
      WithPage(w, Wrap(newTarget - PageBase(Wrap(destination.code + Wrap(pc - source.code)))))
    else w
  }

  // --- Field by field ---

  lemma ShiftedBackIs(field: nat, unit: nat, half: nat)
    requires unit > 0 && 2 * half * unit == 0x1_0000_0000 && field < 2 * half
    ensures ShiftedBack(field, unit) == Signed(field, half)
  {
    var s := Signed(field, half);
    assert field * unit < 2 * half * unit by {
      NonzeroMultiple(2 * half - field, unit);
    }
    DivModIs(field * unit, 0x1_0000_0000, 0, field * unit);
    assert field < half <==> field * unit < 0x8000_0000 by {
      NonzeroMultiple(half - field, unit);
    }
    assert Signed(field * unit, 0x8000_0000) == s * unit;
    DivModIs(s * unit, unit, s, 0);
  }

  /** The relocator reads a branch's distance as the processor does ... */
  lemma BranchReadExactly(w: U32)
    ensures BranchOffsetRead(w) == BranchOffset(w)
  {
    ShiftedBackIs(w % 0x400_0000, 64, 0x200_0000);
    hide ShiftedBack;
  }

  /** ... and a conditional branch's. */
  lemma CondReadExactly(w: U32)
    ensures CondOffsetRead(w) == CondOffset(w)
  {
    ShiftedBackIs(w / 32 % 0x8_0000, 0x2000, 0x4_0000);
    hide ShiftedBack;
  }

  lemma PageBaseIs(a: U64)
    ensures PageBase(a) == PageOf(a)
  {
  }

  lemma InRangeExactly(a: U64, start: U64, size: U32)
    ensures InRange(a, start, size) ==> Inside(a, start, size)
    ensures start + size < 0x1_0000_0000_0000_0000 ==> (InRange(a, start, size) <==> Inside(a, start, size))
  {
    var k := WrapOf(start + size);
    hide Wrap;
  }

  /** A wrapped distance as a signed one. */
  function Distance(to: U64, from: U64): int {
    Signed(Wrap(to - from), 0x8000_0000_0000_0000)
  }

  lemma WrapIs(a: int, r: U64, k: int)
    requires a == r + k * 0x1_0000_0000_0000_0000
    ensures Wrap(a) == r
  {
    DivModIs(a, 0x1_0000_0000_0000_0000, k, r);
  }

  lemma WrapOf(a: int) returns (k: int)
    ensures a == Wrap(a) + k * 0x1_0000_0000_0000_0000
  {
    k := a / 0x1_0000_0000_0000_0000;
  }

  lemma WrapSame(a: int, b: int, k: int)
    requires a == b + k * 0x1_0000_0000_0000_0000
    ensures Wrap(a) == Wrap(b)
  {
    hide Wrap;
    var j := WrapOf(b);
    WrapIs(a, Wrap(b), j + k);
  }

  lemma WrapAdd(from: U64, d: int, to: U64)
    requires -0x8000_0000_0000_0000 <= d < 0x8000_0000_0000_0000
    ensures Wrap(from + d) == to <==> d == Distance(to, from)
  {
    hide Wrap;
    var i := WrapOf(to - from);
    var j := WrapOf(from + d);
    if d == Distance(to, from) {
      WrapIs(from + d, to, if Wrap(to - from) < 0x8000_0000_0000_0000 then -i else -i - 1);
    }
  }

  lemma MultipleOnly(x: int, unit: nat, q: int, r: nat)
    requires r < unit
    ensures unit * x == unit * q + r <==> x == q && r == 0
  {
    assert unit * x - unit * q == (x - q) * unit;
    NonzeroMultiple(x - q, unit);
  }

  lemma SignedIs(k: nat, half: int, q: int)
    requires 0 < half && k < 2 * half
    ensures Signed(k, half) == q <==> -half <= q < half && k == q % (2 * half)
  {
    if -half <= q < 0 {
      DivModIs(q, 2 * half, -1, q + 2 * half);
    } else if 0 <= q < half {
      DivModIs(q, 2 * half, 0, q);
    }
  }

  /** Adding a multiple of 2^52 units of 4 KB, or of 2^62 units of 4 bytes, changes no
      lower bits. */
  lemma SameUnits(d: nat, s: int, e: int)
    requires d == s + e * 0x1_0000_0000_0000_0000
    ensures d % 4 == s % 4 && d / 4 % 0x400_0000 == s / 4 % 0x400_0000
    ensures d % 0x1000 == s % 0x1000 && d / 0x1000 % 0x20_0000 == s / 0x1000 % 0x20_0000
  {
    var q, p := s / 4, s / 0x1000;
    DivModIs(d, 4, q + e * 0x4000_0000_0000_0000, s % 4);
    DivModIs(q + e * 0x4000_0000_0000_0000, 0x400_0000, q / 0x400_0000 + e * 0x10_0000_0000, q % 0x400_0000);
    DivModIs(d, 0x1000, p + e * 0x10_0000_0000_0000, s % 0x1000);
    DivModIs(p + e * 0x10_0000_0000_0000, 0x20_0000, p / 0x20_0000 + e * 0x8000_0000, p % 0x20_0000);
  }

  lemma BranchFields(w: U32, d: U64)
    ensures WithBranch(w, d) / 0x400_0000 == w / 0x400_0000
    ensures WithBranch(w, d) % 0x400_0000 == d / 4 % 0x400_0000
  {
    DivModIs(WithBranch(w, d), 0x400_0000, w / 0x400_0000, d / 4 % 0x400_0000);
  }

  /** A distance survives the branch encoding exactly when it is a multiple of four
      within 128 MB. */
  lemma BranchEncodes(w: U32, d: U64)
    ensures BranchOffset(WithBranch(w, d)) == Signed(d, 0x8000_0000_0000_0000)
       <==> d % 4 == 0 && -0x800_0000 <= Signed(d, 0x8000_0000_0000_0000) < 0x800_0000
    ensures WithBranch(w, d) / 0x400_0000 == w / 0x400_0000
  {
    var s := Signed(d, 0x8000_0000_0000_0000);
    BranchFields(w, d);
    SameUnits(d, s, if d < 0x8000_0000_0000_0000 then 0 else 1);
    SignedIs(d / 4 % 0x400_0000, 0x200_0000, s / 4);
    MultipleOnly(Signed(d / 4 % 0x400_0000, 0x200_0000), 4, s / 4, s % 4);
    hide WithBranch, Signed;
  }

  /** The relocator reads an ADRP as the processor does exactly when bits 20 and 19 of
      the page count agree, that is, within 2 GB. */
  lemma AdrpReadExactly(w: U32)
    ensures PageOffsetRead(w) == PageOffset(w) <==> -0x8000_0000 <= PageOffset(w) < 0x8000_0000
  {
    PageCountRange(w);
    CountRead(w);
    hide PageCount, PageOffsetRead;
    var c := PageCount(w);
    DivModIs(c, 0x10_0000, if c < 0x10_0000 then 0 else 1, if c < 0x10_0000 then c else c - 0x10_0000);
  }

  lemma CountRead(w: U32)
    ensures PageOffsetRead(w) == 0x1000 * Signed(PageCount(w) % 0x10_0000, 0x8_0000)
  {
    var c := PageCount(w);
    var low := c % 0x10_0000;
    DivModIs(c * 0x1000_0000_0000, 0x1_0000_0000_0000_0000, c / 0x10_0000, low * 0x1000_0000_0000);
    DivModIs(0x1000 * Signed(low, 0x8_0000) * 0x1_0000_0000, 0x1_0000_0000, 0x1000 * Signed(low, 0x8_0000), 0);
  }

  lemma PageCountRange(w: U32)
    ensures PageCount(w) < 0x20_0000
  {
  }

  lemma AdrpParts(a: nat, lo: nat, m: nat, hi: nat, rd: nat, w: nat)
    requires a < 2 && lo < 4 && m < 32 && hi < 0x8_0000 && rd < 32
    requires w == a * 0x8000_0000 + lo * 0x2000_0000 + m * 0x100_0000 + hi * 32 + rd
    ensures w / 0x8000_0000 == a && w / 0x2000_0000 % 4 == lo && w / 0x100_0000 % 32 == m
    ensures w / 32 % 0x8_0000 == hi && w % 32 == rd
  {
    DivModIs(w, 0x8000_0000, a, lo * 0x2000_0000 + m * 0x100_0000 + hi * 32 + rd);
    DivModIs(w, 0x2000_0000, a * 4 + lo, m * 0x100_0000 + hi * 32 + rd);
    DivModIs(a * 4 + lo, 4, a, lo);
    DivModIs(w, 0x100_0000, a * 128 + lo * 32 + m, hi * 32 + rd);
    DivModIs(a * 128 + lo * 32 + m, 32, a * 4 + lo, m);
    DivModIs(w, 32, (a * 128 + lo * 32 + m) * 0x8_0000 + hi, rd);
    DivModIs((a * 128 + lo * 32 + m) * 0x8_0000 + hi, 0x8_0000, a * 128 + lo * 32 + m, hi);
  }

  lemma DistanceParts(d: U64)
    ensures d / 0x4000 % 0x8_0000 * 4 + d / 0x1000 % 4 == d / 0x1000 % 0x20_0000
  {
    var y := d / 0x1000;
    DivModIs(d, 0x4000, y / 4, y % 4 * 0x1000 + d % 0x1000);
    DivModIs(y, 0x20_0000, y / 4 / 0x8_0000, y / 4 % 0x8_0000 * 4 + y % 4);
  }

  lemma PageFields(w: U32, d: U64)
    ensures PageCount(WithPage(w, d)) == d / 0x1000 % 0x20_0000
    ensures WithPage(w, d) / 0x8000_0000 == w / 0x8000_0000
    ensures WithPage(w, d) / 0x100_0000 % 32 == w / 0x100_0000 % 32
    ensures WithPage(w, d) % 32 == w % 32
  {
    var a, lo, m, hi, rd := w / 0x8000_0000, d / 0x1000 % 4, w / 0x100_0000 % 32, d / 0x4000 % 0x8_0000, w % 32;
    assert WithPage(w, d) == a * 0x8000_0000 + lo * 0x2000_0000 + m * 0x100_0000 + hi * 32 + rd;
    assert a < 2;
    hide WithPage;
    AdrpParts(a, lo, m, hi, rd, WithPage(w, d));
    DistanceParts(d);
  }

  /** ... and the ADRP encoding exactly when it is a multiple of 4 KB within 4 GB. */
  lemma PageEncodes(w: U32, d: U64)
    ensures PageOffset(WithPage(w, d)) == Signed(d, 0x8000_0000_0000_0000)
       <==> d % 0x1000 == 0 && -0x1_0000_0000 <= Signed(d, 0x8000_0000_0000_0000) < 0x1_0000_0000
  {
    hide PageCount, WithPage, Signed;
    PageFields(w, d);
    var s := SignedParts(d);
    SignedIs(d / 0x1000 % 0x20_0000, 0x10_0000, s / 0x1000);
    MultipleOnly(Signed(d / 0x1000 % 0x20_0000, 0x10_0000), 0x1000, s / 0x1000, s % 0x1000);
  }

  lemma SignedParts(d: U64) returns (s: int)
    ensures s == Signed(d, 0x8000_0000_0000_0000)
    ensures d % 0x1000 == s % 0x1000 && d / 0x1000 % 0x20_0000 == s / 0x1000 % 0x20_0000
  {
    s := Signed(d, 0x8000_0000_0000_0000);
    SameUnits(d, s, if d < 0x8000_0000_0000_0000 then 0 else 1);
  }

  /** A conditional branch given the 26-bit field of B: among the distances a
      conditional branch can encode, only "b.eq to itself" comes out right. */
  lemma CondMisencodes(w: U32, d: U64)
    requires IsCondBranch(w)
    requires d % 4 == 0 && -0x10_0000 <= Signed(d, 0x8000_0000_0000_0000) < 0x10_0000
    ensures IsCondBranch(WithBranch(w, d)) && WithBranch(w, d) % 16 == w % 16
            && CondOffset(WithBranch(w, d)) == Signed(d, 0x8000_0000_0000_0000)
       <==> d == 0 && w % 16 == 0
  {
    var f := d / 4 % 0x400_0000;
    CondClassBits(w);
    BranchFields(w, d);
    CondFields(WithBranch(w, d), f);
    SmallField(d, f);
  }

  lemma CondClassBits(w: U32)
    requires IsCondBranch(w)
    ensures w / 0x400_0000 == 21
  {
    DivModIs(w, 0x400_0000, 21, w % 0x100_0000);
  }

  /** A conditional branch's fields in a word whose low 26 bits are `f`. */
  lemma CondFields(out: U32, f: nat)
    requires out == 21 * 0x400_0000 + f && f < 0x400_0000
    ensures out / 0x100_0000 == 84 + f / 0x100_0000 && out / 16 % 2 == f / 16 % 2 && out % 16 == f % 16
    ensures out / 32 % 0x8_0000 == f / 32 % 0x8_0000
  {
    DivModIs(out, 0x100_0000, 84 + f / 0x100_0000, f % 0x100_0000);
    DivModIs(out, 16, 21 * 0x40_0000 + f / 16, f % 16);
    DivModIs(21 * 0x40_0000 + f / 16, 2, 21 * 0x20_0000 + f / 16 / 2, f / 16 % 2);
    DivModIs(out, 32, 21 * 0x20_0000 + f / 32, f % 32);
    DivModIs(21 * 0x20_0000 + f / 32, 0x8_0000, 84 + f / 32 / 0x8_0000, f / 32 % 0x8_0000);
  }

  /** The low 26 bits of a distance within 1 MB, and what they look like in 19 bits. */
  lemma SmallField(d: U64, f: nat)
    requires d % 4 == 0 && -0x10_0000 <= Signed(d, 0x8000_0000_0000_0000) < 0x10_0000 && f == d / 4 % 0x400_0000
    ensures if d < 0x8000_0000_0000_0000 then d == 4 * f && f < 0x4_0000 && f / 0x100_0000 == 0 else f / 0x100_0000 == 3
    ensures f < 0x4_0000 ==> (4 * Signed(f / 32 % 0x8_0000, 0x4_0000) == 4 * f <==> f == 0)
  {
    var s := Signed(d, 0x8000_0000_0000_0000);
    SameUnits(d, s, if d < 0x8000_0000_0000_0000 then 0 else 1);
    if d < 0x8000_0000_0000_0000 {
      DivModIs(s / 4, 0x400_0000, 0, s / 4);
      DivModIs(f / 32, 0x8_0000, 0, f / 32);
    } else {
      DivModIs(s / 4, 0x400_0000, -1, s / 4 + 0x400_0000);
      DivModIs(f, 0x100_0000, 3, f - 0x300_0000);
    }
  }

  // --- The instruction table ---

  /** `parse_instruction` with `translate` set: the first matching entry of `ops`, in
      order; all entries but three return the word they were given. */
  function Relocate(w: U32, pc: U64, source: Layout, destination: Layout): U32 {
    if w / 0x40_0000 == 0xA980_0000 / 0x40_0000 then w                          // stp
    else if w / 0x40_0000 == 0x5280_0000 / 0x40_0000 then w                     // mov
    else if w / 0x40_0000 == 0xD280_0000 / 0x40_0000 then w                     // movz
    else if w / 0x8000_0000 == 1 && w / 0x100_0000 % 32 == 16 then RelocateAdrp(w, pc, source, destination)
    else if w / 0x100_0000 % 128 == 0x11 then w                                 // add
    else if w / 0x10_0000 == 0xF940_0000 / 0x10_0000 then w                     // ldr
    else if w / 0x10_0000 == 0xF900_0000 / 0x10_0000 then w                     // str
    else if w / 0x400_0000 == 0x9400_0000 / 0x400_0000 then RelocateBranch(w, pc, source, destination)    // bl
    else if w / 0x400 == 0xEB00_0000 / 0x400 && w % 32 == 31 then w             // cmp
    else if w / 0x400_0000 == 0x1400_0000 / 0x400_0000 then RelocateBranch(w, pc, source, destination)    // b
    else if w / 0x100_0000 == 0x54 && w / 16 % 2 == 0 then RelocateCondBranch(w, pc, source, destination) // b.cond
    else if w / 0x40_0000 == 0xB900_0000 / 0x40_0000 then w                     // str
    else if w / 0x10_0000 == 0xB940_0000 / 0x10_0000 then w                     // ldr
    else if w / 0x80_0000 == 0x7280_0000 / 0x80_0000 then w                     // movk
    else if w / 0x100_0000 == 0x6B && w % 32 == 31 then w                       // cmp
    else w                                                                      // mov, or no entry
  }

  /** No earlier entry of the table shadows the three that rewrite. */
  lemma TableOrder(w: U32, pc: U64, source: Layout, destination: Layout)
    ensures Relocate(w, pc, source, destination)
         == if IsBranch(w) then RelocateBranch(w, pc, source, destination)
            else if IsCondBranch(w) then RelocateCondBranch(w, pc, source, destination)
            else if IsAdrp(w) then RelocateAdrp(w, pc, source, destination)
            else w
  {
    hide RelocateBranch, RelocateCondBranch, RelocateAdrp;
  }

  // --- What a word means, and what it should mean after the move ---

  /** `Relative` stands for the other pc-relative instructions (compare-and-branch,
      test-and-branch, literal loads, ADR), `Indirect` for branches to an address held in
      a register, `Plain` for all that neither look at pc nor set it. */
  datatype Instruction =
    | Jump(link: bool, target: U64)
    | CondJump(cond: nat, target: U64)
    | Page(rd: nat, page: U64)
    | Relative(word: U32, target: U64)
    | Indirect(word: U32)
    | Plain(word: U32)

  predicate IsCompareBranch(w: U32) { w / 0x200_0000 % 64 == 0x1A }                        // CBZ, CBNZ
  predicate IsTestBranch(w: U32) { w / 0x200_0000 % 64 == 0x1B }                           // TBZ, TBNZ
  predicate IsLoadLiteral(w: U32) { w / 0x800_0000 % 8 == 3 && w / 0x100_0000 % 4 == 0 }   // LDR (literal)
  predicate IsAdr(w: U32) { w / 0x8000_0000 == 0 && w / 0x100_0000 % 32 == 16 }            // ADR

  predicate IsIndirect(w: U32) { w / 0x200_0000 == 0x6B }                                  // BR, BLR, RET, ERET

  function RelativeOffset(w: U32): int {
    if IsTestBranch(w) then 4 * Signed(w / 32 % 0x4000, 0x2000)
    else if IsAdr(w) then Signed(PageCount(w), 0x10_0000)
    else CondOffset(w)
  }

  function Decode(w: U32, pc: U64): Instruction {
    if IsBranch(w) then Jump(w / 0x8000_0000 == 1, BranchTarget(w, pc))
    else if IsCondBranch(w) then CondJump(w % 16, CondTarget(w, pc))
    else if IsAdrp(w) then Page(w % 32, PageTarget(w, pc))
    else if IsCompareBranch(w) || IsTestBranch(w) || IsLoadLiteral(w) || IsAdr(w) then
      Relative(w, Wrap(pc + RelativeOffset(w)))
    else if IsIndirect(w) then Indirect(w)
    else Plain(w)
  }

  function MovedCode(a: U64, source: Layout, destination: Layout): U64 {
    if Inside(a, source.code, source.codeSize) then Wrap(a - source.code + destination.code) else a
  }

  function MovedData(a: U64, source: Layout, destination: Layout): U64 {
    if Inside(a, source.data, source.dataSize) then Wrap(a - source.data + destination.data) else a
  }

  /** Targets in the code move with the code, pages of the data with the data, and
      everything else stays where it is. */
  function Moved(i: Instruction, source: Layout, destination: Layout): Instruction {
    match i
    case Jump(link, target) => Jump(link, MovedCode(target, source, destination))
    case CondJump(cond, target) => CondJump(cond, MovedCode(target, source, destination))
    case Page(rd, page) => Page(rd, MovedData(page, source, destination))
    case Relative(word, target) => Relative(word, MovedCode(target, source, destination))
    case Indirect(word) => Indirect(word)
    case Plain(word) => Plain(word)
  }

  /** The address the instruction at `pc` moves to. */
  function NewPc(pc: U64, source: Layout, destination: Layout): U64 {
    Wrap(pc - source.code + destination.code)
  }

  /** The page an ADRP names, as the relocator reads it. */
  function PageRead(w: U32, pc: U64): U64 { Wrap(PageBase(pc) + PageOffsetRead(w)) }

  /** An ADRP in the page at `p` can name `t`. */
  predicate Reaches(t: U64, p: U64) {
    Distance(t, p) % 0x1000 == 0 && -0x1_0000_0000 <= Distance(t, p) < 0x1_0000_0000
  }

  /** What the relocator can do for one word, in terms a caller can check: targets
      inside the code are safe; branches out of it must still reach, conditional
      branches and the other pc-relative ones must not leave it (but for the odd
      b.eq to its own new place, or no move at all).  What ADRP names must, if the
      relocator reads it as a page of the data, come to lie a whole number of pages away
      and within 4 GB, and a misreading must be made up for by how far the data moves;
      else it must move exactly as the page of the instruction does. */
  predicate Survives(w: U32, pc: U64, source: Layout, destination: Layout) {
    var pc' := NewPc(pc, source, destination);
    if IsBranch(w) then
      var t := BranchTarget(w, pc);
      Inside(t, source.code, source.codeSize)
      || (Distance(t, pc') % 4 == 0 && -0x800_0000 <= Distance(t, pc') < 0x800_0000)
    else if IsCondBranch(w) then
      var t := CondTarget(w, pc);
      Inside(t, source.code, source.codeSize) || (t == pc' && w % 16 == 0)
    else if IsAdrp(w) then
      var t, read := PageTarget(w, pc), PageRead(w, pc);
      var want := MovedData(t, source, destination);
      if InRange(read, source.data, source.dataSize) then
        Reaches(want, PageOf(pc')) && Wrap(MovedData(read, source, destination) - want) % 0x2_0000_0000 < 0x1000
      else Wrap(want - t) == Wrap(PageOf(pc') - PageOf(pc))
    else if IsCompareBranch(w) || IsTestBranch(w) || IsLoadLiteral(w) || IsAdr(w) then
      Inside(Wrap(pc + RelativeOffset(w)), source.code, source.codeSize) || pc' == pc
    else true
  }

  predicate Preserved(w: U32, pc: U64, source: Layout, destination: Layout) {
    Decode(Relocate(w, pc, source, destination), NewPc(pc, source, destination))
    == Moved(Decode(w, pc), source, destination)
  }

  /** An address in the code, in code that does not run past the end of the address space. */
  predicate Placed(pc: U64, source: Layout) {
    source.code <= pc < source.code + source.codeSize < 0x1_0000_0000_0000_0000
  }

  lemma WrapTwice(a: int, b: int)
    ensures Wrap(Wrap(a) + b) == Wrap(a + b)
  {
    hide Wrap;
    var k := WrapOf(a);
    WrapSame(Wrap(a) + b, a + b, -k);
  }

  /** A target moves by as much as the instruction that names it. */
  lemma MovesAlong(pc: U64, off: int, from: U64, to: U64)
    ensures Wrap(Wrap(pc - from + to) + off) == Wrap(Wrap(pc + off) - from + to)
  {
    hide Wrap;
    WrapTwice(pc - from + to, off);
    WrapTwice(pc + off, to - from);
  }

  lemma SameOffset(a: U64, b: U64, off: int)
    ensures Wrap(a + off) == Wrap(b + off) <==> a == b
  {
    hide Wrap;
    var i := WrapOf(a + off);
    var j := WrapOf(b + off);
  }

  lemma MovedPcIsNewPc(pc: U64, source: Layout, destination: Layout)
    requires Placed(pc, source)
    ensures MovedPc(pc, source, destination) == NewPc(pc, source, destination)
    ensures Wrap(destination.code + Wrap(pc - source.code)) == NewPc(pc, source, destination)
    ensures NewPc(pc, source, destination) == Wrap(pc - source.code + destination.code)
  {
    var offset := pc - source.code;
    WrapIs(offset, offset, 0);
    DivModIs(offset, 0x1_0000_0000, 0, offset);
    hide Wrap;
  }

  /** A branch target outside the code, re-encoded for the new place. */
  lemma ExternalBranch(w: U32, t: U64, pc': U64)
    requires IsBranch(w)
    ensures var out := WithBranch(w, Wrap(t - pc'));
            && IsBranch(out) && out / 0x8000_0000 == w / 0x8000_0000
            && (BranchTarget(out, pc') == t <==>
                Distance(t, pc') % 4 == 0 && -0x800_0000 <= Distance(t, pc') < 0x800_0000)
  {
    hide Wrap, WithBranch, IsBranch, Distance;
    var out := WithBranch(w, Wrap(t - pc'));
    BranchEncodes(w, Wrap(t - pc'));
    SameClass(w, out);
    BranchOffsetRange(out);
    hide BranchOffset;
    WrapAdd(pc', BranchOffset(out), t);
    DistanceMod4(t, pc');
    DistanceIs(t, pc');
  }

  lemma DistanceIs(t: U64, p: U64)
    ensures Distance(t, p) == Signed(Wrap(t - p), 0x8000_0000_0000_0000)
  {
  }

  lemma BranchOffsetRange(w: U32)
    ensures -0x800_0000 <= BranchOffset(w) < 0x800_0000
  {
  }

  lemma SameClass(w: U32, out: U32)
    requires out / 0x400_0000 == w / 0x400_0000
    ensures IsBranch(out) == IsBranch(w) && out / 0x8000_0000 == w / 0x8000_0000
  {
    TopBit(w);
    TopBit(out);
  }

  lemma TopBit(w: U32)
    ensures w / 0x8000_0000 == w / 0x400_0000 / 32
  {
    var a := w / 0x400_0000;
    DivModIs(w, 0x8000_0000, a / 32, a % 32 * 0x400_0000 + w % 0x400_0000);
  }

  lemma DistanceMod4(t: U64, pc': U64)
    ensures Distance(t, pc') % 4 == 0 <==> Wrap(t - pc') % 4 == 0
  {
    var d := Wrap(t - pc');
    SameUnits(d, Distance(t, pc'), if d < 0x8000_0000_0000_0000 then 0 else 1);
    hide Wrap;
  }

  lemma BranchPreserved(w: U32, pc: U64, source: Layout, destination: Layout)
    requires Placed(pc, source) && IsBranch(w)
    ensures Decode(RelocateBranch(w, pc, source, destination), NewPc(pc, source, destination))
            == Moved(Decode(w, pc), source, destination)
       <==> Survives(w, pc, source, destination)
  {
    hide Wrap, WithBranch, BranchOffset, BranchOffsetRead, Distance, IsBranch, MovedPc, NewPc, InRange, Inside;
    hide IsAdrp, IsCompareBranch, IsTestBranch, IsLoadLiteral, IsAdr;
    BranchReadExactly(w);
    InRangeExactly(BranchTarget(w, pc), source.code, source.codeSize);
    var t, pc' := BranchTarget(w, pc), NewPc(pc, source, destination);
    MovedPcIsNewPc(pc, source, destination);
    MovesAlong(pc, BranchOffset(w), source.code, destination.code);
    ExternalBranch(w, t, pc');
  }

  /** A conditional branch out of the code, re-encoded as if it were a B. */
  lemma ExternalCond(w: U32, t: U64, pc': U64)
    requires IsCondBranch(w)
    ensures var out := WithBranch(w, Wrap(t - pc'));
            Decode(out, pc') == CondJump(w % 16, t) <==> t == pc' && w % 16 == 0
  {
    var d := Wrap(t - pc');
    var out := WithBranch(w, d);
    CondClass(w, d);
    CondSelf(w);
    NoDistance(t, pc');
    hide Wrap, WithBranch, IsCondBranch, IsBranch, IsAdrp, IsCompareBranch, IsTestBranch, IsLoadLiteral, IsAdr, IsIndirect;
    DistanceIs(t, pc');
    CondOffsetRange(out);
    hide CondOffset, Signed, Distance;
    if IsCondBranch(out) {
      WrapAdd(pc', CondOffset(out), t);
      CondMisencoded(w, d);
    }
  }

  lemma NoDistance(t: U64, p: U64)
    ensures Wrap(t - p) == 0 <==> t == p
  {
    hide Wrap;
    var k := WrapOf(t - p);
    if t == p {
      WrapIs(0, 0, 0);
    }
  }

  /** Whatever it turns into, it is no branch, ADRP or plain word if it kept its class. */
  lemma CondClass(w: U32, d: U64)
    requires IsCondBranch(w)
    ensures !IsBranch(WithBranch(w, d))
    ensures !IsCondBranch(WithBranch(w, d)) ==> !Decode(WithBranch(w, d), 0).CondJump?
  {
    hide WithBranch;
    CondClassBits(w);
    BranchFields(w, d);
  }

  lemma CondSelf(w: U32)
    requires IsCondBranch(w)
    ensures IsCondBranch(WithBranch(w, 0))
  {
    CondClassBits(w);
    BranchFields(w, 0);
    CondFields(WithBranch(w, 0), 0);
  }

  lemma CondMisencoded(w: U32, d: U64)
    requires IsCondBranch(w) && IsCondBranch(WithBranch(w, d))
    ensures WithBranch(w, d) % 16 == w % 16 && CondOffset(WithBranch(w, d)) == Signed(d, 0x8000_0000_0000_0000)
       <==> d == 0 && w % 16 == 0
  {
    var s := SignedMod4(d);
    CondOffsetRange(WithBranch(w, d));
    hide IsCondBranch, WithBranch, CondOffset, Signed;
    if d % 4 == 0 && -0x10_0000 <= s < 0x10_0000 {
      CondMisencodes(w, d);
    }
  }

  lemma SignedMod4(d: U64) returns (s: int)
    ensures s == Signed(d, 0x8000_0000_0000_0000) && d % 4 == s % 4 && (d == 0 ==> s == 0)
  {
    s := Signed(d, 0x8000_0000_0000_0000);
    SameUnits(d, s, if d < 0x8000_0000_0000_0000 then 0 else 1);
  }

  lemma CondOffsetRange(w: U32)
    ensures CondOffset(w) % 4 == 0 && -0x10_0000 <= CondOffset(w) < 0x10_0000
  {
    var v := Signed(w / 32 % 0x8_0000, 0x4_0000);
    DivModIs(4 * v, 4, v, 0);
  }

  lemma CondPreserved(w: U32, pc: U64, source: Layout, destination: Layout)
    requires Placed(pc, source) && IsCondBranch(w) && !IsBranch(w)
    ensures Decode(RelocateCondBranch(w, pc, source, destination), NewPc(pc, source, destination))
            == Moved(Decode(w, pc), source, destination)
       <==> Survives(w, pc, source, destination)
  {
    hide Wrap, WithBranch, CondOffset, CondOffsetRead, IsCondBranch, IsBranch, MovedPc, NewPc, InRange, Inside;
    hide IsAdrp, IsCompareBranch, IsTestBranch, IsLoadLiteral, IsAdr;
    CondReadExactly(w);
    InRangeExactly(CondTarget(w, pc), source.code, source.codeSize);
    var t, pc' := CondTarget(w, pc), NewPc(pc, source, destination);
    MovedPcIsNewPc(pc, source, destination);
    MovesAlong(pc, CondOffset(w), source.code, destination.code);
    ExternalCond(w, t, pc');
  }

  lemma LowPage(y: int, k: int, r: nat)
    requires y == k * 0x2_0000_0000 + r && r < 0x2_0000_0000
    ensures y / 0x1000 == k * 0x20_0000 + r / 0x1000
    ensures r < 0x1000 <==> y / 0x1000 % 0x20_0000 == 0
  {
    DivModIs(y, 0x1000, k * 0x20_0000 + r / 0x1000, r % 0x1000);
    DivModIs(k * 0x20_0000 + r / 0x1000, 0x20_0000, k, r / 0x1000);
  }

  lemma PageMultiple(x: int, q: int)
    ensures (x - 0x1000 * q) % 0x2_0000_0000 < 0x1000 <==> (x / 0x1000 - q) % 0x20_0000 == 0
  {
    var y := x - 0x1000 * q;
    DivModIs(y, 0x1000, x / 0x1000 - q, x % 0x1000);
    LowPage(y, y / 0x2_0000_0000, y % 0x2_0000_0000);
  }

  lemma SameResidue(a: int, q: int)
    ensures (a - q) % 0x20_0000 == 0 <==> a % 0x20_0000 == q % 0x20_0000
  {
    if (a - q) % 0x20_0000 == 0 {
      DivModIs(a, 0x20_0000, q / 0x20_0000 + (a - q) / 0x20_0000, q % 0x20_0000);
    } else if a % 0x20_0000 == q % 0x20_0000 {
      DivModIs(a - q, 0x20_0000, a / 0x20_0000 - q / 0x20_0000, 0);
    }
  }

  /** What an ADRP made for the address `m` names from the page `p`. */
  lemma PageNames(w: U32, m: U64, p: U64, want: U64)
    ensures PageOffset(WithPage(w, Wrap(m - p))) == Distance(want, p)
       <==> Reaches(want, p) && Wrap(m - want) % 0x2_0000_0000 < 0x1000
  {
    hide WithPage, PageCount, Wrap, Signed, Distance;
    var x, q := Wrap(m - p), Distance(want, p) / 0x1000;
    PageFields(w, x);
    SignedIs(x / 0x1000 % 0x20_0000, 0x10_0000, q);
    MultipleOnly(Signed(x / 0x1000 % 0x20_0000, 0x10_0000), 0x1000, q, Distance(want, p) % 0x1000);
    PageMultiple(x, q);
    SameResidue(x / 0x1000, q);
    if Distance(want, p) % 0x1000 == 0 {
      PageDistance(m, p, want, x, q);
    }
  }

  lemma PageDistance(m: U64, p: U64, want: U64, x: int, q: int)
    requires x == Wrap(m - p) && Distance(want, p) == 0x1000 * q
    ensures Wrap(m - want) % 0x2_0000_0000 == (x - 0x1000 * q) % 0x2_0000_0000
  {
    hide Wrap;
    var i := WrapOf(m - want);
    var j := WrapOf(m - p);
    var k := WrapOf(want - p);
    var s := if Wrap(want - p) < 0x8000_0000_0000_0000 then 0 else 1;
    assert Wrap(m - want) == x - 0x1000 * q + (j - k - s - i) * 0x1_0000_0000_0000_0000;
    SameLow(Wrap(m - want), x - 0x1000 * q, j - k - s - i);
  }

  lemma SameLow(a: int, b: int, k: int)
    requires a == b + k * 0x1_0000_0000_0000_0000
    ensures a % 0x2_0000_0000 == b % 0x2_0000_0000
  {
    DivModIs(a, 0x2_0000_0000, b / 0x2_0000_0000 + k * 0x8000_0000, b % 0x2_0000_0000);
  }

  lemma ExternalPage(w: U32, m: U64, pc': U64, want: U64)
    requires IsAdrp(w)
    ensures var out := WithPage(w, Wrap(m - PageOf(pc')));
            && IsAdrp(out) && out % 32 == w % 32
            && (PageTarget(out, pc') == want <==>
                Reaches(want, PageOf(pc')) && Wrap(m - want) % 0x2_0000_0000 < 0x1000)
  {
    hide WithPage, PageOffset, PageOf, Wrap, Reaches, Distance;
    var d := Wrap(m - PageOf(pc'));
    PageFields(w, d);
    PageNames(w, m, PageOf(pc'), want);
    PageOffsetRange(WithPage(w, d));
    WrapAdd(PageOf(pc'), PageOffset(WithPage(w, d)), want);
  }

  lemma PageOffsetRange(w: U32)
    ensures -0x1_0000_0000 <= PageOffset(w) < 0x1_0000_0000
  {
    PageCountRange(w);
    hide PageCount;
  }

  lemma AdrpNoBranch(w: U32)
    requires IsAdrp(w)
    ensures !IsBranch(w) && !IsCondBranch(w)
  {
    var a := w / 0x100_0000;
    DivModIs(w, 0x400_0000, a / 4, a % 4 * 0x100_0000 + w % 0x100_0000);
    NotBranchBits(a);
  }

  lemma NotBranchBits(a: nat)
    requires a % 32 == 16
    ensures a / 4 % 32 != 5 && a != 0x54
  {
    var c := a / 4;
    if c % 32 == 5 {
      DivModIs(a, 32, 4 * (c / 32), 20 + a % 4);
    }
  }

  lemma AdrpPreserved(w: U32, pc: U64, source: Layout, destination: Layout)
    requires Placed(pc, source) && IsAdrp(w)
    ensures Decode(RelocateAdrp(w, pc, source, destination), NewPc(pc, source, destination))
            == Moved(Decode(w, pc), source, destination)
       <==> Survives(w, pc, source, destination)
  {
    hide RelocateAdrp, Wrap, WithPage, IsAdrp, IsBranch, IsCondBranch, InRange, PageOf, NewPc, Placed, MovedData, PageRead, Reaches,
         PageTarget, PageOffset, IsCompareBranch, IsTestBranch, IsLoadLiteral, IsAdr, IsIndirect;
    RelocatedAdrp(w, pc, source, destination);
    AdrpNoBranch(w);
    if InRange(PageRead(w, pc), source.data, source.dataSize) {
      AdrpReencoded(w, pc, source, destination);
    } else {
      AdrpKept(w, pc, source, destination);
    }
  }

  lemma AdrpReencoded(w: U32, pc: U64, source: Layout, destination: Layout)
    requires IsAdrp(w)
    ensures var m, want := MovedData(PageRead(w, pc), source, destination), MovedData(PageTarget(w, pc), source, destination);
      var pc' := NewPc(pc, source, destination);
      (Decode(WithPage(w, Wrap(m - PageOf(pc'))), pc') == Page(w % 32, want)
       <==> Reaches(want, PageOf(pc')) && Wrap(m - want) % 0x2_0000_0000 < 0x1000)
  {
    var m, want := MovedData(PageRead(w, pc), source, destination), MovedData(PageTarget(w, pc), source, destination);
    var pc' := NewPc(pc, source, destination);
    hide Wrap, WithPage, IsAdrp, IsBranch, IsCondBranch, PageOf, NewPc, MovedData, PageRead, Reaches, PageTarget;
    ExternalPage(w, m, pc', want);
    AdrpNoBranch(WithPage(w, Wrap(m - PageOf(pc'))));
  }

  lemma AdrpKept(w: U32, pc: U64, source: Layout, destination: Layout)
    requires IsAdrp(w)
    ensures var t, want := PageTarget(w, pc), MovedData(PageTarget(w, pc), source, destination);
            var pc' := NewPc(pc, source, destination);
            Decode(w, pc') == Page(w % 32, want) <==> Wrap(want - t) == Wrap(PageOf(pc') - PageOf(pc))
  {
    hide Wrap, IsAdrp, IsBranch, IsCondBranch, PageOf, NewPc, MovedData, PageOffset,
         IsCompareBranch, IsTestBranch, IsLoadLiteral, IsAdr, IsIndirect;
    var want, pc' := MovedData(PageTarget(w, pc), source, destination), NewPc(pc, source, destination);
    AdrpNoBranch(w);
    StaysPut(PageOf(pc), PageOf(pc'), PageOffset(w), want);
  }

  /** The same displacement from another page. */
  lemma StaysPut(p: U64, p': U64, off: int, want: U64)
    ensures Wrap(p' + off) == want <==> Wrap(want - Wrap(p + off)) == Wrap(p' - p)
  {
    hide Wrap;
    var i := WrapOf(p + off);
    var j := WrapOf(p' + off);
    var h := WrapOf(want - Wrap(p + off));
    var k := WrapOf(p' - p);
    if Wrap(p' + off) == want {
      WrapSame(want - Wrap(p + off), p' - p, i - j);
    } else if Wrap(want - Wrap(p + off)) == Wrap(p' - p) {
      WrapIs(p' + off, want, i + k - h);
    }
  }

  lemma RelocatedAdrp(w: U32, pc: U64, source: Layout, destination: Layout)
    requires Placed(pc, source) && IsAdrp(w)
    ensures var read, pc' := PageRead(w, pc), NewPc(pc, source, destination);
            RelocateAdrp(w, pc, source, destination) ==
              if InRange(read, source.data, source.dataSize) then
                WithPage(w, Wrap(MovedData(read, source, destination) - PageOf(pc')))
              else w
  {
    hide WithPage, PageOffset, PageOffsetRead, PageOf, PageBase, InRange, Inside, Wrap, NewPc, IsAdrp;
    MovedPcIsNewPc(pc, source, destination);
    InRangeExactly(PageRead(w, pc), source.data, source.dataSize);
    PageBaseIs(NewPc(pc, source, destination));
    WrapTwice(PageRead(w, pc) - source.data, destination.data);
  }

  lemma CopyPreserved(w: U32, pc: U64, source: Layout, destination: Layout)
    requires Placed(pc, source) && !IsBranch(w) && !IsCondBranch(w) && !IsAdrp(w)
    ensures Decode(w, NewPc(pc, source, destination)) == Moved(Decode(w, pc), source, destination)
       <==> Survives(w, pc, source, destination)
  {
    MovesAlong(pc, RelativeOffset(w), source.code, destination.code);
    SameOffset(NewPc(pc, source, destination), pc, RelativeOffset(w));
    hide Wrap, RelativeOffset, IsBranch, IsCondBranch, IsAdrp, IsCompareBranch, IsTestBranch, IsLoadLiteral, IsAdr, Inside;
  }

  /** For every word and every layout: the emitted word means at its new place what the
      original meant at the old one, moved along, exactly if the word survives. */
  lemma PreservedExactly(w: U32, pc: U64, source: Layout, destination: Layout)
    requires Placed(pc, source)
    ensures Preserved(w, pc, source, destination) <==> Survives(w, pc, source, destination)
  {
    TableOrder(w, pc, source, destination);
    hide Relocate, Survives, Decode, Moved, RelocateBranch, RelocateCondBranch, RelocateAdrp;
    if IsBranch(w) {
      BranchPreserved(w, pc, source, destination);
    } else if IsCondBranch(w) {
      CondPreserved(w, pc, source, destination);
    } else if IsAdrp(w) {
      AdrpPreserved(w, pc, source, destination);
    } else {
      CopyPreserved(w, pc, source, destination);
    }
  }

  // --- Whole programs ---

  function PcOf(l: Layout, i: nat): U64 { Wrap(l.code + 4 * i) }

  /** `relocate_code`: word by word from the source base to the destination base. */
  method RelocateCode(dst: array<U32>, src: array<U32>, size: U32, source: Layout, destination: Layout)
    requires dst != src && size / 4 <= src.Length && size / 4 <= dst.Length
    requires source.codeSize == size
    modifies dst
    ensures forall i {:trigger dst[i]} :: 0 <= i < dst.Length ==>
              dst[i] == if i < size / 4 then Relocate(src[i], PcOf(source, i), source, destination) else old(dst[i])
  {
    hide Relocate;
    var count := size / 4;
    for i := 0 to count
      invariant forall j {:trigger dst[j]} :: 0 <= j < dst.Length ==>
        dst[j] == if j < i then Relocate(src[j], PcOf(source, j), source, destination) else old(dst[j])
    {
      dst[i] := Relocate(src[i], PcOf(source, i), source, destination);
    }
  }

  /** Where execution goes: to a word of the code, off its end, or to an address that
      is no word of the code. */
  datatype Outcome = At(index: nat) | Ended | Left(address: U64)

  function Land(n: nat, l: Layout, t: U64): Outcome {
    if Inside(t, l.code, l.codeSize) && (t - l.code) % 4 == 0 && (t - l.code) / 4 < n then At((t - l.code) / 4)
    else Left(t)
  }

  function FallThrough(n: nat, i: nat): Outcome {
    if i + 1 < n then At(i + 1) else Ended
  }

  /** What an instruction may depend on besides its own word: how a condition turns out,
      and the address that a register holds. */
  datatype Choice = Choice(taken: bool, address: U64)

  /** One instruction. */
  function Execute(n: nat, l: Layout, i: nat, instruction: Instruction, choice: Choice): Outcome {
    match instruction
    case Jump(_, t) => Land(n, l, t)
    case CondJump(_, t) => if choice.taken then Land(n, l, t) else FallThrough(n, i)
    case Relative(w, t) =>
      if choice.taken && (IsCompareBranch(w) || IsTestBranch(w)) then Land(n, l, t) else FallThrough(n, i)
    case Indirect(_) => Land(n, l, choice.address)
    case Page(_, _) => FallThrough(n, i)
    case Plain(_) => FallThrough(n, i)
  }

  /** The instructions executed from word `i` on, and where that ends. */
  function Run(code: seq<U32>, l: Layout, i: nat, choices: seq<Choice>): (seq<Instruction>, Outcome)
    requires i < |code|
    decreases choices
  {
    if choices == [] then ([], At(i))
    else
      var instruction := Decode(code[i], PcOf(l, i));
      match Execute(|code|, l, i, instruction, choices[0])
      case At(j) =>
        if j < |code| then
          var (rest, out) := Run(code, l, j, choices[1..]);
          ([instruction] + rest, out)
        else ([instruction], At(j))
      case Ended => ([instruction], Ended)
      case Left(t) => ([instruction], Left(t))
  }

  function MovedAll(trace: seq<Instruction>, source: Layout, destination: Layout): seq<Instruction> {
    seq(|trace|, k requires 0 <= k < |trace| => Moved(trace[k], source, destination))
  }

  function MovedOutcome(out: Outcome, source: Layout, destination: Layout): Outcome {
    if out.Left? then Left(MovedCode(out.address, source, destination)) else out
  }

  /** An address outside the code is not where the code is being moved to either. */
  predicate Clear(t: U64, source: Layout, destination: Layout) {
    !Inside(t, source.code, source.codeSize) ==> !Inside(t, destination.code, destination.codeSize)
  }

  predicate ClearOf(instruction: Instruction, source: Layout, destination: Layout) {
    instruction.Jump? || instruction.CondJump? || instruction.Relative? ==> Clear(instruction.target, source, destination)
  }

  /** A register that holds an address of the code holds its new address after the move. */
  function MovedChoice(choice: Choice, source: Layout, destination: Layout): Choice {
    choice.(address := MovedCode(choice.address, source, destination))
  }

  function MovedChoices(choices: seq<Choice>, source: Layout, destination: Layout): seq<Choice> {
    seq(|choices|, k requires 0 <= k < |choices| => MovedChoice(choices[k], source, destination))
  }

  /** So does the link register: what BL at word `i` leaves in it is, after the move, what
      the moved BL leaves. */
  lemma LinkMoves(i: nat, source: Layout, destination: Layout)
    requires source.code + source.codeSize < 0x1_0000_0000_0000_0000 && 4 * (i + 1) < source.codeSize
    ensures MovedCode(Wrap(PcOf(source, i) + 4), source, destination) == Wrap(PcOf(destination, i) + 4)
  {
    hide Wrap;
    var next := source.code + 4 * i + 4;
    WrapIs(source.code + 4 * i, source.code + 4 * i, 0);
    WrapIs(next, next, 0);
    WrapIs(source.code + source.codeSize, source.code + source.codeSize, 0);
    WrapTwice(destination.code + 4 * i, 4);
  }

  ghost predicate Relocatable(code: seq<U32>, source: Layout, destination: Layout) {
    && source.codeSize == destination.codeSize && 4 * |code| <= source.codeSize
    && source.code + source.codeSize < 0x1_0000_0000_0000_0000
    && destination.code + destination.codeSize < 0x1_0000_0000_0000_0000
    && forall i {:trigger code[i]} :: 0 <= i < |code| ==>
         && Placed(PcOf(source, i), source)
         && Survives(code[i], PcOf(source, i), source, destination)
         && ClearOf(Decode(code[i], PcOf(source, i)), source, destination)
  }

  lemma LandMoves(n: nat, t: U64, source: Layout, destination: Layout)
    requires source.codeSize == destination.codeSize
    requires source.code + source.codeSize < 0x1_0000_0000_0000_0000
    requires destination.code + destination.codeSize < 0x1_0000_0000_0000_0000
    requires Clear(t, source, destination)
    ensures Land(n, destination, MovedCode(t, source, destination)) == MovedOutcome(Land(n, source, t), source, destination)
  {
    WrapIs(source.code + source.codeSize, source.code + source.codeSize, 0);
    WrapIs(destination.code + destination.codeSize, destination.code + destination.codeSize, 0);
    if Inside(t, source.code, source.codeSize) {
      var moved := t - source.code + destination.code;
      WrapIs(moved, moved, 0);
    }
    hide Wrap;
  }

  lemma WordMoves(code: seq<U32>, source: Layout, destination: Layout, i: nat)
    requires Relocatable(code, source, destination) && i < |code|
    ensures Decode(Relocate(code[i], PcOf(source, i), source, destination), PcOf(destination, i))
         == Moved(Decode(code[i], PcOf(source, i)), source, destination)
  {
    NewPcOf(source, destination, i);
    hide Decode, Relocate, Moved, Survives, Placed, PcOf, NewPc, ClearOf;
    assert Survives(code[i], PcOf(source, i), source, destination);
    PreservedExactly(code[i], PcOf(source, i), source, destination);
  }

  lemma NewPcOf(source: Layout, destination: Layout, i: nat)
    ensures NewPc(PcOf(source, i), source, destination) == PcOf(destination, i)
  {
    hide Wrap;
    WrapTwice(source.code + 4 * i, destination.code - source.code);
  }

  lemma ExecuteMoves(code: seq<U32>, source: Layout, destination: Layout, i: nat, choice: Choice)
    requires Relocatable(code, source, destination) && i < |code| && Clear(choice.address, source, destination)
    ensures var instruction := Decode(code[i], PcOf(source, i));
            Execute(|code|, destination, i, Moved(instruction, source, destination), MovedChoice(choice, source, destination))
            == MovedOutcome(Execute(|code|, source, i, instruction, choice), source, destination)
  {
    var instruction := Decode(code[i], PcOf(source, i));
    if instruction.Jump? || instruction.CondJump? || instruction.Relative? {
      assert Clear(instruction.target, source, destination);
      LandMoves(|code|, instruction.target, source, destination);
    }
    LandMoves(|code|, choice.address, source, destination);
    hide Decode, Land, MovedCode, Survives, Placed, Inside, PcOf;
  }

  lemma MovedCons(head: Instruction, tail: seq<Instruction>, source: Layout, destination: Layout)
    ensures MovedAll([head] + tail, source, destination)
         == [Moved(head, source, destination)] + MovedAll(tail, source, destination)
    ensures MovedAll([head], source, destination) == [Moved(head, source, destination)]
  {
    hide Moved;
  }

  lemma ChoicesCons(choices: seq<Choice>, source: Layout, destination: Layout)
    requires choices != []
    ensures MovedChoices(choices, source, destination) != []
    ensures MovedChoices(choices, source, destination)[0] == MovedChoice(choices[0], source, destination)
    ensures MovedChoices(choices, source, destination)[1..] == MovedChoices(choices[1..], source, destination)
  {
    hide MovedChoice;
  }

  /** Relocation preserves meaning: the relocated program, run at its new place with
      the same conditions and the moved register contents, executes the moved counterpart
      of every instruction the original executes, and ends where the original ends, moved
      along. */
  lemma {:induction false} RelocationPreservesRuns(code: seq<U32>, moved: seq<U32>, source: Layout, destination: Layout,
                                                   i: nat, choices: seq<Choice>)
    requires Relocatable(code, source, destination) && |moved| == |code| && i < |code|
    requires forall k {:trigger moved[k]} :: 0 <= k < |code| ==>
               moved[k] == Relocate(code[k], PcOf(source, k), source, destination)
    requires forall k :: 0 <= k < |choices| ==> Clear(choices[k].address, source, destination)
    ensures var (trace, out) := Run(code, source, i, choices);
            Run(moved, destination, i, MovedChoices(choices, source, destination))
            == (MovedAll(trace, source, destination), MovedOutcome(out, source, destination))
    decreases choices
  {
    hide Relocatable, Decode, Relocate, Execute, Moved, PcOf, MovedChoices, MovedChoice, Clear;
    if choices == [] {
      assert MovedAll([], source, destination) == [];
      NoChoices(source, destination);
    } else {
      ChoicesCons(choices, source, destination);
      WordMoves(code, source, destination, i);
      ExecuteMoves(code, source, destination, i, choices[0]);
      assert moved[i] == Relocate(code[i], PcOf(source, i), source, destination);
      var instruction := Decode(code[i], PcOf(source, i));
      var next := Execute(|code|, source, i, instruction, choices[0]);
      if next.At? && next.index < |code| {
        RelocationPreservesRuns(code, moved, source, destination, next.index, choices[1..]);
        MovedCons(instruction, Run(code, source, next.index, choices[1..]).0, source, destination);
      } else {
        MovedCons(instruction, [], source, destination);
      }
    }
  }

  lemma NoChoices(source: Layout, destination: Layout)
    ensures MovedChoices([], source, destination) == []
  {
  }
}
