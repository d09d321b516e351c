/** Physical memory as the kernel's C code sees it through pointers: one 64-bit
    word at every 8-byte aligned byte address.  Words never written read as 0. */
module PhysicalMemory {
  import opened MachineTypes

  type Word = U64

  type Memory = map<nat, Word>

  function Load(m: Memory, a: nat): Word {
    if a in m then m[a] else 0
  }

  /** The effect of `memset((void*)p, 0, n)`. */
  function Zeroed(m: Memory, p: nat, n: nat): Memory {
    map a | a in m :: if p <= a < p + n then 0 else m[a]
  }

  predicate Aligned(a: nat) {
    a % 0x1000 == 0
  }

  /** The byte ranges [p, p+n) and [q, q+m) share no byte. */
  predicate Apart(p: nat, n: nat, q: nat, m: nat) {
    p + n <= q || q + m <= p
  }

  lemma AlignedApart(p: nat, q: nat)
    requires Aligned(p) && Aligned(q) && p != q
    ensures Apart(p, 0x1000, q, 0x1000)
  {
    assert p == p / 0x1000 * 0x1000 && q == q / 0x1000 * 0x1000;
  }
}
