/** Paging constants, the kernel's direct map of physical memory, and
    page-table entries as a physical page number plus named flags.
    The numeric values are those of xv6's memlayout.h and mmu.h for 32-bit x86;
    neither header is part of this model. */
module Mmu {

  const PGSIZE: nat := 4096
  /** First kernel virtual address; physical address pa is mapped at pa + KERNBASE. */
  const KERNBASE: nat := 0x8000_0000
  /** Top of physical memory. */
  const PHYSTOP: nat := 0xE00_0000
  /** Number of physical frames, the length of ref_count[]. */
  const NFRAME: nat := PHYSTOP / PGSIZE

  /** A kernel virtual address whose physical address lies below PHYSTOP. */
  predicate InPhys(v: nat) {
    KERNBASE <= v && v - KERNBASE < PHYSTOP
  }

  function V2P(v: nat): nat
    requires KERNBASE <= v
  {
    v - KERNBASE
  }

  function P2V(pa: nat): nat {
    pa + KERNBASE
  }

  /** The frame number pa / PGSIZE of a kernel virtual address. */
  function FrameOf(v: nat): (f: nat)
    requires InPhys(v)
    ensures f < NFRAME
  {
    V2P(v) / PGSIZE
  }

  /** PGROUNDUP: the least page boundary at or above a. */
  function PgRoundUp(a: nat): (r: nat)
    ensures r % PGSIZE == 0 && a <= r < a + PGSIZE
  {
    (a + PGSIZE - 1) / PGSIZE * PGSIZE
  }

  /** The flag bits of a page-table entry. Present, Writable and User are bits 0-2 of
      the 32-bit x86 PTE; Cow and Zero are the kernel's own software bits; Other
      stands for every remaining low-order bit (write-through, cache-disable,
      accessed, dirty, ...), which the fault resolver carries over unchanged. */
  datatype Flag = Present | Writable | User | Cow | Zero | Other(bit: nat)

  /** A page-table entry: the physical page number (PTE_ADDR / PGSIZE) and the flags. */
  datatype Pte = Pte(ppn: nat, flags: set<Flag>)

  /** PTE_ADDR: the physical address of the mapped frame. */
  function PteAddr(e: Pte): nat {
    e.ppn * PGSIZE
  }

  /** The entry written when a fault is resolved onto a fresh frame: the new frame
      number with the old flags, plus Writable, minus Cow and Zero. */
  function Remapped(ppn: nat, flags: set<Flag>): (e: Pte)
    ensures e.ppn == ppn
    ensures Writable in e.flags && Cow !in e.flags && Zero !in e.flags
    ensures forall f :: f != Writable && f != Cow && f != Zero ==> (f in e.flags <==> f in flags)
  {
    Pte(ppn, flags + {Writable} - {Cow, Zero})
  }

  /** The entry written when a copy-on-write page is promoted in place:
      same frame, plus Writable, minus Cow. */
  function Promoted(e: Pte): (r: Pte)
    ensures r.ppn == e.ppn
    ensures Writable in r.flags && Cow !in r.flags
    ensures forall f :: f != Writable && f != Cow ==> (f in r.flags <==> f in e.flags)
  {
    Pte(e.ppn, e.flags + {Writable} - {Cow})
  }
}
