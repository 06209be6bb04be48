# Reference-counted page allocator and copy-on-write fault resolution

This project models the physical-memory core of an xv6-style teaching kernel
for 32-bit x86 and proves properties of the model in Dafny.

- **The page allocator** (`kalloc.dfy`, module `Kalloc`). Free 4096-byte frames
  form a LIFO stack of kernel virtual addresses. Every frame has a count of
  *extra* owners. `kfree` panics on an address that is misaligned, below the
  end of the kernel image, or at or above `PHYSTOP`. Otherwise it drops a
  positive count by one, or else poisons the page with 1-bytes, stores the link
  to the old head in the page's first word, and pushes it. `kalloc` pops the
  head of the stack, or returns 0 when the stack is empty.
  The allocator is stated twice:
  - on values: `KState` and the functions `Alloc`, `Release` and `ReleaseRange`,
    with lemmas about sequences of calls;
  - as the class `Kmem`, whose fields are the free stack, the `ref_count` array,
    the frame contents and a ghost `useLock` flag. Its methods update these in
    place and are proved to follow the functions.
- **The trap dispatcher and page-fault resolver** (`trap.dfy`, module `Trap`).
  A page-table entry (PTE) is a physical page number plus the named flags
  Present, Writable, User, Cow (copy-on-write), Zero (lazy zero-fill) and the
  remaining hardware bits (`mmu.dfy`, module `Mmu`). A page fault, decided in
  order, does one of these:
  - kills the process when the entry is missing, not present, not
    user-accessible or already writable;
  - zero-fills a fresh frame for a Zero entry;
  - copies a still-shared Cow frame into a fresh one and drops one share;
  - makes a no-longer-shared Cow entry writable in place;
  - falls into the dispatcher's default case, which panics in kernel mode and
    kills in user mode.

  `ResolvePageFault` states the resolver on values; `PageFault` runs it
  against a `Kmem`. `Decide` states the rest of `trap()`: the system-call kill
  checks, the timer tick on CPU 0 only, the device cases, the default case and
  the exit epilogue. `Kernel.Trap` runs all of it against the tick counter,
  the allocator and the process's kill flag.

The constants the two files take from headers (`PGSIZE`, `KERNBASE`, `PHYSTOP`,
trap numbers, `DPL_USER`) have xv6's stock values. `memlayout.h`, `mmu.h` and
`traps.h` are not part of this model. The page-fault error code follows section
4.7 of the Intel SDM, volume 3A: bit 0 is set for a protection violation.

Two points of the code are easy to misread:
- The write-fault guard `(err & 1) && (err & 3)` holds exactly when bit 0 is
  set. The comment above it speaks of a write access violation, but neither the
  write bit nor the user bit is tested.
- A fault whose entry has neither Zero nor Cow set (or whose bit 0 is clear) has
  no action of its own. It falls into the `default` case of the switch.

## Model

| member | source | states |
|---|---|---|
| Mmu.FrameOf | kernel/src/kalloc.c:36 | the index `pa / PGSIZE` of an address mapped below PHYSTOP is inside `ref_count[]` |
| Mmu.PgRoundUp | kernel/src/kalloc.c:93 | PGROUNDUP gives the least page boundary at or above its argument |
| Mmu.Remapped | kernel/src/trap.c:128 | the entry written after zero-fill (and after a copy, line 151) maps the given frame, is writable, has Cow and Zero clear, and keeps every other flag |
| Mmu.Promoted | kernel/src/trap.c:162 | the promoted entry keeps its frame, is writable, has Cow clear, and keeps every other flag, Zero included |
| Kalloc.Releasable | kernel/src/kalloc.c:106 | an address that passes kfree's test is mapped below PHYSTOP, is nonzero and fits in 32 bits |
| Kalloc.Word | kernel/src/kalloc.c:121 | the stored link's four bytes are its base-256 digits, least significant first, as x86 stores a pointer |
| Kalloc.WordRoundTrip | kernel/src/kalloc.c:121-139 | reading the link back as kalloc does gives the address that kfree stored |
| Kalloc.Freed | kernel/src/kalloc.c:116-121 | a freed page holds the link in its first word and 1 in every other byte |
| Kalloc.Fill | kernel/src/kalloc.c:116 | `memset(v, b, PGSIZE)` leaves all PGSIZE bytes equal to b |
| Kalloc.Alloc | kernel/src/kalloc.c:131-143 | kalloc returns 0 exactly when the stack is empty, and then changes nothing; otherwise it returns the head, which passes kfree's test, and leaves the tail; counts and memory unchanged; on a stack without duplicates the returned frame is no longer on it |
| Kalloc.Release | kernel/src/kalloc.c:102-125 | kfree panics exactly on a misaligned, below-`end` or beyond-PHYSTOP address; a positive count drops by exactly one, with the stack, memory and other counts unchanged; a count of 0 or less pushes the frame and leaves its page as `Freed` with the old head as link, every other page and count unchanged; non-negative counts stay non-negative; pushing a frame not on a duplicate-free stack keeps it duplicate-free |
| Kalloc.SharedReleases | kernel/src/kalloc.c:111-115 | k kfree calls on a frame with count at least k only lower that count by k; the stack and memory stay as they were |
| Kalloc.ShareGating | kernel/src/kalloc.c:111-122 | a frame with count n that is not free stays off the stack through n kfree calls; the (n+1)-th call puts it on top with count 0, its page poisoned and linking to the old head |
| Kalloc.AllocThenRelease | kernel/src/kalloc.c:102-142 | kfree of the frame kalloc just returned never panics; with count 0 it restores the stack exactly; a duplicate-free stack stays duplicate-free |
| Kalloc.FrameInjective | kernel/src/kalloc.c:106-110 | two addresses that pass kfree's test lie in the same frame only when they are equal |
| Kalloc.ReleaseKeepsLinks | kernel/src/kalloc.c:116-122 | kfree of a frame that is not free keeps every free page's first word linking to the page below it on the stack, the bottom one to 0 |
| Kalloc.AllocKeepsLinks | kernel/src/kalloc.c:137-139 | kalloc keeps that chain, and the head it leaves is the link stored in the page it hands out |
| Kalloc.NotReissued | kernel/src/kalloc.c:137-139 | a frame that is not free is never returned by kalloc in any run of calls that does not kfree it |
| Kalloc.NoDoubleAllocation | kernel/src/kalloc.c:120-139 | once kalloc returns the head of a duplicate-free stack, no later kalloc returns it before a kfree of it |
| Kalloc.PagesFrom | kernel/src/kalloc.c:93-95 | freerange visits p, p + PGSIZE, ... in ascending order, every visited page fits below vend, and the next one would not |
| Kalloc.ReleaseRange | kernel/src/kalloc.c:90-96 | freerange on a well-formed allocator that does not panic leaves it well-formed |
| Kalloc.RangePanics | kernel/src/kalloc.c:90-96 | freerange panics exactly when one of the pages it visits fails kfree's test |
| Kalloc.FreshRange | kernel/src/kalloc.c:90-96 | freerange over frames with count 0 inside the managed range never panics, keeps every count, and stacks the visited pages in reverse order above the old stack |
| Kalloc.Kmem.constructor | kernel/src/kalloc.c:18-30 | at boot the stack is empty, every count is 0 and locking is off |
| Kalloc.Kmem.IncRefCount | kernel/src/kalloc.c:32-41 | `ref_count[pa / PGSIZE]` rises by one and every other entry is unchanged |
| Kalloc.Kmem.DecRefCount | kernel/src/kalloc.c:42-49 | `ref_count[pa / PGSIZE]` drops by one without clamping and every other entry is unchanged |
| Kalloc.Kmem.GetRefCount | kernel/src/kalloc.c:51-67 | returns `ref_count[pa / PGSIZE]` and changes nothing |
| Kalloc.Kmem.Kfree | kernel/src/kalloc.c:102-125 | panics exactly when the address fails the test, leaving the state; otherwise the new state is `Release` of the old |
| Kalloc.Kmem.Kalloc | kernel/src/kalloc.c:131-143 | the returned address and new state are those of `Alloc` on the old state |
| Kalloc.Kmem.PageZero | kernel/src/trap.c:127 | the page at the given address becomes all zero; nothing else changes |
| Kalloc.Kmem.PageCopy | kernel/src/trap.c:150 | the destination page receives the source page's bytes; nothing else changes |
| Kalloc.Kmem.FreeRange | kernel/src/kalloc.c:90-96 | panics exactly when `ReleaseRange` from `PGROUNDUP(vstart)` does; otherwise the new state is its result |
| Kalloc.Kmem.Kinit1 | kernel/src/kalloc.c:74-82 | zeroes every count, leaves locking off, then frees the range |
| Kalloc.Kmem.Kinit2 | kernel/src/kalloc.c:84-88 | frees the range, then turns locking on |
| Trap.WriteFaultGuard | kernel/src/trap.c:107 | `(err & 1) && (err & 3)` holds exactly when error-code bit 0 is set |
| Trap.KilledAtWalk | kernel/src/trap.c:93 | the resolver goes on exactly with an entry that exists, is present, is user-accessible and is not writable |
| Trap.ResolvePageFault | kernel/src/trap.c:82-169 | a missing, non-present, non-user or writable entry kills and changes nothing; bit 0 clear or neither Zero nor Cow falls through unchanged; Zero wins over Cow; zero-fill pops one frame, zeroes it and maps it with W set and Cow, Zero cleared, or kills on exhaustion with nothing changed; a shared Cow frame is copied into one popped frame, remapped the same way, and its count drops by exactly one, or kills on exhaustion with nothing changed; an unshared Cow frame is made writable in place with no allocation and no count change |
| Trap.RefaultKills | kernel/src/trap.c:93-162 | every resolved entry is writable, so a second fault on it is killed at the first test, with no allocation or copy |
| Trap.CowScenario | kernel/src/trap.c:137-165 | A and B share frame p with count 1: A's write copies p into a fresh frame and drops the count to 0; B's write then promotes B's entry in place on p, allocating nothing |
| Trap.PageFault | kernel/src/trap.c:88-169 | the allocator state, entry and outcome after the fault are those of `ResolvePageFault`; the kill flag is set exactly when the outcome is Killed |
| Trap.Switch | kernel/src/trap.c:49-186 | ticks advance only for a timer interrupt on CPU 0; panic exactly for a cause the switch does not handle, taken in kernel mode or with no process; the kill flag ends set exactly when it was set, when the page-fault case killed, or when an unhandled cause came from user mode with a process |
| Trap.Decide | kernel/src/trap.c:36-206 | ticks advance only for a timer interrupt on CPU 0; the kill flag ends set exactly when it was set, when the system call set it, when the page-fault case killed, or when an unhandled cause came from user mode with a process; a system call exits exactly when killed before or during it and calls `syscall()` only when not killed before; panic exactly for a cause the switch does not handle, taken in kernel mode or with no process; outside system calls the process exits exactly when killed, present and trapped from user mode; each cause makes exactly its collaborator calls in order: wakeup on CPU 0 then EOI for the timer, the device handler then EOI for IDE, keyboard and serial, EOI alone for spurious interrupts, nothing for the second IDE line, `invlpg` after a resolved fault, nothing otherwise |

| Trap.Kernel.constructor | kernel/src/trap.c:17 | the tick counter starts at 0 |
| Trap.Kernel.Trap | kernel/src/trap.c:36-206 | allocator, entry, verdict, collaborator calls and kill flag are those of `ResolvePageFault` and `Decide`; ticks advance by one, wrapping at 2^32, exactly when `Decide` says so |

## Left out

- Interrupt-descriptor setup (`tvinit`, `idtinit`, `SETGATE`, `lidt`) is hardware table setup and is not modelled.
- Device handlers (`ideintr`, `kbdintr`, `uartintr`), `lapiceoi`, `syscall()` and `wakeup` are foreign calls. They appear only as `Event` values in the order `trap()` makes them.
- `exit()` and `panic` appear only as verdicts. The second exit check (trap.c:204) repeats the first, and `exit()` does not return, so there is one `Exit` verdict.
- A system call's effect on the kill flag is the input `syscallKills`. Saving the trapframe in the process (`myproc()->tf = tf`) is not modelled.
- `cprintf`, the commented-out `yield` block and `lab2_report_pagefault` (a grading hook whose body is not part of this model) are left out.
- `lab2_pgzero` and `lab2_pgcopy` are not part of this model. Only their effect is modelled: a zeroed page, a copied page.
- `walkpgdir`, `rcr2` and `invlpg` are hardware or foreign. The entry the walk finds is an input, the faulting address is not modelled, and `invlpg` is an `Event`.
- The bit positions of `PTE_COW` and `PTE_ZERO` are defined in a header outside this model. They are named flags, distinct from each other and from P, W and U.
- Spinlocks and the `use_lock` switch are concurrency; `useLock` is a ghost mode flag. The unlocked read-then-decrement in `kfree` and in the copy-on-write case is a race between cores and is not modelled.
- The re-test of `PTE_U` at trap.c:110-114 is left out: the test at line 93 has already killed any entry without User, so that branch cannot run.
- Trap.PageFault: requires a current process, because trap.c:91 dereferences `myproc()` with no check. Kernel.Trap requires one for a system call or a page fault for the same reason.
- Trap.PageFault: requires that a fault reaching the copy-on-write count read maps a frame below PHYSTOP, because `get_ref_count` indexes `ref_count[]` without a bounds check.
- Kalloc.Kmem.IncRefCount: requires `pa < PHYSTOP` for the same unchecked index; the same holds for DecRefCount and GetRefCount.
- Kalloc.FreshRange: does not state the contents of the freed pages; each `Release` step states what it writes into its page.
- Kalloc.Release: the free stack is a sequence kept beside the page contents. In the source the link `r->next` lives in the first word of the freed page. The model writes that word too, and `ReleaseKeepsLinks` and `AllocKeepsLinks` prove the sequence and the in-page chain agree, but only for a kfree of a frame that is not already free. A second kfree of a free frame overwrites its link: the source's chain becomes a cycle through that page, the frames below it are lost, and when it was the head kalloc hands it out again and again. The model pushes it a second time (`[v] + freelist`) instead, so its push describes the source only when `v !in freelist`.
- Kalloc.Kmem.Kfree: follows `Release` and has the same gap: for a frame that is already free, its `freelist` is not what the source's chain of links would give.
- Integer widths: addresses and `ref_count` entries are unbounded. Neither the 32-bit overflow of `PGROUNDUP` near the top of the address space nor a 32-bit overflow of a count is modelled. `ticks` is a 32-bit counter and its wrap-around is modelled.
- `Kmem` holds the frame contents as well as the allocator's own state, so that poisoning, zeroing and copying can be stated. Physical memory outside whole frames is not modelled.
