/** The trap dispatcher and its page-fault resolver.

    A page fault is resolved in precedence order: an entry that is missing, not
    present, not user-accessible or already writable kills the process; otherwise,
    when error-code bit 0 (protection violation) is set, a lazy-zero entry gets a
    fresh zeroed frame, and a copy-on-write entry either gets a private copy of its
    shared frame or, when nobody else shares it any more, is made writable in
    place. Anything else falls into the dispatcher's default case.

    The resolver is stated on values (ResolvePageFault) and implemented on the
    allocator object (PageFault); the dispatch rules around it are stated by
    Decide and implemented by Kernel.Trap. */
module Trap {
  import opened Wrappers
  import opened Mmu
  import opened Kalloc

  // Trap numbers and the user privilege level, as in xv6's traps.h and mmu.h.
  const T_PGFLT: nat := 14
  const T_SYSCALL: nat := 64
  const T_IRQ0: nat := 32
  const IRQ_TIMER: nat := 0
  const IRQ_KBD: nat := 1
  const IRQ_COM1: nat := 4
  const IRQ_IDE: nat := 14
  const IRQ_SPURIOUS: nat := 31
  const DPL_USER: bv16 := 3

  /** The part of the trapframe the dispatcher reads: cause, error code, code segment. */
  datatype TrapFrame = TrapFrame(trapno: nat, err: bv32, cs: bv16)

  predicate FromKernel(cs: bv16) {
    cs & 3 == 0
  }

  predicate FromUser(cs: bv16) {
    cs & 3 == DPL_USER
  }

  /** The guard on the error code before the zero-fill and copy-on-write cases. It
      tests bit 0 twice over, so it holds exactly when bit 0 (protection violation)
      is set, whatever the write (bit 1) and user (bit 2) bits say. */
  function WriteFaultGuard(err: bv32): (b: bool)
    ensures b <==> err & 1 == 1
  {
    (err & 1 != 0) && (err & 3 != 0)
  }

  /** The first test on a page fault: no entry, or one that is not present, not
      user-accessible, or already writable. */
  predicate KilledAtWalk(pte: Option<Pte>)
    ensures !KilledAtWalk(pte) <==>
      pte.Some? && Present in pte.value.flags && User in pte.value.flags && Writable !in pte.value.flags
  {
    pte.None? || Present !in pte.value.flags || User !in pte.value.flags || Writable in pte.value.flags
  }

  /** The fault reaches the copy-on-write case, which reads the frame's count. */
  predicate ReadsRefCount(pte: Option<Pte>, err: bv32) {
    !KilledAtWalk(pte) && WriteFaultGuard(err) && Zero !in pte.value.flags && Cow in pte.value.flags
  }

  /** What the page-fault case ends in. Unhandled falls into the default case. */
  datatype Resolution = Killed | ZeroFilled | CowCopied | CowPromoted | Unhandled

  datatype Fault = Fault(state: KState, pte: Option<Pte>, res: Resolution)

  predicate Resolved(res: Resolution) {
    res == ZeroFilled || res == CowCopied || res == CowPromoted
  }

  /** The page-fault case: the allocator state, the entry and the resolution after a
      fault with error code err on the entry pte found by the page-table walk. */
  function ResolvePageFault(s: KState, pte: Option<Pte>, err: bv32): (r: Fault)
    requires Wf(s)
    requires ReadsRefCount(pte, err) ==> pte.value.ppn < NFRAME
    ensures Wf(r.state) && r.state.kend == s.kend
    // The first test kills, and touches neither the entry nor the allocator.
    ensures KilledAtWalk(pte) ==> r == Fault(s, pte, Killed)
    // A failed allocation kills too; killing and falling through change nothing.
    ensures r.res == Killed <==> (KilledAtWalk(pte) ||
      (WriteFaultGuard(err) && (Zero in pte.value.flags || (Cow in pte.value.flags && s.refs[pte.value.ppn] > 0)) && s.freelist == []))
    ensures !Resolved(r.res) ==> r.state == s && r.pte == pte
    ensures r.res == Unhandled <==>
      !KilledAtWalk(pte) && (err & 1 == 0 || (Zero !in pte.value.flags && Cow !in pte.value.flags))
    // Lazy zero-fill takes precedence over copy-on-write.
    ensures r.res == ZeroFilled <==> !KilledAtWalk(pte) && err & 1 == 1 && Zero in pte.value.flags && s.freelist != []
    ensures r.res == ZeroFilled ==>
      var q := FrameOf(s.freelist[0]);
      && r.state.freelist == s.freelist[1..]
      && r.state.refs == s.refs
      && r.state.pages == s.pages[q := Fill(0)]
      && r.pte == Some(Pte(q, pte.value.flags + {Writable} - {Cow, Zero}))
    // Copy-on-write of a frame still shared: one allocation, a copy, one share dropped.
    ensures r.res == CowCopied <==> ReadsRefCount(pte, err) && s.refs[pte.value.ppn] > 0 && s.freelist != []
    ensures r.res == CowCopied ==>
      var q := FrameOf(s.freelist[0]);
      var p := pte.value.ppn;
      && r.state.freelist == s.freelist[1..]
      && r.state.pages == s.pages[q := s.pages[p]]
      && r.state.refs == s.refs[p := s.refs[p] - 1]
      && r.pte == Some(Pte(q, pte.value.flags + {Writable} - {Cow, Zero}))
    // Copy-on-write of a frame no longer shared: no allocation, same frame, made writable.
    ensures r.res == CowPromoted <==> ReadsRefCount(pte, err) && s.refs[pte.value.ppn] <= 0
    ensures r.res == CowPromoted ==>
      && r.state == s
      && r.pte == Some(Pte(pte.value.ppn, pte.value.flags + {Writable} - {Cow}))
  {
    if KilledAtWalk(pte) then Fault(s, pte, Killed)
    else
      var e := pte.value;
      if !WriteFaultGuard(err) then Fault(s, pte, Unhandled)
      else if Zero in e.flags then
        var (mem, t) := Alloc(s);
        if mem == 0 then Fault(s, pte, Killed)
        else Fault(t.(pages := t.pages[FrameOf(mem) := Fill(0)]), Some(Remapped(FrameOf(mem), e.flags)), ZeroFilled)
      else if Cow in e.flags then
        if s.refs[e.ppn] > 0 then
          var (mem, t) := Alloc(s);
          if mem == 0 then Fault(s, pte, Killed)
          else
            var copied := t.(pages := t.pages[FrameOf(mem) := t.pages[e.ppn]]);
            Fault(copied.(refs := copied.refs[e.ppn := copied.refs[e.ppn] - 1]), Some(Remapped(FrameOf(mem), e.flags)), CowCopied)
        else Fault(s, Some(Promoted(e)), CowPromoted)
      else Fault(s, pte, Unhandled)
  }

  /** A resolved entry is writable, so a second fault on the same page is killed at
      the first test: it neither allocates nor copies again. */
  lemma RefaultKills(s: KState, pte: Option<Pte>, err: bv32, err2: bv32)
    requires Wf(s) && (ReadsRefCount(pte, err) ==> pte.value.ppn < NFRAME)
    requires Resolved(ResolvePageFault(s, pte, err).res)
    ensures var r := ResolvePageFault(s, pte, err);
      && r.pte.Some? && Writable in r.pte.value.flags
      && ResolvePageFault(r.state, r.pte, err2) == Fault(r.state, r.pte, Killed)
  {
  }

  /** Two address spaces A and B map frame p copy-on-write, and p's count is 1 (B's
      share). A write by A copies p into the top free frame q and drops p's count to
      0; a write by B then allocates nothing and makes B's entry writable on p. */
  lemma CowScenario(s: KState, p: nat, flags: set<Flag>, err: bv32)
    requires Wf(s) && p < NFRAME && s.refs[p] == 1
    requires s.freelist != [] && FrameOf(s.freelist[0]) != p
    requires Present in flags && User in flags && Cow in flags && Writable !in flags && Zero !in flags
    requires err & 1 == 1
    ensures var a := ResolvePageFault(s, Some(Pte(p, flags)), err);
      var q := FrameOf(s.freelist[0]);
      && a.res == CowCopied
      && a.pte == Some(Pte(q, flags + {Writable} - {Cow}))
      && a.state.pages[q] == s.pages[p]
      && a.state.refs[p] == 0
      && var b := ResolvePageFault(a.state, Some(Pte(p, flags)), err);
      && b.res == CowPromoted
      && b.state == a.state
      && b.pte == Some(Pte(p, flags + {Writable} - {Cow}))
  {
    var a := ResolvePageFault(s, Some(Pte(p, flags)), err);
    assert flags + {Writable} - {Cow, Zero} == flags + {Writable} - {Cow};
    assert a.state.refs[p] == 0;
  }

  /** The process a trap is taken on behalf of (myproc()); only its kill flag matters here. */
  class Proc {
    var killed: bool
  }

  /** The page-fault case on the live allocator: reads the entry, calls kalloc,
      get_ref_count and dec_ref_count, and sets the process's kill flag. */
  method PageFault(kmem: Kmem, pte: Option<Pte>, err: bv32, p: Proc) returns (newPte: Option<Pte>, res: Resolution)
    requires kmem.Valid()
    requires ReadsRefCount(pte, err) ==> pte.value.ppn < NFRAME
    modifies kmem, kmem.refCount, p
    ensures kmem.Valid() && kmem.useLock == old(kmem.useLock)
    ensures Fault(kmem.State(), newPte, res) == ResolvePageFault(old(kmem.State()), pte, err)
    ensures p.killed == (old(p.killed) || res == Killed)
  {
    if KilledAtWalk(pte) {
      p.killed := true;
      return pte, Killed;
    }
    var e := pte.value;
    var pa := PteAddr(e);
    if WriteFaultGuard(err) {
      if Zero in e.flags {
        var mem := kmem.Kalloc();
        if mem == 0 {
          p.killed := true;
          return pte, Killed;
        }
        kmem.PageZero(mem);
        return Some(Remapped(V2P(mem) / PGSIZE, e.flags)), ZeroFilled;
      } else if Cow in e.flags {
        var count := kmem.GetRefCount(pa);
        if count > 0 {
          var mem := kmem.Kalloc();
          if mem == 0 {
            p.killed := true;
            return pte, Killed;
          }
          assert FrameOf(P2V(pa)) == e.ppn;
          kmem.PageCopy(mem, P2V(pa));
          newPte := Some(Remapped(V2P(mem) / PGSIZE, e.flags));
          kmem.DecRefCount(pa);
          return newPte, CowCopied;
        } else {
          return Some(Promoted(e)), CowPromoted;
        }
      }
    }
    return pte, Unhandled;
  }

  /** How a trap ends: back to the interrupted code, exit() of the process, or panic. */
  datatype Verdict = Resume | Exit | Panic

  /** Calls into collaborators this model does not define. */
  datatype Event = Syscall | Wakeup | Eoi | IdeIntr | KbdIntr | UartIntr | Invlpg

  /** One pass through the dispatch switch: whether ticks advances, the kill flag
      after it, whether it panics, and the collaborators it calls. */
  datatype Step = Step(tick: bool, killed: bool, panics: bool, events: seq<Event>)

  /** The whole trap as decided: tick, kill flag, verdict and collaborator calls. */
  datatype Decision = Decision(tick: bool, killed: bool, verdict: Verdict, events: seq<Event>)

  /** The causes the switch handles itself; a page fault only when it was resolved or killed. */
  predicate Handled(trapno: nat, pf: Resolution) {
    trapno == T_IRQ0 + IRQ_TIMER || trapno == T_IRQ0 + IRQ_IDE || trapno == T_IRQ0 + IRQ_IDE + 1 ||
    trapno == T_IRQ0 + IRQ_KBD || trapno == T_IRQ0 + IRQ_COM1 ||
    trapno == T_IRQ0 + 7 || trapno == T_IRQ0 + IRQ_SPURIOUS ||
    (trapno == T_PGFLT && pf != Unhandled)
  }

  /** The switch on the trap number, for every cause but a system call; pf is what
      the page-fault case ended in. */
  function Switch(tf: TrapFrame, cpu: nat, hasProc: bool, killed: bool, pf: Resolution): (st: Step)
    ensures st.tick <==> tf.trapno == T_IRQ0 + IRQ_TIMER && cpu == 0
    ensures st.panics <==> !Handled(tf.trapno, pf) && (!hasProc || FromKernel(tf.cs))
    ensures st.killed <==> (killed || (tf.trapno == T_PGFLT && pf == Killed) ||
      (!Handled(tf.trapno, pf) && hasProc && !FromKernel(tf.cs)))
  {
    var t := tf.trapno;
    if t == T_IRQ0 + IRQ_TIMER then
      Step(cpu == 0, killed, false, (if cpu == 0 then [Wakeup] else []) + [Eoi])
    else if t == T_IRQ0 + IRQ_IDE then Step(false, killed, false, [IdeIntr, Eoi])
    else if t == T_IRQ0 + IRQ_IDE + 1 then Step(false, killed, false, [])
    else if t == T_IRQ0 + IRQ_KBD then Step(false, killed, false, [KbdIntr, Eoi])
    else if t == T_IRQ0 + IRQ_COM1 then Step(false, killed, false, [UartIntr, Eoi])
    else if t == T_IRQ0 + 7 || t == T_IRQ0 + IRQ_SPURIOUS then Step(false, killed, false, [Eoi])
    else if t == T_PGFLT && pf == Killed then Step(false, true, false, [])
    else if t == T_PGFLT && pf != Unhandled then Step(false, killed, false, [Invlpg])
    else if !hasProc || FromKernel(tf.cs) then Step(false, killed, true, [])
    else Step(false, true, false, [])
  }

  /** The decisions of trap(): the system-call kill checks, the switch, and the
      epilogue that makes a killed process exit when it trapped from user mode. */
  function Decide(tf: TrapFrame, cpu: nat, hasProc: bool, killed: bool, syscallKills: bool, pf: Resolution): (d: Decision)
    // Only CPU 0 counts timer ticks.
    ensures d.tick <==> tf.trapno == T_IRQ0 + IRQ_TIMER && cpu == 0
    // The kill flag is never cleared; it is set by the system call, by a page fault
    // that kills, or by an unhandled cause taken in user mode on behalf of a process.
    ensures d.killed <==> (killed || (tf.trapno == T_SYSCALL && syscallKills) ||
      (tf.trapno != T_SYSCALL && ((tf.trapno == T_PGFLT && pf == Killed) ||
                                  (!Handled(tf.trapno, pf) && hasProc && !FromKernel(tf.cs)))))
    ensures d.verdict == Exit ==> d.killed
    // A system call exits when the process was killed before or during it.
    ensures tf.trapno == T_SYSCALL ==>
      && (d.verdict == Exit <==> killed || syscallKills)
      && (Syscall in d.events <==> !killed)
    // Fatal only for a cause the switch does not handle, taken in kernel mode or with no process.
    ensures d.verdict == Panic <==>
      tf.trapno != T_SYSCALL && !Handled(tf.trapno, pf) && (!hasProc || FromKernel(tf.cs))
    // Otherwise such a cause kills the process.
    ensures tf.trapno != T_SYSCALL && !Handled(tf.trapno, pf) && d.verdict != Panic ==> d.killed
    // Outside system calls, a process exits only from user mode, and always does when killed there.
    ensures tf.trapno != T_SYSCALL && d.verdict != Panic ==>
      (d.verdict == Exit <==> hasProc && d.killed && FromUser(tf.cs))
    // The collaborators each cause calls, in order.
    ensures tf.trapno == T_SYSCALL ==> d.events == if killed then [] else [Syscall]
    ensures tf.trapno == T_IRQ0 + IRQ_TIMER ==> d.events == (if cpu == 0 then [Wakeup] else []) + [Eoi]
    ensures tf.trapno == T_IRQ0 + IRQ_IDE ==> d.events == [IdeIntr, Eoi]
    ensures tf.trapno == T_IRQ0 + IRQ_IDE + 1 ==> d.events == []
    ensures tf.trapno == T_IRQ0 + IRQ_KBD ==> d.events == [KbdIntr, Eoi]
    ensures tf.trapno == T_IRQ0 + IRQ_COM1 ==> d.events == [UartIntr, Eoi]
    ensures tf.trapno == T_IRQ0 + 7 || tf.trapno == T_IRQ0 + IRQ_SPURIOUS ==> d.events == [Eoi]
    ensures tf.trapno == T_PGFLT ==> d.events == if Resolved(pf) then [Invlpg] else []
    ensures tf.trapno != T_SYSCALL && !Handled(tf.trapno, pf) ==> d.events == []
  {
    if tf.trapno == T_SYSCALL then
      if killed then Decision(false, true, Exit, [])
      else Decision(false, syscallKills, if syscallKills then Exit else Resume, [Syscall])
    else
      var st := Switch(tf, cpu, hasProc, killed, pf);
      if st.panics then Decision(false, st.killed, Panic, st.events)
      else Decision(st.tick, st.killed, if hasProc && st.killed && FromUser(tf.cs) then Exit else Resume, st.events)
  }

  /** The kernel state trap() touches: the global tick counter and the allocator. */
  class Kernel {
    /** ticks: a 32-bit unsigned counter, so it wraps around. */
    var ticks: bv32
    const kmem: Kmem

    constructor(kmem: Kmem)
      ensures this.kmem == kmem && ticks == 0
    {
      this.kmem := kmem;
      ticks := 0;
    }

    /** trap(tf) on CPU cpu for the current process p (null when there is none).
        pte is what walkpgdir finds for the faulting address; syscallKills says
        whether the system call sets the kill flag. Returns the entry as trap()
        leaves it, the verdict, and the collaborator calls made. */
    method Trap(tf: TrapFrame, cpu: nat, p: Proc?, pte: Option<Pte>, syscallKills: bool)
      returns (newPte: Option<Pte>, verdict: Verdict, events: seq<Event>)
      requires kmem.Valid()
      requires tf.trapno == T_SYSCALL || tf.trapno == T_PGFLT ==> p != null
      requires tf.trapno == T_PGFLT && ReadsRefCount(pte, tf.err) ==> pte.value.ppn < NFRAME
      modifies this, kmem, kmem.refCount, p
      ensures kmem.Valid() && kmem.useLock == old(kmem.useLock)
      ensures var pf :=
          if tf.trapno == T_PGFLT then ResolvePageFault(old(kmem.State()), pte, tf.err)
          else Fault(old(kmem.State()), pte, Unhandled);
        var d := Decide(tf, cpu, p != null, p != null && old(p.killed), syscallKills, pf.res);
        && kmem.State() == pf.state && newPte == pf.pte
        && verdict == d.verdict && events == d.events
        && ticks == (if d.tick then old(ticks) + 1 else old(ticks))
        && (p != null ==> p.killed == d.killed)
    {
      newPte, events := pte, [];
      if tf.trapno == T_SYSCALL {
        if p.killed {
          return pte, Exit, [];
        }
        events := [Syscall];
        if syscallKills {
          p.killed := true;
        }
        if p.killed {
          return pte, Exit, events;
        }
        return pte, Resume, events;
      }

      var toDefault := false;
      if tf.trapno == T_IRQ0 + IRQ_TIMER {
        if cpu == 0 {
          ticks := ticks + 1;
          events := [Wakeup];
        }
        events := events + [Eoi];
      } else if tf.trapno == T_IRQ0 + IRQ_IDE {
        events := [IdeIntr, Eoi];
      } else if tf.trapno == T_IRQ0 + IRQ_IDE + 1 {
        // spurious IDE1 interrupt: nothing to do
      } else if tf.trapno == T_IRQ0 + IRQ_KBD {
        events := [KbdIntr, Eoi];
      } else if tf.trapno == T_IRQ0 + IRQ_COM1 {
        events := [UartIntr, Eoi];
      } else if tf.trapno == T_IRQ0 + 7 || tf.trapno == T_IRQ0 + IRQ_SPURIOUS {
        events := [Eoi];
      } else if tf.trapno == T_PGFLT {
        var res;
        newPte, res := PageFault(kmem, pte, tf.err, p);
        if Resolved(res) {
          events := [Invlpg];
        }
        toDefault := res == Unhandled;
      } else {
        toDefault := true;
      }

      if toDefault {
        if p == null || FromKernel(tf.cs) {
          return newPte, Panic, events;
        }
        p.killed := true;
      }

      verdict := if p != null && p.killed && FromUser(tf.cs) then Exit else Resume;
    }
  }
}
