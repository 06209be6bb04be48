/** The reference-counted physical page allocator.

    The free frames form a LIFO stack of kernel virtual addresses. Every frame has a
    count of *extra* owners (ref_count[pa / PGSIZE]): a release of a frame whose
    count is positive only drops the count; a release of a frame whose count is 0
    poisons the page with 1-bytes, writes the link to the old head into its first
    word, and pushes it on the stack.

    The first half of the module states the allocator on values (KState and the
    functions Alloc, Release, ReleaseRange) and proves what a sequence of calls does;
    the second half is the allocator itself, the class Kmem, whose methods update
    its fields in place and are proved to follow those functions. */
module Kalloc {
  import opened Wrappers
  import opened Mmu

  newtype Byte = x: int | 0 <= x < 0x100

  /** The bytes of one physical page. */
  type Page = seq<Byte>

  /** A page whose every byte is b (the effect of memset(v, b, PGSIZE)). */
  function Fill(b: Byte): (p: Page)
    ensures |p| == PGSIZE
    ensures forall i :: 0 <= i < |p| ==> p[i] == b
  {
    seq(PGSIZE, _ => b)
  }

  /** The address test of kfree: page-aligned, not below the end of the kernel
      image kend, and mapped below PHYSTOP. kfree panics exactly when it fails.
      An address that passes is nonzero, so kalloc's 0 cannot be mistaken for a
      page, and fits in a 32-bit word, so it can be stored as a link. */
  predicate Releasable(kend: nat, v: nat)
    requires KERNBASE <= kend
    ensures Releasable(kend, v) ==> InPhys(v) && 0 < v < 0x1_0000_0000
  {
    v % PGSIZE == 0 && kend <= v && V2P(v) < PHYSTOP
  }

  /** The four bytes of a 32-bit word as x86 stores it, least significant first. */
  function Word(n: nat): (w: seq<Byte>)
    requires n < 0x1_0000_0000
    ensures |w| == 4
    ensures w[0] as int == n % 0x100 && w[1] as int == n / 0x100 % 0x100
    ensures w[2] as int == n / 0x1_0000 % 0x100 && w[3] as int == n / 0x100_0000
  {
    [(n % 0x100) as Byte, (n / 0x100 % 0x100) as Byte, (n / 0x1_0000 % 0x100) as Byte, (n / 0x100_0000) as Byte]
  }

  /** The value of a little-endian 32-bit word, as the source reads r->next. */
  function WordValue(w: seq<Byte>): int
    requires |w| >= 4
  {
    w[0] as int + 0x100 * w[1] as int + 0x1_0000 * w[2] as int + 0x100_0000 * w[3] as int
  }

  /** Reading back a stored link gives the address that was stored. */
  lemma WordRoundTrip(n: nat)
    requires n < 0x1_0000_0000
    ensures WordValue(Word(n)) == n
  {
    var w := Word(n);
    var a := n / 0x100;
    var b := a / 0x100;
    assert n == n % 0x100 + 0x100 * a;
    assert a == a % 0x100 + 0x100 * b;
    assert b == b % 0x100 + 0x100 * (b / 0x100);
    assert n / 0x1_0000 == b;
    assert n / 0x100_0000 == b / 0x100;
  }

  /** kmem.freelist as a pointer: the head of the stack, or 0 when it is empty. */
  function Head(l: seq<nat>): nat {
    if l == [] then 0 else l[0]
  }

  /** The page kfree leaves: memset to 1-bytes, then its first word overwritten by
      the link r->next, the address of the previous head (0 for none). */
  function Freed(next: nat): (p: Page)
    requires next < 0x1_0000_0000
    ensures |p| == PGSIZE && p[..4] == Word(next)
    ensures forall i :: 4 <= i < PGSIZE ==> p[i] == 1
  {
    Word(next) + Fill(1)[4..]
  }

  /** The allocator's state as a value: the end of the kernel image (a constant),
      the free stack with its head first, the reference counts indexed by frame,
      and the contents of every physical frame. */
  datatype KState = KState(kend: nat, freelist: seq<nat>, refs: seq<int>, pages: seq<Page>)

  /** Every frame has a count and a page; every frame on the stack passed kfree's test. */
  predicate Wf(s: KState) {
    KERNBASE <= s.kend && |s.refs| == NFRAME && |s.pages| == NFRAME &&
    forall i :: 0 <= i < |s.freelist| ==> Releasable(s.kend, s.freelist[i])
  }

  predicate NoDup(l: seq<nat>) {
    forall i, j :: 0 <= i < j < |l| ==> l[i] != l[j]
  }

  predicate NonNeg(refs: seq<int>) {
    forall f :: 0 <= f < |refs| ==> refs[f] >= 0
  }

  /** kalloc: the address handed out (0 when the stack is empty) and the state after. */
  function Alloc(s: KState): (r: (nat, KState))
    requires Wf(s)
    ensures Wf(r.1) && r.1.kend == s.kend
    ensures r.0 == 0 <==> s.freelist == []
    ensures r.0 == 0 ==> r.1 == s
    ensures r.0 != 0 ==> Releasable(s.kend, r.0) && s.freelist == [r.0] + r.1.freelist
    ensures r.1.refs == s.refs && r.1.pages == s.pages
    ensures NoDup(s.freelist) ==> NoDup(r.1.freelist) && r.0 !in r.1.freelist
  {
    if s.freelist == [] then (0, s)
    else (s.freelist[0], s.(freelist := s.freelist[1..]))
  }

  /** kfree(v): None when kfree panics; otherwise the state after. */
  function Release(s: KState, v: nat): (r: Option<KState>)
    requires Wf(s)
    ensures r.Some? <==> Releasable(s.kend, v)
    ensures r.Some? ==> Wf(r.value) && r.value.kend == s.kend
    ensures r.Some? && s.refs[FrameOf(v)] > 0 ==>
      && r.value.freelist == s.freelist
      && r.value.pages == s.pages
      && r.value.refs[FrameOf(v)] == s.refs[FrameOf(v)] - 1
      && forall f :: 0 <= f < NFRAME && f != FrameOf(v) ==> r.value.refs[f] == s.refs[f]
    ensures r.Some? && s.refs[FrameOf(v)] <= 0 ==>
      && r.value.freelist == [v] + s.freelist
      && r.value.refs == s.refs
      && r.value.pages[FrameOf(v)] == Freed(Head(s.freelist))
      && forall f :: 0 <= f < NFRAME && f != FrameOf(v) ==> r.value.pages[f] == s.pages[f]
    ensures r.Some? && NonNeg(s.refs) ==> NonNeg(r.value.refs)
    ensures r.Some? && NoDup(s.freelist) && v !in s.freelist ==> NoDup(r.value.freelist)
  {
    if !Releasable(s.kend, v) then None
    else
      var f := FrameOf(v);
      if s.refs[f] > 0 then Some(s.(refs := s.refs[f := s.refs[f] - 1]))
      else Some(s.(freelist := [v] + s.freelist, pages := s.pages[f := Freed(Head(s.freelist))]))
  }

  /** k successive kfree(v) calls on an address kfree accepts. */
  function ReleaseTimes(s: KState, v: nat, k: nat): (r: KState)
    requires Wf(s) && Releasable(s.kend, v)
    ensures Wf(r) && r.kend == s.kend
    decreases k
  {
    if k == 0 then s else Release(ReleaseTimes(s, v, k - 1), v).value
  }

  /** Share-count gating, first part: while calls remain below the count, each
      kfree only drops the count by one; the stack and memory stay as they were. */
  lemma {:induction false} SharedReleases(s: KState, v: nat, k: nat)
    requires Wf(s) && Releasable(s.kend, v)
    requires k <= s.refs[FrameOf(v)]
    ensures var t := ReleaseTimes(s, v, k);
      && t.freelist == s.freelist && t.pages == s.pages
      && t.refs == s.refs[FrameOf(v) := s.refs[FrameOf(v)] - k]
  {
    if k > 0 {
      SharedReleases(s, v, k - 1);
      var f := FrameOf(v);
      var t := ReleaseTimes(s, v, k - 1);
      var u := Release(t, v).value;
      assert t.refs[f] == s.refs[f] - (k - 1) > 0;
      assert u.refs == s.refs[f := s.refs[f] - k];
    }
  }

  /** Share-count gating: a frame with share count n >= 0 that is not free stays off
      the free stack through n calls of kfree, and the (n+1)-th call frees it with
      its count at 0. */
  lemma ShareGating(s: KState, v: nat)
    requires Wf(s) && Releasable(s.kend, v) && v !in s.freelist
    requires s.refs[FrameOf(v)] >= 0
    ensures forall k :: 0 <= k <= s.refs[FrameOf(v)] ==> v !in ReleaseTimes(s, v, k).freelist
    ensures var t := ReleaseTimes(s, v, s.refs[FrameOf(v)] + 1);
      && t.freelist == [v] + s.freelist
      && t.refs == s.refs[FrameOf(v) := 0]
      && t.pages[FrameOf(v)] == Freed(Head(s.freelist))
  {
    var n := s.refs[FrameOf(v)];
    forall k | 0 <= k <= n
      ensures v !in ReleaseTimes(s, v, k).freelist
    {
      SharedReleases(s, v, k);
    }
    SharedReleases(s, v, n);
  }

  /** A kalloc followed by kfree of the frame it returned: when the frame's count is
      not positive the stack is exactly as before; in either case a stack without
      duplicates keeps none. */
  lemma AllocThenRelease(s: KState)
    requires Wf(s) && s.freelist != []
    ensures var (v, t) := Alloc(s);
      && Release(t, v).Some?
      && (t.refs[FrameOf(v)] <= 0 ==> Release(t, v).value.freelist == s.freelist)
      && (NoDup(s.freelist) ==> NoDup(Release(t, v).value.freelist))
  {
    var (v, t) := Alloc(s);
    assert s.freelist == [v] + t.freelist;
  }

  /** The address below position i of the stack, 0 at the bottom. */
  function Below(l: seq<nat>, i: nat): nat {
    if i + 1 < |l| then l[i + 1] else 0
  }

  /** The stack as the source keeps it: a chain of pages whose first words link each
      free page to the one below it, the bottom page to 0. The sequence freelist is
      this chain read from the head. */
  predicate Linked(s: KState)
    requires Wf(s)
  {
    forall i :: 0 <= i < |s.freelist| ==> Word(Below(s.freelist, i)) <= s.pages[FrameOf(s.freelist[i])]
  }

  /** Two addresses that pass kfree's test lie in the same frame only when equal. */
  lemma FrameInjective(kend: nat, v: nat, w: nat)
    requires KERNBASE <= kend && Releasable(kend, v) && Releasable(kend, w)
    requires FrameOf(v) == FrameOf(w)
    ensures v == w
  {
    assert KERNBASE % PGSIZE == 0;
    assert V2P(v) == FrameOf(v) * PGSIZE;
    assert V2P(w) == FrameOf(w) * PGSIZE;
  }

  /** kfree of a frame that is not on the stack keeps the in-page chain in step with
      the stack: a released page links to the old head. */
  lemma {:induction false} ReleaseKeepsLinks(s: KState, v: nat)
    requires Wf(s) && Linked(s) && Releasable(s.kend, v) && v !in s.freelist
    ensures Linked(Release(s, v).value)
  {
    var f := FrameOf(v);
    if s.refs[f] <= 0 {
      var l := [v] + s.freelist;
      var pages := s.pages[f := Freed(Head(s.freelist))];
      assert Release(s, v).value == s.(freelist := l, pages := pages);
      forall i | 0 <= i < |l|
        ensures Word(Below(l, i)) <= pages[FrameOf(l[i])]
      {
        if i > 0 {
          var w := s.freelist[i - 1];
          assert l[i] == w && Below(l, i) == Below(s.freelist, i - 1);
          if FrameOf(w) == f {
            FrameInjective(s.kend, w, v);
          }
        }
      }
    }
  }

  /** kalloc keeps the chain in step with the stack, and the head the model pops to
      is the link kalloc reads from the page it hands out (r->next). */
  lemma AllocKeepsLinks(s: KState)
    requires Wf(s) && Linked(s)
    ensures Linked(Alloc(s).1)
    ensures s.freelist != [] ==> Word(Head(Alloc(s).1.freelist)) <= s.pages[FrameOf(Alloc(s).0)]
  {
    var t := Alloc(s).1;
    forall i | 0 <= i < |t.freelist|
      ensures Word(Below(t.freelist, i)) <= t.pages[FrameOf(t.freelist[i])]
    {
      assert t.freelist[i] == s.freelist[i + 1];
      assert Below(t.freelist, i) == Below(s.freelist, i + 1);
    }
    if s.freelist != [] {
      assert Head(t.freelist) == Below(s.freelist, 0);
    }
  }

  /** One call into the allocator, as a client issues it. */
  datatype Call = KallocCall | KfreeCall(v: nat)

  /** The addresses the kalloc calls among calls hand out, in order (0 for a failed
      kalloc). A kfree that panics halts the kernel and ends the run. */
  function Handouts(s: KState, calls: seq<Call>): seq<nat>
    requires Wf(s)
    decreases |calls|
  {
    if calls == [] then []
    else match calls[0]
      case KallocCall =>
        var (v, t) := Alloc(s);
        [v] + Handouts(t, calls[1..])
      case KfreeCall(w) =>
        match Release(s, w)
        case None => []
        case Some(t) => Handouts(t, calls[1..])
  }

  /** A frame that is not free is never handed out by a run of calls that does not
      release it. */
  lemma {:induction false} NotReissued(s: KState, v: nat, calls: seq<Call>)
    requires Wf(s) && v != 0 && v !in s.freelist
    requires KfreeCall(v) !in calls
    ensures v !in Handouts(s, calls)
    decreases |calls|
  {
    if calls != [] {
      assert KfreeCall(v) !in calls[1..];
      match calls[0]
      case KallocCall =>
        var (w, t) := Alloc(s);
        NotReissued(t, v, calls[1..]);
      case KfreeCall(w) =>
        match Release(s, w)
        case None =>
        case Some(t) =>
          NotReissued(t, v, calls[1..]);
    }
  }

  /** No double allocation: once kalloc hands out the head of a stack without
      duplicates, no later kalloc hands it out again before it is released. */
  lemma NoDoubleAllocation(s: KState, calls: seq<Call>)
    requires Wf(s) && NoDup(s.freelist) && s.freelist != []
    requires KfreeCall(s.freelist[0]) !in calls
    ensures var (v, t) := Alloc(s); v != 0 && v !in Handouts(t, calls)
  {
    var (v, t) := Alloc(s);
    NotReissued(t, v, calls);
  }

  /** The pages freerange visits, in order: p, p + PGSIZE, ... while the page fits below vend. */
  function PagesFrom(p: nat, vend: nat): (ps: seq<nat>)
    ensures forall i :: 0 <= i < |ps| ==> ps[i] == p + i * PGSIZE && ps[i] + PGSIZE <= vend
    ensures p + |ps| * PGSIZE + PGSIZE > vend
    decreases vend - p
  {
    if p + PGSIZE <= vend then [p] + PagesFrom(p + PGSIZE, vend) else []
  }

  function Reversed(l: seq<nat>): (r: seq<nat>)
    ensures |r| == |l|
    ensures forall i :: 0 <= i < |l| ==> r[i] == l[|l| - 1 - i]
  {
    if l == [] then [] else Reversed(l[1..]) + [l[0]]
  }

  /** freerange from page-aligned p: kfree each page that fits below vend, in ascending
      order; None when one of those calls panics. */
  function ReleaseRange(s: KState, p: nat, vend: nat): (r: Option<KState>)
    requires Wf(s)
    ensures r.Some? ==> Wf(r.value) && r.value.kend == s.kend
    decreases vend - p
  {
    if p + PGSIZE > vend then Some(s)
    else match Release(s, p)
      case None => None
      case Some(t) => ReleaseRange(t, p + PGSIZE, vend)
  }

  /** Some address in ps fails kfree's test. */
  predicate SomeRejected(kend: nat, ps: seq<nat>)
    requires KERNBASE <= kend
  {
    exists i :: 0 <= i < |ps| && !Releasable(kend, ps[i])
  }

  lemma RejectedCons(kend: nat, p: nat, rest: seq<nat>)
    requires KERNBASE <= kend
    ensures SomeRejected(kend, [p] + rest) <==> !Releasable(kend, p) || SomeRejected(kend, rest)
  {
    var ps := [p] + rest;
    assert ps[0] == p;
    if SomeRejected(kend, ps) {
      var i :| 0 <= i < |ps| && !Releasable(kend, ps[i]);
      if i > 0 {
        assert rest[i - 1] == ps[i];
      }
    }
    if SomeRejected(kend, rest) {
      var j :| 0 <= j < |rest| && !Releasable(kend, rest[j]);
      assert ps[j + 1] == rest[j];
    }
  }

  /** freerange panics exactly when one of the pages it visits fails kfree's test. */
  lemma {:induction false} RangePanics(s: KState, p: nat, vend: nat)
    requires Wf(s)
    ensures ReleaseRange(s, p, vend).None? <==> SomeRejected(s.kend, PagesFrom(p, vend))
    decreases vend - p
  {
    if p + PGSIZE <= vend {
      var rest := PagesFrom(p + PGSIZE, vend);
      assert PagesFrom(p, vend) == [p] + rest;
      RejectedCons(s.kend, p, rest);
      if Releasable(s.kend, p) {
        RangePanics(Release(s, p).value, p + PGSIZE, vend);
      }
    }
  }

  /** freerange over fresh frames (count 0) inside the managed range never panics,
      leaves every count as it was, and leaves the visited pages on the stack in
      reverse order, the highest on top. */
  lemma {:induction false} FreshRange(s: KState, p: nat, vend: nat)
    requires Wf(s) && p % PGSIZE == 0 && s.kend <= p && vend <= KERNBASE + PHYSTOP
    requires forall i :: 0 <= i < |PagesFrom(p, vend)| ==> s.refs[FrameOf(PagesFrom(p, vend)[i])] == 0
    ensures var r := ReleaseRange(s, p, vend);
      && r.Some?
      && r.value.freelist == Reversed(PagesFrom(p, vend)) + s.freelist
      && r.value.refs == s.refs
    decreases vend - p
  {
    if p + PGSIZE <= vend {
      var ps := PagesFrom(p, vend);
      assert ps[0] == p;
      var t := Release(s, p).value;
      assert t.freelist == [p] + s.freelist;
      var rest := PagesFrom(p + PGSIZE, vend);
      assert ps[1..] == rest;
      forall i | 0 <= i < |rest|
        ensures t.refs[FrameOf(rest[i])] == 0
      {
        assert rest[i] == ps[i + 1];
      }
      FreshRange(t, p + PGSIZE, vend);
      assert Reversed(ps) == Reversed(rest) + [p];
      assert Reversed(rest) + t.freelist == Reversed(ps) + s.freelist;
    }
  }

  /** The allocator: kmem.freelist, ref_count[] and the physical memory it manages. */
  class Kmem {
    /** The linker symbol `end`: the first address after the kernel image. */
    const kend: nat
    /** ref_count[]: the number of extra owners of each frame. */
    const refCount: array<int>
    /** kmem.freelist: the free stack, head first, as kernel virtual addresses. */
    var freelist: seq<nat>
    /** The contents of every physical frame, indexed by frame number. */
    var pages: seq<Page>
    /** kmem.use_lock: false during the single-core first phase of initialisation. */
    ghost var useLock: bool

    ghost predicate Valid()
      reads this, refCount
    {
      refCount.Length == NFRAME && Wf(State())
    }

    ghost function State(): KState
      reads this, refCount
    {
      KState(kend, freelist, refCount[..], pages)
    }

    /** The allocator as it stands at boot: an empty stack and zero counts (both are
        zero-initialised globals); memory holds whatever it holds. */
    constructor(kend: nat, memory: seq<Page>)
      requires KERNBASE <= kend && |memory| == NFRAME
      ensures Valid() && fresh(refCount) && !useLock
      ensures State() == KState(kend, [], seq(NFRAME, _ => 0), memory)
    {
      this.kend := kend;
      refCount := new int[NFRAME](_ => 0);
      freelist := [];
      pages := memory;
      useLock := false;
      new;
      assert refCount[..] == seq(NFRAME, _ => 0);
    }

    method IncRefCount(pa: nat)
      requires Valid() && pa < PHYSTOP
      modifies refCount
      ensures Valid()
      ensures refCount[..] == old(refCount[..])[pa / PGSIZE := old(refCount[pa / PGSIZE]) + 1]
    {
      refCount[pa / PGSIZE] := refCount[pa / PGSIZE] + 1;
    }

    method DecRefCount(pa: nat)
      requires Valid() && pa < PHYSTOP
      modifies refCount
      ensures Valid()
      ensures refCount[..] == old(refCount[..])[pa / PGSIZE := old(refCount[pa / PGSIZE]) - 1]
    {
      refCount[pa / PGSIZE] := refCount[pa / PGSIZE] - 1;
    }

    method GetRefCount(pa: nat) returns (count: int)
      requires Valid() && pa < PHYSTOP
      ensures count == refCount[pa / PGSIZE]
    {
      count := refCount[pa / PGSIZE];
    }

    /** kfree: panicked when the address fails the test; the state then is left as
        it was, since the kernel halts. */
    method Kfree(v: nat) returns (panicked: bool)
      requires Valid()
      modifies this, refCount
      ensures Valid() && useLock == old(useLock)
      ensures panicked <==> !Releasable(kend, v)
      ensures State() == if panicked then old(State()) else Release(old(State()), v).value
    {
      if v % PGSIZE != 0 || v < kend || V2P(v) >= PHYSTOP {
        return true;
      }
      var pa := V2P(v);
      var count := GetRefCount(pa);
      if count > 0 {
        DecRefCount(pa);
        return false;
      }
      pages := pages[pa / PGSIZE := Fill(1)];
      // r->next = kmem.freelist: the link overwrites the page's first word.
      pages := pages[pa / PGSIZE := Word(Head(freelist)) + pages[pa / PGSIZE][4..]];
      freelist := [v] + freelist;
      return false;
    }

    /** kalloc: pops the head of the stack, or returns 0 when it is empty. */
    method Kalloc() returns (v: nat)
      requires Valid()
      modifies this
      ensures Valid() && useLock == old(useLock)
      ensures (v, State()) == Alloc(old(State()))
    {
      if freelist == [] {
        return 0;
      }
      v := freelist[0];
      freelist := freelist[1..];
    }

    /** The effect of lab2_pgzero on the page at kernel address v: all bytes zero. */
    method PageZero(v: nat)
      requires Valid() && InPhys(v)
      modifies this
      ensures Valid() && useLock == old(useLock)
      ensures State() == old(State()).(pages := old(pages)[FrameOf(v) := Fill(0)])
    {
      pages := pages[FrameOf(v) := Fill(0)];
    }

    /** The effect of lab2_pgcopy: the page at dst receives the bytes of the page at src. */
    method PageCopy(dst: nat, src: nat)
      requires Valid() && InPhys(dst) && InPhys(src)
      modifies this
      ensures Valid() && useLock == old(useLock)
      ensures State() == old(State()).(pages := old(pages)[FrameOf(dst) := old(pages)[FrameOf(src)]])
    {
      pages := pages[FrameOf(dst) := pages[FrameOf(src)]];
    }

    /** freerange: kfree every page from PGROUNDUP(vstart) that fits below vend,
        in ascending order, stopping at a panic. */
    method FreeRange(vstart: nat, vend: nat) returns (panicked: bool)
      requires Valid()
      modifies this, refCount
      ensures Valid() && useLock == old(useLock)
      ensures var r := ReleaseRange(old(State()), PgRoundUp(vstart), vend);
        panicked == r.None? && (r.Some? ==> State() == r.value)
    {
      var p := PgRoundUp(vstart);
      while p + PGSIZE <= vend
        invariant Valid() && useLock == old(useLock)
        invariant ReleaseRange(old(State()), PgRoundUp(vstart), vend) == ReleaseRange(State(), p, vend)
        decreases vend - p
      {
        panicked := Kfree(p);
        if panicked {
          return;
        }
        p := p + PGSIZE;
      }
      panicked := false;
    }

    /** kinit1: zero every count, run unlocked, and free the first range. */
    method Kinit1(vstart: nat, vend: nat) returns (panicked: bool)
      requires Valid()
      modifies this, refCount
      ensures Valid() && !useLock
      ensures var r := ReleaseRange(old(State()).(refs := seq(NFRAME, _ => 0)), PgRoundUp(vstart), vend);
        panicked == r.None? && (r.Some? ==> State() == r.value)
    {
      forall f | 0 <= f < refCount.Length {
        refCount[f] := 0;
      }
      assert refCount[..] == seq(NFRAME, _ => 0);
      useLock := false;
      panicked := FreeRange(vstart, vend);
    }

    /** kinit2: free the rest of memory, then switch locking on. */
    method Kinit2(vstart: nat, vend: nat) returns (panicked: bool)
      requires Valid()
      modifies this, refCount
      ensures Valid()
      ensures var r := ReleaseRange(old(State()), PgRoundUp(vstart), vend);
        panicked == r.None? && (r.Some? ==> State() == r.value)
      ensures !panicked ==> useLock
    {
      panicked := FreeRange(vstart, vend);
      if panicked {
        return;
      }
      useLock := true;
    }
  }
}
