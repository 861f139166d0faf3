/** The imperative core of vm.c, kalloc.c and pageswap.c: the globals as fields, the
    page-stepping loops as methods. Every method that completes leaves the processes with
    exactly the bytes they would have if fork had made eager copies, and every page with
    its flags (EagerFork and the other functions below). */
module Vm {
  import opened Blocks
  import opened VmModel
  import opened VmInv
  import opened SwapDisk
  import opened Victim

  const KERNBASE: nat := 0x8000_0000
  const DEVSPACE: nat := 0xFE00_0000
  const NPTENTRIES: nat := 1024
  const KVMPAGES: nat := 10        // what setupkvm allocates: the directory and the kernel's tables

  // ------------------------------------------------- the copying reference

  /** Eager fork (copyuvm): the child gets its own copy of each of the first n pages. What
      copyuvm_cow adds is that neither side may write to them until it has faulted. */
  ghost function EagerFork(a: map<Va, Leaf>, parent: nat, child: nat, n: nat): map<Va, Leaf>
    requires forall i: nat :: i < n ==> Va(parent, i) in a
  {
    if n == 0 then a
    else
      var x := Shared(a[Va(parent, n - 1)]);
      EagerFork(a, parent, child, n - 1)[Va(parent, n - 1) := x][Va(child, n - 1) := x]
  }

  ghost function EagerGrow(a: map<Va, Leaf>, p: nat, lo: nat, hi: nat): map<Va, Leaf>
    requires lo <= hi
    decreases hi
  {
    if lo == hi then a else EagerGrow(a, p, lo, hi - 1)[Va(p, hi - 1) := FreshLeaf()]
  }

  function FreshLeaf(): Leaf { Leaf(Filled(0), UserFlags()) }

  /** Pages lo, lo + 1, ..., hi - 1 of p are given up. */
  ghost function EagerDrop(a: map<Va, Leaf>, p: nat, lo: nat, hi: nat): map<Va, Leaf> {
    map k | k in a && !(k.proc == p && lo <= k.vpn < hi) :: a[k]
  }

  /** The bytes d stored at off of page k. */
  ghost function EagerStore(a: map<Va, Leaf>, k: Va, off: nat, d: seq<Byte>): map<Va, Leaf>
    requires k in a && off + |d| <= PGSIZE
  {
    a[k := a[k].(bytes := Put(a[k].bytes, off, d))]
  }

  /** A user store of one byte, after which the page is writable. */
  ghost function EagerWrite(a: map<Va, Leaf>, k: Va, off: nat, b: Byte): map<Va, Leaf>
    requires k in a && off < PGSIZE
  {
    EagerStore(a[k := Granted(a[k])], k, off, [b])
  }

  /** d stored at the addresses va, va + 1, ... of the page table q. */
  ghost function CopyIn(a: map<Va, Leaf>, q: nat, va: nat, d: seq<Byte>): map<Va, Leaf> {
    map k | k in a :: if k.proc == q then a[k].(bytes := Overlay(a[k].bytes, k.vpn * PGSIZE, va, d)) else a[k]
  }

  ghost function Overlay(page: Page, base: nat, va: nat, d: seq<Byte>): Page {
    seq(PGSIZE, i requires 0 <= i < PGSIZE => if va <= base + i < va + |d| then d[base + i - va] else page[i])
  }

  // --------------------------------------------------------------- outcomes

  /** Why a run stops: the kernel panics, or the claims below do not extend to it. */
  datatype Stop =
    | NoVictim        // final_page finds no present user page: a null pointer is used
    | SwapFull        // panic("Swap full")
    | NotPresent      // panic("copyuvm: page not present"): fork meets a swapped page
    | SwappedShrink   // panic("refcnt already 0"): deallocuvm meets a swapped page
    | LowMemory       // the free list is empty at a kalloc inside cow_page or copyuvm_cow
    | CountClash      // swap-in has cleared a mapped frame's count, or stored behind the table
    | NoEntry         // a fault on a page without an entry: a null or a zero entry is used
    | NotUser         // a user access to a page without PTE_U faults for ever
    | KernelPage      // so does one to a page of the kernel; see VmInv.KernelFaultBreaks
    | Emptied         // growproc freed every page but left sz alone

  datatype Outcome = Done | Halted(why: Stop)
  datatype Option<T> = None | Some(value: T)

  /** setupkvm maps page v in every page table: physical memory from KERNBASE on, and the
      devices. */
  predicate KernelMapped(v: nat) {
    KERNBASE / PGSIZE <= v < KERNBASE / PGSIZE + NFRAMES || DEVSPACE / PGSIZE <= v
  }

  /** A user access to page k is one the kernel serves. */
  ghost predicate Served(a: map<Va, Leaf>, k: Va) { !KernelMapped(k.vpn) && k in a && a[k].perm.u }

  /** What it is taken for if not. */
  ghost function Refusal(a: map<Va, Leaf>, k: Va): Stop {
    if KernelMapped(k.vpn) then KernelPage else if k in a then NotUser else NoEntry
  }

  /** A live process has an entry for each of its pages below sz. */
  ghost predicate ProcsOk(procs: seq<Proc>, ptes: map<Va, Pte>) {
    |procs| == NPROC && forall p: nat :: p < NPROC && procs[p].used ==> Mapped(ptes, p, NPages(procs[p].sz))
  }

  /** Between system calls there are no other entries. */
  ghost predicate Exact(procs: seq<Proc>, ptes: map<Va, Pte>) {
    && |procs| == NPROC && (forall p :: 0 <= p < NPROC && procs[p].used ==> procs[p].sz < KERNBASE)
    && forall k :: k in ptes <==> k.proc < NPROC && procs[k.proc].used && k.vpn < NPages(procs[k.proc].sz)
  }

  /** Every kernel frame that was not one before serves p, and nothing else has changed
      about which frames the kernel has and whom they serve. */
  ghost predicate Booked(kern0: set<nat>, owner0: map<nat, nat>, kern: set<nat>, owner: map<nat, nat>, p: nat) {
    && kern - owner.Keys == kern0 - owner0.Keys
    && (forall f :: f in owner0 ==> f in owner && owner[f] == owner0[f])
    && (forall f :: f in owner ==> f in owner0 || owner[f] == p)
  }

  lemma BookedTwice(kern0: set<nat>, owner0: map<nat, nat>, kern1: set<nat>, owner1: map<nat, nat>,
                    kern2: set<nat>, owner2: map<nat, nat>, p: nat)
    requires Booked(kern0, owner0, kern1, owner1, p) && Booked(kern1, owner1, kern2, owner2, p)
    ensures Booked(kern0, owner0, kern2, owner2, p)
  {
  }

  /** A frame that was taken in between and belongs to nobody is given back. */
  lemma BookedDrop(kern0: set<nat>, owner0: map<nat, nat>, kern: set<nat>, owner: map<nat, nat>, f: nat, p: nat)
    requires Booked(kern0 + {f}, owner0, kern, owner, p) && f !in kern0 && f !in owner && f !in owner0
    ensures Booked(kern0, owner0, kern - {f}, owner, p)
  {
    assert kern - {f} - owner.Keys == (kern - owner.Keys) - {f};
    assert (kern0 + {f} - owner0.Keys) - {f} == kern0 - owner0.Keys;
  }

  /** Between system calls the kernel's frames are the page tables and stacks of the live
      processes. */
  ghost predicate Tidy(kern: set<nat>, owner: map<nat, nat>, procs: seq<Proc>) {
    kern == owner.Keys && forall f :: f in owner ==> owner[f] < |procs| && procs[owner[f]].used
  }

  /** Same processes, pids and sizes; only rss may differ. */
  ghost predicate SameShape(a: seq<Proc>, b: seq<Proc>) {
    |a| == |b| && forall p :: 0 <= p < |a| ==> a[p].(rss := 0) == b[p].(rss := 0)
  }

  /** The entries of page tables that no process has yet, which the swapper cannot find. */
  ghost predicate Parked(ptes0: map<Va, Pte>, ptes: map<Va, Pte>) {
    forall k :: k in ptes0 && k.proc >= NPROC ==> k in ptes && ptes[k] == ptes0[k]
  }

  /** Page v of the page table q, as allocuvm leaves it. */
  ghost predicate NewPage(ptes: map<Va, Pte>, dirs: set<(nat, nat)>, q: nat, v: nat) {
    Va(q, v) in ptes && ptes[Va(q, v)].fl == UserFlags() && (q, v / NPTENTRIES) in dirs
  }

  lemma NewPagesStay(ptes: map<Va, Pte>, dirs: set<(nat, nat)>, ptes': map<Va, Pte>, dirs': set<(nat, nat)>, q: nat)
    requires Parked(ptes, ptes') && dirs <= dirs'
    ensures q >= NPROC ==> forall v: nat :: NewPage(ptes, dirs, q, v) ==> NewPage(ptes', dirs', q, v)
  {
  }

  lemma ParkedTrans(ptes0: map<Va, Pte>, ptes1: map<Va, Pte>, ptes2: map<Va, Pte>)
    requires Parked(ptes0, ptes1) && Parked(ptes1, ptes2)
    ensures Parked(ptes0, ptes2)
  {
  }

  /** Page k is in memory, or can be brought in with the frame that kalloc would hand out. */
  ghost predicate Reachable(s: St, k: Va)
    requires s.freelist != []
  {
    k in s.ptes && (s.ptes[k].fl.p || !Clash(s, k))
  }

  /** Every page is in memory. */
  ghost predicate Plain(ptes: map<Va, Pte>) {
    forall k :: k in ptes ==> ptes[k].fl.p
  }

  /** The swap block number of k is the number of a mapped frame, of the frame kalloc is
      about to hand out, or of none in the count table. */
  ghost predicate Clash(s: St, k: Va)
    requires k in s.ptes && s.freelist != []
  {
    s.ptes[k].frame >= NFRAMES || s.ptes[k].frame == s.freelist[0] || Refs(s.ptes, s.ptes[k].frame) != {}
  }

  /** One process, with no pages yet. */
  function StartProcs(): seq<Proc> { seq(NPROC, p => Proc(p == 0, if p == 0 then 1 else 0, 0, 0)) }

  lemma StartExact()
    ensures Exact(StartProcs(), map[]) && ProcsOk(StartProcs(), map[]) && StartProcs()[0].used
  {
  }

  /** kinit has freed the frames lo, ..., f - 1, the last one first on the list. */
  ghost predicate Started(s: St, lo: nat, f: nat) {
    && lo <= f && |s.mem| == NFRAMES && s.refcnt == seq(NFRAMES, _ => 0) && s.past == {}
    && |s.freelist| == f - lo && s.numFree == f - lo
    && (forall i :: 0 <= i < |s.freelist| ==> s.freelist[i] == f - 1 - i)
    && s.kern == {} && s.ptes == map[]
    && |s.slots| == NSLOTS && (forall i :: 0 <= i < NSLOTS ==> s.slots[i].free) && |s.swap| == NSLOTS
  }

  lemma StartNext(s: St, lo: nat, f: nat)
    requires Started(s, lo, f) && f < NFRAMES
    ensures var t := KFree(s, f); f < |t.refcnt| && Started(t.(refcnt := t.refcnt[f := 0]), lo, f + 1)
  {
  }

  lemma StartInv(s: St, lo: nat, hi: nat)
    requires Started(s, lo, hi) && hi <= NFRAMES && s.pool == Frames(lo, hi)
    ensures Inv(s)
  {
    forall f: nat ensures FrameOk(s, f) {
      assert Refs(s.ptes, f) == {};
      if lo <= f < hi {
        assert s.freelist[hi - 1 - f] == f;
      }
    }
  }

  class Vm {
    ghost const pool: set<nat>
    var mem: seq<Page>
    var refcnt: seq<int>
    var past: set<nat>                // where swap-in has stored behind the end of refcnt
    var freelist: seq<nat>
    var numFree: int
    var kern: set<nat>
    var ptes: map<Va, Pte>
    var slots: seq<Slot>
    var disk: seq<Block>
    var procs: seq<Proc>
    var owner: map<nat, nat>          // the process each page table and kernel stack serves
    var dirs: set<(nat, nat)>         // (process, directory index) with a page table

    ghost function S(): St
      requires HasSwapArea(disk)
      reads this
    {
      St(pool, mem, refcnt, past, freelist, numFree, kern, ptes, slots, SwapPages(disk))
    }

    ghost predicate Ok()
      reads this
    {
      && HasSwapArea(disk) && Inv(S()) && ProcsOk(procs, ptes)
      && (forall f :: f in owner ==> f in kern)
    }

    /** freerange over the frames lo, ..., hi - 1, swapinit, and one process without pages. */
    constructor (disk: seq<Block>, lo: nat, hi: nat)
      requires HasSwapArea(disk) && lo <= hi <= NFRAMES
      ensures Ok() && Exact(procs, ptes) && Tidy(kern, owner, procs) && Spare(hi - lo) && ptes == map[] && procs[0].used
    {
      pool := Frames(lo, hi);
      this.disk := disk;
      mem := seq(NFRAMES, _ => Filled(0));
      refcnt := seq(NFRAMES, _ => 0);
      past, freelist, numFree, kern := {}, [], 0, {};
      ptes, owner, dirs := map[], map[], {};
      slots := seq(NSLOTS, _ => Slot(true, Flags(false, false, false, false, false, 0)));
      procs := StartProcs();
      new;
      hide SwapPages, KFree, StartProcs, Exact, ProcsOk, Inv;
      var f := lo;
      while f < hi
        invariant lo <= f <= hi && HasSwapArea(this.disk) && Started(S(), lo, f)
        invariant procs == StartProcs() && owner == map[] && kern == {}
      {
        StartNext(S(), lo, f);
        Kfree(f);
        refcnt := refcnt[f := 0];
        f := f + 1;
      }
      StartInv(S(), lo, hi);
      StartExact();
    }

    /** Whether the entry of k, or the flags kept in its slot, have PTE_U. */
    predicate UserBit(k: Va)
      requires k in ptes
      reads this
    {
      var e := ptes[k];
      if e.fl.p || SlotOf(e.frame) >= |slots| then e.fl.u else slots[SlotOf(e.frame)].perm.u
    }

    /** Nothing is swapped out and n frames are free. */
    ghost predicate Spare(n: int)
      reads this
    {
      Plain(ptes) && |freelist| >= n
    }

    /** kfree: gives up one reference to frame f. */
    method Kfree(f: nat)
      requires HasSwapArea(disk) && |mem| == |refcnt| && f < |mem|
      modifies this`mem, this`refcnt, this`freelist, this`numFree
      ensures S() == KFree(old(S()), f)
    {
      if refcnt[f] > 1 {
        refcnt := refcnt[f := refcnt[f] - 1];
        return;
      }
      mem := mem[f := Filled(1)];
      numFree := numFree + 1;
      freelist := [f] + freelist;
    }

    /** final_page: a page of v, the process with the largest rss, or nothing exactly when v
        has no present user page. */
    method FinalPage() returns (r: Option<Va>, ghost v: nat)
      requires Ok()
      modifies this`ptes, this`procs
      ensures Ok() && Undisturbed(old(S()), S()) && PresentSet(ptes) == PresentSet(old(ptes)) && SameShape(old(procs), procs)
      ensures v < NPROC && forall q :: 0 <= q < NPROC ==> Beats(old(procs)[v], old(procs)[q])
      ensures r.Some? <==> procs[v].used && HasUserPage(old(ptes), v, NPages(procs[v].sz))
      ensures r.Some? ==> r.value.proc == v && r.value in ptes && Candidate(ptes[r.value])
      ensures Parked(old(ptes), ptes)
    {
      hide FramesOk, SlotsOk, FlagsOf, Pages, CountAccessed, Undisturbed, PresentSet, Beats, HasUserPage;
      var victim := GetVictimProcess(procs);
      v := victim;
      var rss := procs[victim].rss;
      procs := procs[victim := procs[victim].(rss := if rss >= PGSIZE then rss - PGSIZE else rss + 0x1_0000_0000 - PGSIZE)];
      UndisturbedRefl(S());
      ProcsKept(old(procs), procs, ptes, ptes);
      if !procs[victim].used {
        return None, v;
      }
      var n := NPages(procs[victim].sz);
      assert Mapped(ptes, victim, n);
      var ptes', found, i := ChoosePage(ptes, victim, n);
      if ptes' != ptes {
        FlushedAges(S(), ptes', victim, n);
        FlushedParked(ptes, ptes', victim, n);
        ProcsKept(old(procs), procs, ptes, ptes');
        ptes := ptes';
      }
      r := if found then Some(Va(victim, i)) else None;
    }

    /** The loop of swap_out: the first free slot. */
    method FindSlot() returns (i: nat)
      requires |slots| == NSLOTS
      ensures i <= NSLOTS && (i < NSLOTS ==> slots[i].free) && forall j :: 0 <= j < i ==> !slots[j].free
    {
      i := 0;
      while i < NSLOTS && !slots[i].free
        invariant 0 <= i <= NSLOTS
        invariant forall j :: 0 <= j < i ==> !slots[j].free
      {
        i := i + 1;
      }
    }

    /** The end of swap_out: the page of k goes to slot i. */
    method Evict(k: Va, i: nat)
      requires Ok() && Present(S(), k) && i < NSLOTS && slots[i].free
      modifies this`mem, this`refcnt, this`freelist, this`numFree, this`ptes, this`slots, this`disk
      ensures Ok() && Undisturbed(old(S()), S()) && KernKept(old(S()), S())
      ensures |PresentSet(ptes)| == |PresentSet(old(ptes))| - 1
      ensures ptes == old(ptes)[k := Pte(SlotBlock(i), SwappedFlags())] && slots == old(slots)[i := Slot(false, old(ptes)[k].fl)]
    {
      hide FramesOk, SlotsOk, FlagsOf, Pages, Undisturbed, PresentSet, ProcsOk, SwapPages, KernKept;
      ghost var s1 := S();
      FrameOf(s1, k);
      var e := ptes[k];
      slots := slots[i := Slot(false, e.fl)];
      disk := WritePageToSwap(disk, i, mem[e.frame]);
      Kfree(e.frame);
      ptes := ptes[k := Pte(SlotBlock(i), SwappedFlags())];
      SwapOutMeasure(s1, k, i);
      SwapOutKern(s1, k, i);
      assert S() == SwapOut(s1, k, i);
      ProcsKept(procs, procs, s1.ptes, ptes);
    }

    /** swap_out: one present entry less, and no process notices. */
    method SwapOutPage() returns (r: Outcome)
      requires Ok()
      modifies this`mem, this`refcnt, this`freelist, this`numFree, this`ptes, this`slots, this`disk, this`procs
      ensures Ok() && Undisturbed(old(S()), S()) && KernKept(old(S()), S()) && SameShape(old(procs), procs)
      ensures r.Done? ==> |PresentSet(ptes)| == |PresentSet(old(ptes))| - 1
      ensures r == Halted(SwapFull) <==> forall i :: 0 <= i < NSLOTS ==> !old(slots)[i].free
      ensures r.Halted? ==> r.why == SwapFull || r.why == NoVictim
      ensures Parked(old(ptes), ptes)
    {
      hide FramesOk, SlotsOk, FlagsOf, Pages, Undisturbed, PresentSet, ProcsOk, HasUserPage, SwapPages, KernKept, Parked;
      ghost var s0 := S();
      var pte, _ := FinalPage();
      ghost var s1 := S();
      FinalKept(s0, s1);
      var i := FindSlot();
      if i == NSLOTS {
        return Halted(SwapFull);
      }
      if pte.None? {
        return Halted(NoVictim);
      }
      Evict(pte.value, i);
      ParkedSet(s0.ptes, s1.ptes, pte.value, ptes[pte.value]);
      UndisturbedTrans(s0, s1, S());
      KernKeptTrans(s0, s1, S());
      return Done;
    }

    /** kalloc: a frame with count 1, swapping out pages until there is one. Each round
        leaves one present entry less, so it ends even if shared frames are not freed. */
    method Kalloc() returns (r: Outcome, f: nat)
      requires Ok()
      modifies this`mem, this`refcnt, this`freelist, this`numFree, this`kern, this`ptes, this`slots, this`disk, this`procs
      ensures Ok()
      ensures r.Done? ==> Owned(S(), f) && kern == old(kern) + {f} && f !in old(kern) && Undisturbed(old(S()), S())
      ensures r.Halted? ==> r.why == SwapFull || r.why == NoVictim
      ensures KernKept(old(S()), S()) && SameShape(old(procs), procs) && Parked(old(ptes), ptes)
      ensures HasFree(old(S())) ==> r.Done? && S() == KernAlloc(old(S())) && f == old(freelist)[0] && procs == old(procs)
      ensures old(freelist) != [] ==> r.Done? && f == old(freelist)[0] && ptes == old(ptes) && freelist == old(freelist)[1..]
      decreases |PresentSet(ptes)|
    {
      hide FramesOk, SlotsOk, FlagsOf, Pages, Undisturbed, PresentSet, ProcsOk, SwapPages, KernKept, Parked;
      ghost var s0 := S();
      ParkedSelf(ptes);
      if freelist != [] {
        HeadFree(s0);
        KernAllocKeeps(s0);
        KernAllocUndisturbed(s0);
        KernAllocKern(s0);
        f := freelist[0];
        freelist := freelist[1..];
        numFree := numFree - 1;
        refcnt := refcnt[f := 1];
        kern := kern + {f};
        assert S() == KernAlloc(s0);
        return Done, f;
      }
      r := SwapOutPage();
      if r.Halted? {
        return r, 0;
      }
      ghost var s1 := S();
      r, f := Kalloc();
      KernKeptTrans(s0, s1, S());
      ParkedTrans(s0.ptes, s1.ptes, ptes);
      if r.Done? {
        UndisturbedTrans(s0, s1, S());
      }
    }

    /** walkpgdir with alloc set: process p has a page table for page v. */
    method WalkAlloc(p: nat, v: nat) returns (r: Outcome)
      requires Ok()
      modifies this`mem, this`refcnt, this`freelist, this`numFree, this`kern, this`ptes, this`slots, this`disk, this`procs, this`owner, this`dirs
      ensures Ok() && KernKept(old(S()), S()) && SameShape(old(procs), procs)
      ensures forall g :: g in owner ==> g in old(owner) || g !in old(kern)
      ensures r.Done? ==> Undisturbed(old(S()), S()) && (p, v / NPTENTRIES) in dirs
      ensures (p, v / NPTENTRIES) in old(dirs) || HasFree(old(S())) ==> r.Done? && ptes == old(ptes) && mem == old(mem)
      ensures old(freelist) != [] ==> r.Done? && ptes == old(ptes) && |freelist| >= |old(freelist)| - 1
      ensures r.Done? ==> Booked(old(kern), old(owner), kern, owner, p)
      ensures Parked(old(ptes), ptes) && dirs >= old(dirs)
    {
      hide FramesOk, SlotsOk, FlagsOf, Pages, Undisturbed, ProcsOk, SwapPages, KernKept, SameShape, Parked;
      if (p, v / NPTENTRIES) in dirs {
        SelfSame(S(), procs);
        ParkedSelf(ptes);
        return Done;
      }
      var f;
      r, f := Kalloc();
      if r.Done? {
        owner := owner[f := p];
        dirs := dirs + {(p, v / NPTENTRIES)};
      }
    }

    /** memset(mem, 0, PGSIZE) and mappages of it as writable user page k. */
    method MapZeroed(k: Va, f: nat)
      requires Ok() && Owned(S(), f) && f !in owner && k !in ptes
      modifies this`mem, this`kern, this`ptes
      ensures Ok() && Pages(S()) == Pages(old(S()))[k := FreshLeaf()]
      ensures ptes == old(ptes)[k := Pte(f, UserFlags())] && kern == old(kern) - {f}
    {
      hide FramesOk, SlotsOk, Pages, ProcsOk, SwapPages;
      ghost var s0 := S();
      var fl := UserFlags();
      MapOwnedKeeps(s0, k, f, Filled(0), fl);
      mem := mem[f := Filled(0)];
      kern := kern - {f};
      ptes := ptes[k := Pte(f, fl)];
      assert S() == MapOwned(s0, k, f, Filled(0), fl);
      ProcsMore(procs, procs, s0.ptes, ptes);
    }

    /** One round of allocuvm for the page table q; p is the process that makes the call. */
    method AllocPage(q: nat, a: nat, p: nat) returns (r: Outcome)
      requires Ok() && p < NPROC && Va(q, a) !in ptes
      modifies this`mem, this`refcnt, this`freelist, this`numFree, this`kern, this`ptes, this`slots, this`disk, this`procs, this`owner, this`dirs
      ensures Ok() && SameShape(old(procs), procs)
      ensures r.Done? ==> Pages(S()) == Pages(old(S()))[Va(q, a) := FreshLeaf()]
      ensures r.Done? ==> Booked(old(kern), old(owner), kern, owner, q)
      ensures r.Done? ==> Parked(old(ptes), ptes) && dirs >= old(dirs) && NewPage(ptes, dirs, q, a)
      ensures old(Spare(2)) ==> r.Done? && Plain(ptes) && |freelist| >= |old(freelist)| - 2
    {
      hide FramesOk, SlotsOk, FlagsOf, Pages, Undisturbed, ProcsOk, SwapPages, KernKept, Parked;
      ghost var s0 := S();
      var f;
      r, f := Kalloc();
      if r.Halted? {
        return;
      }
      ghost var s1 := S();
      r := WalkAlloc(q, a);
      if r.Halted? {
        return;
      }
      ghost var s2 := S();
      PagesUndisturbed(s0, s1);
      PagesUndisturbed(s1, s2);
      PagesKeys(s0);
      PagesKeys(s2);
      OwnedKept(s1, s2, f);
      BookedDrop(old(kern), old(owner), kern, owner, f, q);
      ParkedTrans(s0.ptes, s1.ptes, s2.ptes);
      MapZeroed(Va(q, a), f);
      ParkedSet(s0.ptes, s2.ptes, Va(q, a), ptes[Va(q, a)]);
      AddRss(p);
    }

    /** allocuvm: zeroed pages in the page table q from the old size up to the new one. */
    method Allocuvm(q: nat, oldsz: nat, newsz: nat, p: nat) returns (r: Outcome, sz: nat)
      requires Ok() && p < NPROC
      requires forall v: nat :: Va(q, v) in ptes ==> v < NPages(oldsz)
      modifies this`mem, this`refcnt, this`freelist, this`numFree, this`kern, this`ptes, this`slots, this`disk, this`procs, this`owner, this`dirs
      ensures Ok() && SameShape(old(procs), procs)
      ensures r.Done? && newsz >= KERNBASE ==> sz == 0 && Pages(S()) == Pages(old(S()))
      ensures r.Done? && newsz < KERNBASE && newsz < oldsz ==> sz == oldsz && Pages(S()) == Pages(old(S()))
      ensures r.Done? && newsz < KERNBASE && newsz >= oldsz ==>
                sz == newsz && NPages(oldsz) <= NPages(newsz)
                && Pages(S()) == EagerGrow(Pages(old(S())), q, NPages(oldsz), NPages(newsz))
      ensures old(Spare(AllocNeed(oldsz, newsz))) ==> r.Done? && Plain(ptes) && |freelist| >= |old(freelist)| - AllocNeed(oldsz, newsz)
      ensures r.Done? ==> Booked(old(kern), old(owner), kern, owner, q)
      ensures r.Done? && q >= NPROC && newsz < KERNBASE ==>
                forall v: nat :: NPages(oldsz) <= v < NPages(newsz) ==> NewPage(ptes, dirs, q, v)
    {
      hide FramesOk, SlotsOk, FlagsOf, Pages, Undisturbed, ProcsOk, SwapPages, KernKept, EagerGrow, Booked, Parked, NewPage;
      SelfSame(S(), procs);
      ProcsMore(procs, procs, ptes, ptes);
      NothingBooked(kern, owner, q, ptes);
      NPagesMonotone(newsz, oldsz);
      if newsz >= KERNBASE {
        return Done, 0;
      }
      if newsz < oldsz {
        return Done, oldsz;
      }
      ghost var a0 := Pages(S());
      ghost var lo := NPages(oldsz);
      NPagesMonotone(oldsz, newsz);
      var a := NPages(oldsz);
      EagerGrowStart(a0, q, lo);
      while a < NPages(newsz)
        invariant lo <= a <= NPages(newsz)
        invariant Ok() && SameShape(old(procs), procs)
        invariant Pages(S()) == EagerGrow(a0, q, lo, a)
        invariant old(Spare(AllocNeed(oldsz, newsz))) ==> Plain(ptes) && |freelist| >= |old(freelist)| - 2 * (a - lo)
        invariant Booked(old(kern), old(owner), kern, owner, q)
        invariant q >= NPROC ==> forall v: nat :: lo <= v < a ==> NewPage(ptes, dirs, q, v)
      {
        ghost var kern1, owner1, ptes1, dirs1 := kern, owner, ptes, dirs;
        GrowFresh(S(), old(S()), q, lo, a);
        r := AllocPage(q, a, p);
        if r.Halted? {
          return r, 0;
        }
        BookedTwice(old(kern), old(owner), kern1, owner1, kern, owner, q);
        NewPagesStay(ptes1, dirs1, ptes, dirs, q);
        EagerGrowNext(a0, q, lo, a);
        a := a + 1;
      }
      return Done, newsz;
    }

    /** deallocuvm: pages between the new size and the old one are given up. */
    method Deallocuvm(p: nat, oldsz: nat, newsz: nat) returns (r: Outcome)
      requires HasSwapArea(disk) && Inv(S()) && newsz < oldsz && p < |procs|
      modifies this`mem, this`refcnt, this`freelist, this`numFree, this`ptes, this`procs
      ensures Inv(S()) && SameShape(old(procs), procs)
      ensures r.Done? ==> Pages(S()) == EagerDrop(Pages(old(S())), p, NPages(newsz), NPages(oldsz))
      ensures r.Halted? <==> exists v: nat :: NPages(newsz) <= v < NPages(oldsz) && Swapped(old(S()), Va(p, v))
      ensures r.Halted? ==> r.why == SwappedShrink
      ensures |freelist| >= |old(freelist)| && (forall k :: k in ptes ==> k in old(ptes) && ptes[k] == old(ptes)[k])
    {
      hide FramesOk, SlotsOk, FlagsOf, Pages, SwapPages, EagerDrop, KFree;
      ghost var s0 := S();
      ghost var lo := NPages(newsz);
      NPagesMonotone(newsz, oldsz);
      EagerDropNone(Pages(s0), p, lo);
      var a := NPages(newsz);
      while a < NPages(oldsz)
        invariant lo <= a <= NPages(oldsz)
        invariant Inv(S()) && SameShape(old(procs), procs)
        invariant Pages(S()) == EagerDrop(Pages(s0), p, lo, a)
        invariant forall v: nat :: lo <= v < a ==> !Swapped(s0, Va(p, v))
        invariant forall v: nat :: a <= v && Va(p, v) in s0.ptes ==> Va(p, v) in ptes && ptes[Va(p, v)] == s0.ptes[Va(p, v)]
        invariant forall v: nat :: a <= v && Va(p, v) in ptes ==> Va(p, v) in s0.ptes
        invariant |freelist| >= |old(freelist)| && (forall k :: k in ptes ==> k in s0.ptes && ptes[k] == s0.ptes[k])
      {
        var k := Va(p, a);
        EagerDropNext(Pages(s0), p, lo, a);
        if k in ptes {
          if ptes[k].fl.p {
            ghost var s1 := S();
            UnmapKeeps(s1, k);
            KFreeGrows(s1, ptes[k].frame);
            Kfree(ptes[k].frame);
            procs := procs[p := procs[p].(rss := (procs[p].rss + 0x1_0000_0000 - PGSIZE) % 0x1_0000_0000)];
            ptes := ptes - {k};
            assert S() == Unmap(s1, k);
          } else {
            assert Swapped(s0, Va(p, a));
            return Halted(SwappedShrink);
          }
        } else {
          PagesKeys(S());
        }
        a := a + 1;
      }
      return Done;
    }

    /** One round of copyuvm_cow: page i. a0 is what the processes saw at the start. */
    method CowRound(parent: nat, child: nat, i: nat, ghost a0: map<Va, Leaf>) returns (r: Outcome)
      requires Ok() && parent != child && child < NPROC
      requires (forall j: nat :: j <= i ==> Va(parent, j) in a0) && forall v: nat :: Va(child, v) !in a0
      requires Pages(S()) == EagerFork(a0, parent, child, i)
      modifies this`mem, this`refcnt, this`freelist, this`numFree, this`kern, this`ptes, this`slots, this`disk, this`procs, this`owner, this`dirs
      ensures Ok() && SameShape(old(procs), procs)
      ensures r.Done? ==> Pages(S()) == EagerFork(a0, parent, child, i + 1)
      ensures r.Done? ==> Booked(old(kern), old(owner), kern, owner, child) && FramesStay(old(ptes), ptes)
      ensures r.Halted? ==> r.why == NotPresent || r.why == LowMemory
      ensures old(Spare(1)) ==> r.Done? && Plain(ptes) && |freelist| >= |old(freelist)| - 1
    {
      hide FramesOk, SlotsOk, FlagsOf, Pages, ProcsOk, SwapPages, EagerFork, LeafOf, Booked, FramesStay, SameShape;
      EagerForkKeys(a0, parent, child, i);
      PagesKeys(S());
      ProcsSize(procs, ptes);
      var k, c := Va(parent, i), Va(child, i);
      assert k in ptes && c !in ptes && Pages(S())[k] == a0[k];
      ghost var procs0, ptes0 := procs, ptes;
      AddRss(child);
      if !ptes[k].fl.p {
        return Halted(NotPresent);
      }
      if (child, i / NPTENTRIES) !in dirs && freelist == [] {
        return Halted(LowMemory);
      }
      ghost var procs1 := procs;
      r := SharePage(k, c);
      ShapeTrans(procs0, procs1, procs);
      SharedStay(ptes0, ptes0, ptes, k, c);
      StaySelf(ptes0);
      EagerForkNext(a0, parent, child, i);
    }

    /** copyuvm_cow: the child shares every page of the parent, read-only on both sides. */
    method CopyuvmCow(parent: nat, child: nat, sz: nat) returns (r: Outcome)
      requires Ok() && parent != child && child < NPROC && Mapped(ptes, parent, NPages(sz))
      requires forall v: nat :: Va(child, v) !in ptes
      modifies this`mem, this`refcnt, this`freelist, this`numFree, this`kern, this`ptes, this`slots, this`disk, this`procs, this`owner, this`dirs
      ensures Ok() && SameShape(old(procs), procs)
      ensures r.Done? ==> Pages(S()) == EagerFork(Pages(old(S())), parent, child, NPages(sz))
      ensures r.Done? ==> Booked(old(kern), old(owner), kern, owner, child)
      ensures r.Halted? ==> r.why == NotPresent || r.why == LowMemory
      ensures old(Spare(NPages(sz))) ==> r.Done? && Plain(ptes) && |freelist| >= |old(freelist)| - NPages(sz)
      ensures old(Spare(NPages(sz))) ==> FramesStay(old(ptes), ptes)
    {
      hide FramesOk, SlotsOk, FlagsOf, Pages, ProcsOk, SwapPages, EagerFork, LeafOf, Booked, FramesStay, SameShape, Plain;
      ghost var a0 := Pages(S());
      PagesKeys(S());
      ShapeLength(procs, procs);
      EagerForkNone(a0, parent, child);
      NothingBooked(kern, owner, child, ptes);
      var i := 0;
      while i < NPages(sz)
        invariant 0 <= i <= NPages(sz)
        invariant Ok() && SameShape(old(procs), procs)
        invariant Pages(S()) == EagerFork(a0, parent, child, i)
        invariant Booked(old(kern), old(owner), kern, owner, child) && FramesStay(old(ptes), ptes)
        invariant old(Spare(NPages(sz))) ==> Plain(ptes) && |freelist| >= |old(freelist)| - i
      {
        ghost var kern1, owner1, ptes1, procs1 := kern, owner, ptes, procs;
        r := CowRound(parent, child, i, a0);
        ShapeTrans(old(procs), procs1, procs);
        if r.Halted? {
          return;
        }
        BookedTwice(old(kern), old(owner), kern1, owner1, kern, owner, child);
        StayTwice(old(ptes), ptes1, ptes);
        i := i + 1;
      }
      return Done;
    }

    /** p->rss += PGSIZE, in 32 bits. */
    method AddRss(p: nat)
      requires Ok() && p < NPROC
      modifies this`procs
      ensures Ok() && SameShape(old(procs), procs)
    {
      hide FramesOk, SlotsOk;
      ghost var before := procs;
      procs := procs[p := procs[p].(rss := (procs[p].rss + PGSIZE) % 0x1_0000_0000)];
      ProcsMore(before, procs, ptes, ptes);
    }

    /** *pte = (*pte with other flags); no second writer appears. */
    method SetPteFlags(k: Va, fl: Flags)
      requires Ok() && Present(S(), k) && fl.p && !fl.sw && ptes[k].frame < NFRAMES
      requires fl.w ==> ptes[k].fl.w || refcnt[ptes[k].frame] <= 1
      modifies this`ptes
      ensures Ok() && k in Pages(old(S())) && ptes == old(ptes)[k := old(ptes)[k].(fl := fl)]
      ensures Pages(S()) == Pages(old(S()))[k := Leaf(Pages(old(S()))[k].bytes, fl.(a := false))]
    {
      hide FramesOk, SlotsOk, FlagsOf, Pages, ProcsOk, SwapPages;
      ghost var s0 := S();
      PagesKeys(s0);
      SetFlagsKeeps(s0, k, fl);
      ptes := ptes[k := ptes[k].(fl := fl)];
      assert S() == SetFlags(s0, k, fl);
      ProcsKept(procs, procs, s0.ptes, ptes);
    }

    /** The child's entry, and page_to_refcnt[...]++. */
    method LinkChild(k: Va, c: Va)
      requires Ok() && Present(S(), k) && !ptes[k].fl.w && c !in ptes
      modifies this`ptes, this`refcnt
      ensures Ok() && k in Pages(old(S())) && Pages(S()) == Pages(old(S()))[c := Pages(old(S()))[k]]
      ensures ptes == old(ptes)[c := old(ptes)[k]]
    {
      hide FramesOk, SlotsOk, FlagsOf, Pages, ProcsOk, SwapPages, LeafOf;
      ghost var s0 := S();
      PagesKeys(s0);
      LinkKeeps(s0, k, c);
      var f := ptes[k].frame;
      ptes := ptes[c := ptes[k]];
      refcnt := refcnt[f := refcnt[f] + 1];
      assert S() == Link(s0, k, c);
      ProcsMore(procs, procs, s0.ptes, ptes);
    }

    /** One page of copyuvm_cow: write permission goes, the child's entry and count come. */
    method SharePage(k: Va, c: Va) returns (r: Outcome)
      requires Ok() && Present(S(), k) && c !in ptes
      requires (c.proc, c.vpn / NPTENTRIES) in dirs || freelist != []
      modifies this`mem, this`refcnt, this`freelist, this`numFree, this`kern, this`ptes, this`slots, this`disk, this`procs, this`owner, this`dirs
      ensures Ok() && SameShape(old(procs), procs) && r.Done?
      ensures k in Pages(old(S())) && Pages(S()) == Pages(old(S()))[k := Shared(Pages(old(S()))[k])][c := Shared(Pages(old(S()))[k])]
      ensures Booked(old(kern), old(owner), kern, owner, c.proc)
      ensures ptes == old(ptes)[k := Revoked(old(ptes)[k])][c := Revoked(old(ptes)[k])]
      ensures old(Spare(1)) ==> Plain(ptes) && |freelist| >= |old(freelist)| - 1
    {
      hide FramesOk, SlotsOk, FlagsOf, Pages, Undisturbed, ProcsOk, SwapPages, KernKept, LeafOf, SameShape, Booked;
      ghost var s0 := S();
      SlotsPresent(s0);
      FrameOf(s0, k);
      PresentLeaf(s0, k);
      SetPteFlags(k, ptes[k].fl.(w := false));
      ghost var s1 := S();
      if freelist != [] {
        HeadFree(s1);
      }
      r := WalkAlloc(c.proc, c.vpn);
      ghost var s2 := S();
      PagesUndisturbed(s1, s2);
      PagesKeys(s2);
      LinkChild(k, c);
    }

    /** cow_page after its kalloc: the frame f becomes k's. */
    method Privatize(k: Va, f: nat)
      requires Ok() && Owned(S(), f) && f !in owner && Present(S(), k) && ptes[k].frame < NFRAMES && refcnt[ptes[k].frame] > 1
      modifies this`mem, this`refcnt, this`kern, this`ptes
      ensures Ok() && k in Pages(old(S())) && kern == old(kern) - {f}
      ensures Pages(S()) == Pages(old(S()))[k := Granted(Pages(old(S()))[k])]
      ensures ptes == old(ptes)[k := Pte(f, old(ptes)[k].fl.(w := true))]
    {
      hide FramesOk, SlotsOk, FlagsOf, Pages, ProcsOk, SwapPages, LeafOf;
      ghost var s1 := S();
      PagesKeys(s1);
      CowOwnedKeeps(s1, k, f);
      var e := ptes[k];
      refcnt := refcnt[e.frame := refcnt[e.frame] - 1];
      mem := mem[f := mem[e.frame]];
      kern := kern - {f};
      ptes := ptes[k := Pte(f, e.fl.(w := true))];
      assert S() == CowOwned(s1, k, f);
      ProcsKept(procs, procs, s1.ptes, ptes);
    }

    /** cow_page: k gets a writable frame of its own; nobody's bytes change. */
    method CowPage(k: Va) returns (r: Outcome)
      requires Ok() && Present(S(), k) && ptes[k].frame < NFRAMES && refcnt[ptes[k].frame] > 1
      modifies this`mem, this`refcnt, this`freelist, this`numFree, this`kern, this`ptes, this`slots, this`disk, this`procs
      ensures Ok() && SameShape(old(procs), procs) && k in Pages(old(S())) && kern == old(kern)
      ensures r == if old(freelist) == [] then Halted(LowMemory) else Done
      ensures Pages(S()) == if r.Done? then Pages(old(S()))[k := Granted(Pages(old(S()))[k])] else Pages(old(S()))
      ensures r.Done? ==> k in ptes && ptes[k].fl == old(ptes)[k].fl.(w := true)
      ensures r.Done? ==> ptes == old(ptes)[k := ptes[k]] && |freelist| == |old(freelist)| - 1
    {
      hide FramesOk, SlotsOk, FlagsOf, Pages, Undisturbed, ProcsOk, SwapPages, KernKept, LeafOf, SameShape;
      ghost var s0 := S();
      PagesKeys(s0);
      ShapeLength(procs, procs);
      if freelist == [] {
        return Halted(LowMemory);
      }
      HeadFree(s0);
      FrameOf(s0, k);
      var f;
      r, f := Kalloc();
      PagesUndisturbed(s0, S());
      Privatize(k, f);
    }

    /** The not-present branch of handle_page_fault: k comes back with the very flags it was
        swapped out with, whatever the kalloc inside swaps out meanwhile. The branch looks at
        nothing but the slot, so its store to the count table is made in any case; the
        outcome only reports whether the counts survived it. */
    method SwapInPage(k: Va) returns (r: Outcome)
      requires Ok() && Swapped(S(), k)
      modifies this`mem, this`refcnt, this`past, this`freelist, this`numFree, this`kern, this`ptes, this`slots, this`disk, this`procs
      ensures HasSwapArea(disk) && Sizes(S()) && SameShape(old(procs), procs)
      ensures r.Done? || r == Halted(CountClash) ==>
                Pages(S()) == Pages(old(S())) && k in ptes && ptes[k].fl == FlagsOf(old(S()), k) && ptes[k].fl.p
      ensures r.Done? ==> Ok() && kern == old(kern) && ptes[k].frame < NFRAMES && refcnt[ptes[k].frame] == 1
      ensures r == Halted(CountClash) ==> !Inv(S())
      ensures r.Halted? ==> r.why == CountClash || r.why == SwapFull || r.why == NoVictim
      ensures old(freelist) != [] ==> (r == Halted(CountClash) <==> Clash(old(S()), k)) && (r.Halted? ==> r.why == CountClash)
    {
      hide FramesOk, SlotsOk, FlagsOf, Pages, Undisturbed, ProcsOk, SwapPages, KernKept;
      ghost var s0 := S();
      var f;
      r, f := Kalloc();
      if r.Halted? {
        return;
      }
      ghost var s1 := S();
      PagesUndisturbed(s0, s1);
      SwappedStays(s0, s1, k);
      SlotPerm(s1, k);
      var block := ptes[k].frame;
      RefsMember(ptes, block);
      var clash := block >= NFRAMES || block == f || exists l :: l in ptes && ptes[l].fl.p && ptes[l].frame == block;
      assert clash <==> !Harmless(s1, k, f);
      RestorePage(k, f);
      r := if clash then Halted(CountClash) else Done;
    }

    /** The end of that branch: frame f takes the page of k's slot, and the slot is free. */
    method RestorePage(k: Va, f: nat)
      requires Ok() && Owned(S(), f) && f !in owner && Swapped(S(), k)
      modifies this`mem, this`refcnt, this`past, this`kern, this`ptes, this`slots
      ensures HasSwapArea(disk) && Sizes(S()) && Pages(S()) == Pages(old(S()))
      ensures SlotOf(old(ptes)[k].frame) < NSLOTS && S() == SwapInOwned(old(S()), k, f)
      ensures k in ptes && ptes[k].fl == FlagsOf(old(S()), k) && ptes[k].fl.p && ptes[k].frame == f < NFRAMES
      ensures old(ptes)[k].frame != f ==> refcnt[f] == 1
      ensures Inv(S()) <==> Harmless(old(S()), k, f)
      ensures Inv(S()) ==> Ok()
    {
      hide FramesOk, SlotsOk, FlagsOf, Pages, ProcsOk, SwapPages, Harmless;
      ghost var s1 := S();
      SwapInKeeps(s1, k, f);
      SlotPerm(s1, k);
      var block := ptes[k].frame;
      var i := SlotOf(block);
      var page := ReadPageFromSwap(disk, i);
      mem := mem[f := page];
      if block < NFRAMES {
        refcnt := refcnt[block := 0];
      } else {
        past := past + {block};
      }
      kern := kern - {f};
      ptes := ptes[k := Pte(f, slots[i].perm.(p := true))];
      slots := slots[i := slots[i].(free := true)];
      assert S() == SwapInOwned(s1, k, f);
      ProcsKept(procs, procs, s1.ptes, ptes);
    }

    /** handle_page_fault at an address of page k. It does not ask whether k is a page of the
        process: without an entry for k it follows a null pointer, or takes the zero entry
        for one that is swapped out to block 0, and it handles the kernel's own mappings like
        the user's (VmInv.KernelFault). */
    method HandlePageFault(k: Va) returns (r: Outcome)
      requires Ok()
      modifies this`mem, this`refcnt, this`past, this`freelist, this`numFree, this`kern, this`ptes, this`slots, this`disk, this`procs
      ensures r == Halted(KernelPage) <==> KernelMapped(k.vpn)
      ensures r == Halted(NoEntry) <==> !KernelMapped(k.vpn) && k !in old(ptes)
      ensures r.Done? ==> Ok() && SameShape(old(procs), procs) && kern == old(kern) && k in Pages(old(S())) && k in ptes && ptes[k].fl.p
      ensures r.Done? ==> Pages(S()) == if old(ptes)[k].fl.p then Pages(old(S()))[k := Granted(Pages(old(S()))[k])] else Pages(old(S()))
      ensures r.Done? ==> ptes[k].fl == if old(ptes)[k].fl.p then old(ptes)[k].fl.(w := true) else FlagsOf(old(S()), k)
      ensures r.Halted? ==> r.why != NotUser
      ensures r.Done? && !old(ptes)[k].fl.p ==> ptes[k].frame < NFRAMES && refcnt[ptes[k].frame] == 1
      ensures Present(old(S()), k) && !KernelMapped(k.vpn) && old(ptes)[k].frame < NFRAMES && old(refcnt)[old(ptes)[k].frame] <= 1 ==> r.Done?
      ensures r == Halted(CountClash) ==> HasSwapArea(disk) && Sizes(S()) && Pages(S()) == Pages(old(S())) && !Inv(S())
      ensures old(Spare(1)) && k in old(ptes) && !KernelMapped(k.vpn) ==> r.Done? && Plain(ptes) && |freelist| >= |old(freelist)| - 1
      ensures old(freelist) != [] ==> (r.Done? <==> !KernelMapped(k.vpn) && k in old(ptes) && (old(ptes)[k].fl.p || !Clash(old(S()), k)))
    {
      hide FramesOk, SlotsOk, Pages, Undisturbed, ProcsOk, SwapPages, KernKept;
      ghost var s0 := S();
      PagesKeys(s0);
      if KernelMapped(k.vpn) {
        return Halted(KernelPage);
      }
      if k !in ptes {
        return Halted(NoEntry);
      }
      if ptes[k].fl.p {
        FrameOf(s0, k);
        SlotsPresent(s0);
        PresentLeaf(s0, k);
        if refcnt[ptes[k].frame] > 1 {
          r := CowPage(k);
        } else {
          SelfSame(s0, procs);
          SetPteFlags(k, ptes[k].fl.(w := true));
          r := Done;
        }
      } else {
        r := SwapInPage(k);
      }
    }

    /** The store itself, through a writable entry; the hardware sets the accessed bit. */
    method StoreByte(k: Va, off: nat, b: Byte)
      requires Ok() && Present(S(), k) && ptes[k].fl.w && off < PGSIZE
      modifies this`mem, this`ptes
      ensures Ok() && k in Pages(old(S())) && Pages(S()) == EagerStore(Pages(old(S())), k, off, [b])
      ensures ptes == old(ptes)[k := old(ptes)[k].(fl := old(ptes)[k].fl.(a := true))]
    {
      hide FramesOk, SlotsOk, FlagsOf, Pages, ProcsOk, SwapPages, Put;
      ghost var s1 := S();
      StoreKeeps(s1, k, off, [b]);
      PagesKeys(s1);
      PresentLeaf(s1, k);
      var f := ptes[k].frame;
      mem := mem[f := Put(mem[f], off, [b])];
      assert S() == Store(s1, k, off, [b]);
      FrameOf(S(), k);
      SlotsPresent(S());
      PresentLeaf(S(), k);
      SetPteFlags(k, ptes[k].fl.(a := true));
    }

    /** What any user access to page k starts with: the page is looked up, and swapped in. */
    method Touch(k: Va) returns (r: Outcome)
      requires Ok()
      modifies this`mem, this`refcnt, this`past, this`freelist, this`numFree, this`kern, this`ptes, this`slots, this`disk, this`procs
      ensures !Served(Pages(old(S())), k) ==> r == Halted(Refusal(Pages(old(S())), k))
      ensures Served(Pages(old(S())), k) && r.Halted? ==> r.why != NoEntry && r.why != NotUser && r.why != KernelPage
      ensures r.Done? ==> Ok() && SameShape(old(procs), procs) && kern == old(kern)
      ensures r.Done? ==> Pages(S()) == Pages(old(S())) && Present(S(), k) && k in Pages(S())
      ensures old(Spare(0)) && Served(Pages(old(S())), k) ==> r.Done? && ptes == old(ptes) && freelist == old(freelist)
      ensures r.Done? && old(ptes)[k].fl.p ==> ptes == old(ptes) && freelist == old(freelist)
      ensures r.Done? && !old(ptes)[k].fl.p ==> ptes[k].frame < NFRAMES && refcnt[ptes[k].frame] == 1
      ensures old(freelist) != [] ==> (r.Done? <==> Served(Pages(old(S())), k) && Reachable(old(S()), k))
    {
      hide FramesOk, SlotsOk, FlagsOf, Pages, Undisturbed, ProcsOk, SwapPages, KernKept, LeafOf;
      ghost var s0 := S();
      PagesKeys(s0);
      SelfSame(s0, procs);
      if KernelMapped(k.vpn) || k !in ptes {
        r := HandlePageFault(k);
        return;
      }
      LeafUser(s0, k);
      if !UserBit(k) {
        return Halted(NotUser);
      }
      r := Done;
      if !ptes[k].fl.p {
        r := HandlePageFault(k);
      }
    }

    /** A user store of b at offset off of page k, with the faults it takes: it changes that
        byte of that process and nothing else. */
    method UserWrite(k: Va, off: nat, b: Byte) returns (r: Outcome)
      requires Ok() && off < PGSIZE
      modifies this`mem, this`refcnt, this`past, this`freelist, this`numFree, this`kern, this`ptes, this`slots, this`disk, this`procs
      ensures !Served(Pages(old(S())), k) ==> r == Halted(Refusal(Pages(old(S())), k))
      ensures Served(Pages(old(S())), k) && r.Halted? ==> r.why != NoEntry && r.why != NotUser && r.why != KernelPage
      ensures r.Done? ==> Ok() && SameShape(old(procs), procs) && kern == old(kern) && k in Pages(old(S()))
      ensures r.Done? ==> Pages(S()) == EagerWrite(Pages(old(S())), k, off, b)
      ensures old(Spare(1)) && Served(Pages(old(S())), k) ==> r.Done? && Plain(ptes) && |freelist| >= |old(freelist)| - 1
      ensures old(freelist) != [] ==> (r.Done? <==> Served(Pages(old(S())), k) && Reachable(old(S()), k))
    {
      hide FramesOk, SlotsOk, FlagsOf, Pages, ProcsOk, SwapPages, LeafOf, Put, Inv, Clash, SameShape;
      r := Touch(k);
      if r.Halted? {
        return;
      }
      GrantedAlready(S(), k);
      ghost var procs1 := procs;
      ShapeLength(procs, procs);
      if !ptes[k].fl.w {
        r := HandlePageFault(k);
        if r.Halted? {
          return;
        }
      }
      ShapeTrans(old(procs), procs1, procs);
      StoreByte(k, off, b);
    }

    /** A user load from offset off of page k. */
    method UserRead(k: Va, off: nat) returns (r: Outcome, b: Byte)
      requires Ok() && off < PGSIZE
      modifies this`mem, this`refcnt, this`past, this`freelist, this`numFree, this`kern, this`ptes, this`slots, this`disk, this`procs
      ensures !Served(Pages(old(S())), k) ==> r == Halted(Refusal(Pages(old(S())), k))
      ensures Served(Pages(old(S())), k) && r.Halted? ==> r.why != NoEntry && r.why != NotUser && r.why != KernelPage
      ensures r.Done? ==> Ok() && SameShape(old(procs), procs) && kern == old(kern) && Pages(S()) == Pages(old(S()))
      ensures r.Done? ==> k in Pages(old(S())) && b == Pages(old(S()))[k].bytes[off] && Present(S(), k)
      ensures old(Spare(0)) && Served(Pages(old(S())), k) ==> r.Done? && Plain(ptes) && freelist == old(freelist)
      ensures old(freelist) != [] ==> (r.Done? <==> Served(Pages(old(S())), k) && Reachable(old(S()), k))
    {
      hide FramesOk, SlotsOk, FlagsOf, Pages, ProcsOk, SwapPages, LeafOf;
      r := Touch(k);
      if r.Halted? {
        return r, 0;
      }
      ghost var s1 := S();
      PresentLeaf(s1, k);
      FrameOf(s1, k);
      SlotsPresent(s1);
      b := mem[ptes[k].frame][off];
      SetPteFlags(k, ptes[k].fl.(a := true));
    }

    /** memmove of one piece of copyout, with no look at PTE_W. */
    method CopyPiece(k: Va, off: nat, d: seq<Byte>)
      requires Ok() && Present(S(), k) && off + |d| <= PGSIZE && ptes[k].frame < NFRAMES
      modifies this`mem
      ensures Ok()
      ensures k in Pages(old(S())) && (refcnt[ptes[k].frame] == 1 ==> Pages(S()) == EagerStore(Pages(old(S())), k, off, d))
    {
      hide FramesOk, SlotsOk, FlagsOf, Pages, ProcsOk, SwapPages, Put;
      ghost var s0 := S();
      PresentLeaf(s0, k);
      StoreInv(s0, k, off, d);
      UncheckedStore(s0, k, off, d);
      var f := ptes[k].frame;
      mem := mem[f := Put(mem[f], off, d)];
      assert S() == Store(s0, k, off, d);
    }

    /** uva2ka, without the address: a page that is there and the user's. */
    method Uva2ka(q: nat, v: nat) returns (r: Outcome, ok: bool)
      ensures ok <==> r.Done? && Found(ptes, q, v)
      ensures r.Halted? ==> r.why == NoEntry && !KernelMapped(v) && !Found(ptes, q, v)
      ensures KernelMapped(v) || (v < KERNBASE / PGSIZE && (q, v / NPTENTRIES) in dirs) ==> r.Done?
    {
      var k := Va(q, v);
      if KernelMapped(v) {
        return Done, false;
      }
      if v >= KERNBASE / PGSIZE || ((q, v / NPTENTRIES) !in dirs && k !in ptes) {
        return Halted(NoEntry), false;
      }
      return Done, k in ptes && ptes[k].fl.p && ptes[k].fl.u;
    }

    /** copyout: n bytes are copied, page by page, up to the first page that is not there or
        not the user's. Where no frame on the way is shared, nobody else sees a change. */
    method Copyout(q: nat, va: nat, src: seq<Byte>) returns (r: Outcome, ok: bool, n: nat)
      requires Ok()
      modifies this`mem
      ensures Ok() && n <= |src|
      ensures Alone(ptes, refcnt, q, va, n) ==> Pages(S()) == CopyIn(Pages(old(S())), q, va, src[..n])
      ensures Reached(ptes, q, va, n) && (r.Done? && ok <==> n == |src|)
      ensures n < |src| ==> !Found(ptes, q, (va + n) / PGSIZE)
      ensures r.Halted? ==> r.why == NoEntry && n < |src| && !KernelMapped((va + n) / PGSIZE)
      ensures r.Halted? ==> (va + n) / PGSIZE >= KERNBASE / PGSIZE || (q, (va + n) / PGSIZE / NPTENTRIES) !in dirs
    {
      hide FramesOk, SlotsOk, FlagsOf, Pages, ProcsOk, SwapPages, Put, Overlay, CopyIn, Alone, Reached, EagerStore;
      ghost var a0 := Pages(S());
      CopyInNone(a0, q, va, src);
      NothingReached(ptes, refcnt, q, va);
      r, ok, n := Done, true, 0;
      while n < |src|
        invariant 0 <= n <= |src| && Ok() && r.Done? && ok
        invariant n == |src| || n == 0 || (va + n) % PGSIZE == 0
        invariant Reached(ptes, q, va, n)
        invariant Alone(ptes, refcnt, q, va, n) ==> Pages(S()) == CopyIn(a0, q, va, src[..n])
      {
        var v, off := (va + n) / PGSIZE, (va + n) % PGSIZE;
        r, ok := Uva2ka(q, v);
        if !ok {
          return;
        }
        var m := if PGSIZE - off > |src| - n then |src| - n else PGSIZE - off;
        FoundFrame(S(), q, v);
        CopyPiece(Va(q, v), off, src[n..n + m]);
        ReachedNext(ptes, refcnt, q, va, n, m);
        PieceEnds(va + n, PGSIZE - off);
        CopyInNext(a0, q, va, src, n, m);
        n := n + m;
      }
    }

    /** clearpteu of a present page. */
    method Clearpteu(k: Va)
      requires Ok() && Present(S(), k)
      modifies this`ptes
      ensures Ok() && ptes == old(ptes)[k := old(ptes)[k].(fl := old(ptes)[k].fl.(u := false))]
      ensures k in Pages(old(S())) && Pages(S()) == Pages(old(S()))[k := Hidden(Pages(old(S()))[k])]
    {
      hide FramesOk, SlotsOk, FlagsOf, Pages, ProcsOk, SwapPages, LeafOf;
      FrameOf(S(), k);
      SlotsPresent(S());
      PresentLeaf(S(), k);
      SetPteFlags(k, ptes[k].fl.(u := false));
    }

    /** kalloc of a kernel stack or page-table page for process p. */
    method KernPage(p: nat) returns (r: Outcome)
      requires Ok()
      modifies this`mem, this`refcnt, this`freelist, this`numFree, this`kern, this`ptes, this`slots, this`disk, this`procs, this`owner
      ensures Ok() && SameShape(old(procs), procs)
      ensures r.Done? ==> Pages(S()) == Pages(old(S())) && Booked(old(kern), old(owner), kern, owner, p)
      ensures old(freelist) != [] ==> r.Done? && ptes == old(ptes) && freelist == old(freelist)[1..]
    {
      hide FramesOk, SlotsOk, FlagsOf, Pages, Undisturbed, ProcsOk, SwapPages, KernKept, SameShape;
      ghost var s0 := S();
      var f;
      r, f := Kalloc();
      if r.Done? {
        PagesUndisturbed(s0, S());
        owner := owner[f := p];
      }
    }

    /** fork: kernel stack, setupkvm, copyuvm_cow. The child then reads what an eager copy
        would read, and so does everybody else. */
    method Fork(parent: nat, child: nat, pid: nat) returns (r: Outcome)
      requires Ok() && Exact(procs, ptes)
      requires parent < NPROC && procs[parent].used && child < NPROC && !procs[child].used
      modifies this`mem, this`refcnt, this`freelist, this`numFree, this`kern, this`ptes, this`slots, this`disk, this`procs, this`owner, this`dirs
      ensures r.Done? ==>
                && Ok() && Exact(procs, ptes) && Mapped(old(ptes), parent, NPages(old(procs)[parent].sz))
                && SameShape(old(procs)[child := Proc(true, pid, 0, old(procs)[parent].sz)], procs)
                && Pages(S()).Keys == ptes.Keys
                && (forall i: nat :: i < NPages(old(procs)[parent].sz) ==> Va(parent, i) in Pages(old(S())))
                && Pages(S()) == EagerFork(Pages(old(S())), parent, child, NPages(old(procs)[parent].sz))
      ensures old(Spare(ForkNeed(procs[parent].sz))) ==>
                r.Done? && Plain(ptes) && |freelist| >= |old(freelist)| - ForkNeed(old(procs)[parent].sz) && FramesStay(old(ptes), ptes)
      ensures r.Done? ==> Booked(old(kern), old(owner), kern, owner, child)
      ensures r.Done? && Tidy(old(kern), old(owner), old(procs)) ==> Tidy(kern, owner, procs)
    {
      hide FramesOk, SlotsOk, FlagsOf, Pages, ProcsOk, SwapPages, EagerFork, Booked, FramesStay, Tidy;
      ghost var s0 := S();
      ghost var a0 := Pages(s0);
      PagesKeys(s0);
      ghost var sz := procs[parent].sz;
      NothingBooked(kern, owner, child, ptes);
      r := KernPage(child);
      if r.Halted? {
        return;
      }
      var j := 0;
      while j < KVMPAGES
        invariant 0 <= j <= KVMPAGES
        invariant Ok() && SameShape(old(procs), procs) && Pages(S()) == a0
        invariant Booked(old(kern), old(owner), kern, owner, child)
        invariant old(Spare(ForkNeed(procs[parent].sz))) ==> ptes == old(ptes) && |freelist| >= |old(freelist)| - 1 - j
      {
        ghost var kern1, owner1 := kern, owner;
        r := KernPage(child);
        if r.Halted? {
          return;
        }
        BookedTwice(old(kern), old(owner), kern1, owner1, kern, owner, child);
        j := j + 1;
      }
      PagesKeys(S());
      assert procs[parent].sz == sz;
      assert forall k :: k in ptes <==> k in s0.ptes;
      ghost var kern1, owner1 := kern, owner;
      r := CopyuvmCow(parent, child, procs[parent].sz);
      if r.Halted? {
        return;
      }
      BookedTwice(old(kern), old(owner), kern1, owner1, kern, owner, child);
      PagesKeys(S());
      EagerForkKeys(a0, parent, child, NPages(sz));
      ForkExact(old(procs), procs, s0.ptes, ptes, parent, child, pid);
      procs := procs[child := Proc(true, pid, procs[child].rss, procs[parent].sz)];
      TidyBooked(old(kern), old(owner), old(procs), kern, owner, procs, child);
    }

    /** clear_zombie: the slots of the dead process's swapped pages are free again. */
    method ClearZombie(p: nat, n: nat)
      requires HasSwapArea(disk) && Inv(S())
      modifies this`ptes, this`slots
      ensures Inv(S())
      ensures forall v: nat :: v < n ==> !Swapped(S(), Va(p, v))
      ensures EagerDrop(Pages(S()), p, 0, n) == EagerDrop(Pages(old(S())), p, 0, n)
      ensures forall v: nat :: v < n && Swapped(old(S()), Va(p, v)) ==> slots[SlotOf(old(ptes)[Va(p, v)].frame)].free
      ensures forall k :: k in ptes ==> k in old(ptes) && ptes[k] == old(ptes)[k]
    {
      hide FramesOk, SlotsOk, FlagsOf, Pages, SwapPages, EagerDrop;
      ghost var s0 := S();
      var v := 0;
      while v < n
        invariant 0 <= v <= n
        invariant Inv(S())
        invariant EagerDrop(Pages(S()), p, 0, n) == EagerDrop(Pages(s0), p, 0, n)
        invariant forall u: nat :: u < v ==> !Swapped(S(), Va(p, u))
        invariant forall u: nat :: u < v && Swapped(s0, Va(p, u)) ==>
                    SlotOf(s0.ptes[Va(p, u)].frame) < NSLOTS && slots[SlotOf(s0.ptes[Va(p, u)].frame)].free
        invariant forall u: nat :: v <= u && Va(p, u) in s0.ptes ==> Va(p, u) in ptes && ptes[Va(p, u)] == s0.ptes[Va(p, u)]
        invariant forall k :: k in ptes ==> k in s0.ptes && ptes[k] == s0.ptes[k]
      {
        var k := Va(p, v);
        if k in ptes && !ptes[k].fl.p {
          ghost var s1 := S();
          ClearSlotKeeps(s1, k);
          EagerDropDrops(Pages(s1), p, n, k);
          var i := SlotOf(ptes[k].frame);
          slots := slots[i := slots[i].(free := true)];
          ptes := ptes - {k};
          assert S() == ClearSlot(s1, k);
        }
        v := v + 1;
      }
    }

    /** The page tables, page directory and kernel stack of p are freed, and no others. */
    method FreeKernPages(p: nat)
      requires HasSwapArea(disk) && Inv(S()) && forall f :: f in owner ==> f in kern
      modifies this`mem, this`refcnt, this`freelist, this`numFree, this`kern, this`owner
      ensures Inv(S()) && Pages(S()) == Pages(old(S()))
      ensures owner == Without(old(owner), p) && kern == old(kern) - (old(owner).Keys - owner.Keys)
      ensures forall f :: f in old(owner) && f !in owner ==> f in freelist
      ensures |freelist| >= |old(freelist)|
    {
      hide FramesOk, SlotsOk, Pages, SwapPages, KFree;
      while exists f :: f in owner && owner[f] == p
        invariant Inv(S()) && Pages(S()) == Pages(old(S()))
        invariant forall f :: f in owner ==> f in kern && f in old(owner) && owner[f] == old(owner)[f]
        invariant forall f :: f in old(owner) && old(owner)[f] != p ==> f in owner
        invariant kern == old(kern) - (old(owner).Keys - owner.Keys)
        invariant forall f :: f in old(owner) && f !in owner ==> f in freelist
        invariant |freelist| >= |old(freelist)|
        decreases owner.Keys
      {
        var f :| f in owner && owner[f] == p;
        ghost var s1 := S();
        KernFreeKeeps(s1, f);
        KernFreeList(s1, f);
        Kfree(f);
        kern := kern - {f};
        owner := owner - {f};
        assert S() == KernFree(s1, f);
      }
    }

    /** clear_zombie and freevm_proc: the pages of p, swapped or not. */
    method FreeUser(p: nat)
      requires HasSwapArea(disk) && Inv(S()) && p < |procs|
      modifies this`mem, this`refcnt, this`freelist, this`numFree, this`ptes, this`slots, this`procs
      ensures Inv(S()) && SameShape(old(procs), procs)
      ensures Pages(S()) == EagerDrop(Pages(old(S())), p, 0, NPages(old(procs)[p].sz))
      ensures forall v: nat :: v < NPages(old(procs)[p].sz) && Swapped(old(S()), Va(p, v)) ==>
                slots[SlotOf(old(ptes)[Va(p, v)].frame)].free
      ensures |freelist| >= |old(freelist)| && (forall k :: k in ptes ==> k in old(ptes) && ptes[k] == old(ptes)[k])
    {
      hide FramesOk, SlotsOk, FlagsOf, Pages, SwapPages, EagerDrop, NPages, SameShape;
      ghost var s0 := S();
      NoPages();
      ShapeLength(procs, procs);
      ClearZombie(p, NPages(procs[p].sz));
      if procs[p].sz > 0 {
        var r := Deallocuvm(p, procs[p].sz, 0);
      } else {
        EagerDropNone(Pages(s0), p, 0);
        EagerDropNone(Pages(S()), p, 0);
      }
    }

    /** wait on a zombie: everything p had is given back. */
    method Reap(p: nat)
      requires Ok() && Exact(procs, ptes) && p < NPROC && procs[p].used
      modifies this`mem, this`refcnt, this`freelist, this`numFree, this`kern, this`ptes, this`slots, this`procs, this`owner, this`dirs
      ensures Ok() && Exact(procs, ptes) && SameShape(old(procs)[p := old(procs)[p].(used := false, pid := 0)], procs)
      ensures Pages(S()) == EagerDrop(Pages(old(S())), p, 0, NPages(old(procs)[p].sz))
      ensures forall v: nat :: Swapped(old(S()), Va(p, v)) ==> slots[SlotOf(old(ptes)[Va(p, v)].frame)].free
      ensures owner == Without(old(owner), p) && kern == old(kern) - (old(owner).Keys - owner.Keys)
      ensures forall f :: f in old(owner) && old(owner)[f] == p ==> f in freelist
      ensures Tidy(old(kern), old(owner), old(procs)) ==> Tidy(kern, owner, procs)
      ensures old(Spare(0)) ==> Spare(|old(freelist)|)
      ensures forall k :: k in ptes ==> k in old(ptes) && ptes[k] == old(ptes)[k]
    {
      hide FramesOk, SlotsOk, FlagsOf, Pages, SwapPages, EagerDrop, ProcsOk, Exact, NPages, SameShape, Tidy;
      ghost var s0 := S();
      ExactOf(procs, ptes, p);
      PagesKeys(s0);
      ReapRange(procs, s0, p);
      FreeUser(p);
      ShapeLength(old(procs), procs);
      FreeKernPages(p);
      PagesKeys(S());
      EagerDropKeys(Pages(s0), p, 0, NPages(old(procs)[p].sz));
      dirs := set d | d in dirs && d.0 != p;
      ReapExact(old(procs), procs, s0.ptes, ptes, p);
      ReapUsed(old(procs), procs, p);
      procs := procs[p := procs[p].(used := false, pid := 0)];
      TidyReaped(old(kern), old(owner), old(procs), kern, owner, procs, p);
    }

    /** The two branches of growproc. */
    method Resize(p: nat, n: int) returns (r: Outcome, newsz: nat)
      requires Ok() && Exact(procs, ptes) && p < NPROC && procs[p].used && -0x8000_0000 <= n < 0x8000_0000
      modifies this`mem, this`refcnt, this`freelist, this`numFree, this`kern, this`ptes, this`slots, this`disk, this`procs, this`owner, this`dirs
      ensures HasSwapArea(disk) && Inv(S()) && SameShape(old(procs), procs) && forall f :: f in owner ==> f in kern
      ensures r.Done? ==> newsz == if GrowOk(old(procs)[p].sz, n) then GrownSize(old(procs)[p].sz, n) else 0
      ensures r.Done? && newsz == 0 && n != 0 && !ToNothing(old(procs)[p].sz, n) ==> !GrowOk(old(procs)[p].sz, n)
      ensures r.Done? && !ToNothing(old(procs)[p].sz, n) ==>
                Pages(S()) == EagerResize(Pages(old(S())), p, old(procs)[p].sz, GrownSize(old(procs)[p].sz, n))
      ensures r.Done? && ToNothing(old(procs)[p].sz, n) ==> forall v: nat :: Va(p, v) !in ptes
      ensures r.Done? ==> Booked(old(kern), old(owner), kern, owner, p)
      ensures old(Spare(GrowNeed(procs[p].sz, n))) ==>
                r.Done? && Plain(ptes) && |freelist| >= |old(freelist)| - GrowNeed(old(procs)[p].sz, n)
    {
      hide FramesOk, SlotsOk, FlagsOf, Pages, SwapPages, EagerDrop, EagerGrow, ProcsOk, Exact, NPages, SameShape, AllocNeed, Booked;
      ghost var s0 := S();
      ExactOf(procs, ptes, p);
      var sz := procs[p].sz;
      PagesKeys(s0);
      EagerGrowStart(Pages(s0), p, NPages(sz));
      ShapeLength(procs, procs);
      NothingBooked(kern, owner, p, ptes);
      r, newsz := Done, sz;
      if n > 0 {
        r, newsz := Allocuvm(p, sz, sz + n, p);
      } else if n < 0 {
        newsz := (sz + n) % 0x1_0000_0000;
        if newsz >= sz {
          newsz := sz;
        } else {
          r := Deallocuvm(p, sz, newsz);
          NPagesMonotone(newsz, sz);
          EagerDropNone(Pages(s0), p, NPages(sz));
          NoPages();
          PagesKeys(S());
          EagerDropKeys(Pages(s0), p, NPages(newsz), NPages(sz));
        }
      }
    }

    /** growproc (sbrk): ok is false where it returns -1 without having changed anything. */
    method Growproc(p: nat, n: int) returns (r: Outcome, ok: bool)
      requires Ok() && Exact(procs, ptes) && p < NPROC && procs[p].used && -0x8000_0000 <= n < 0x8000_0000
      modifies this`mem, this`refcnt, this`freelist, this`numFree, this`kern, this`ptes, this`slots, this`disk, this`procs, this`owner, this`dirs
      ensures r.Done? ==> Ok() && Exact(procs, ptes) && ok == GrowOk(old(procs)[p].sz, n)
      ensures r.Done? ==> SameShape(old(procs)[p := old(procs)[p].(sz := GrownSize(old(procs)[p].sz, n))], procs)
      ensures r.Done? ==> Pages(S()) == EagerResize(Pages(old(S())), p, old(procs)[p].sz, GrownSize(old(procs)[p].sz, n))
      ensures old(Spare(GrowNeed(procs[p].sz, n))) && !ToNothing(old(procs)[p].sz, n) ==>
                r.Done? && Plain(ptes) && |freelist| >= |old(freelist)| - GrowNeed(old(procs)[p].sz, n)
      ensures old(Plain(ptes)) && ToNothing(old(procs)[p].sz, n) ==>
                r == Halted(Emptied) && p < |procs| && procs[p].sz == old(procs)[p].sz && forall v: nat :: Va(p, v) !in ptes
      ensures r.Done? && Tidy(old(kern), old(owner), old(procs)) ==> Tidy(kern, owner, procs)
    {
      hide FramesOk, SlotsOk, FlagsOf, Pages, SwapPages, EagerResize, ProcsOk, Exact, NPages, SameShape, AllocNeed, Tidy, Booked;
      ghost var s0 := S();
      ExactOf(procs, ptes, p);
      PagesKeys(s0);
      ghost var size := GrownSize(procs[p].sz, n);
      var newsz;
      r, newsz := Resize(p, n);
      if r.Halted? {
        return r, false;
      }
      ShapeLength(old(procs), procs);
      if n < 0 && newsz == 0 && procs[p].sz > 0 {
        return Halted(Emptied), false;
      }
      PagesKeys(S());
      ResizeExact(old(procs), procs, s0.ptes, ptes, p, size, Pages(s0), Pages(S()));
      ReapUsed(old(procs), procs, p);
      ok := n == 0 || newsz != 0;
      if ok {
        procs := procs[p := procs[p].(sz := newsz)];
      } else {
        assert procs[p := procs[p].(sz := size)] == procs;
      }
      TidyBooked(old(kern), old(owner), old(procs), kern, owner, procs, p);
    }
  }

  /** The page without PTE_U. */
  function Hidden(x: Leaf): Leaf { x.(perm := x.perm.(u := false)) }

  /** A page that uva2ka finds. */
  ghost predicate Found(ptes: map<Va, Pte>, q: nat, v: nat) {
    v < KERNBASE / PGSIZE && Va(q, v) in ptes && ptes[Va(q, v)].fl.p && ptes[Va(q, v)].fl.u
  }

  /** Page v has one of the addresses va, ..., va + n - 1. */
  ghost predicate Touches(va: nat, n: nat, v: nat) {
    n > 0 && va / PGSIZE <= v <= (va + n - 1) / PGSIZE
  }

  ghost predicate Reached(ptes: map<Va, Pte>, q: nat, va: nat, n: nat) {
    forall v: nat :: Touches(va, n, v) ==> Found(ptes, q, v)
  }

  /** The frames of the present pages on the way have one reference each. */
  ghost predicate Alone(ptes: map<Va, Pte>, refcnt: seq<int>, q: nat, va: nat, n: nat) {
    forall v: nat :: Touches(va, n, v) && Found(ptes, q, v) ==>
      ptes[Va(q, v)].frame < |refcnt| && refcnt[ptes[Va(q, v)].frame] == 1
  }

  lemma NothingReached(ptes: map<Va, Pte>, refcnt: seq<int>, q: nat, va: nat)
    ensures Reached(ptes, q, va, 0) && Alone(ptes, refcnt, q, va, 0)
  {
  }

  lemma ReachedNext(ptes: map<Va, Pte>, refcnt: seq<int>, q: nat, va: nat, n: nat, m: nat)
    requires Reached(ptes, q, va, n) && Found(ptes, q, (va + n) / PGSIZE) && 0 < m <= PGSIZE - (va + n) % PGSIZE
    requires n == 0 || (va + n) % PGSIZE == 0
    ensures Reached(ptes, q, va, n + m)
    ensures Alone(ptes, refcnt, q, va, n + m) ==>
      Alone(ptes, refcnt, q, va, n) && ptes[Va(q, (va + n) / PGSIZE)].frame < |refcnt| && refcnt[ptes[Va(q, (va + n) / PGSIZE)].frame] == 1
  {
    var v := (va + n) / PGSIZE;
    assert (va + n + m - 1) / PGSIZE == v;
    assert Touches(va, n + m, v);
    forall u: nat | Touches(va, n + m, u) ensures u == v || Touches(va, n, u) {
    }
    assert forall u: nat :: Touches(va, n, u) ==> Touches(va, n + m, u);
  }

  lemma FoundFrame(s: St, q: nat, v: nat)
    requires Inv(s) && Found(s.ptes, q, v)
    ensures Present(s, Va(q, v)) && s.ptes[Va(q, v)].frame < NFRAMES
  {
    FrameOf(s, Va(q, v));
  }

  lemma PieceEnds(x: nat, m: nat)
    requires m == PGSIZE - x % PGSIZE
    ensures (x + m) % PGSIZE == 0
  {
  }

  lemma CopyInNone(a: map<Va, Leaf>, q: nat, va: nat, d: seq<Byte>)
    ensures CopyIn(a, q, va, d[..0]) == a
  {
    forall k | k in a ensures CopyIn(a, q, va, d[..0])[k] == a[k] {
      assert Overlay(a[k].bytes, k.vpn * PGSIZE, va, d[..0]) == a[k].bytes;
    }
  }

  lemma OverlayNext(page: Page, base: nat, va: nat, d: seq<Byte>, n: nat, m: nat, off: nat)
    requires n + m <= |d| && va + n == base + off && off + m <= PGSIZE
    ensures Overlay(page, base, va, d[..n + m]) == Put(Overlay(page, base, va, d[..n]), off, d[n..n + m])
  {
  }

  lemma OverlayMisses(page: Page, base: nat, va: nat, d: seq<Byte>, n: nat, m: nat)
    requires n + m <= |d| && (base + PGSIZE <= va + n || va + n + m <= base)
    ensures Overlay(page, base, va, d[..n + m]) == Overlay(page, base, va, d[..n])
  {
  }

  lemma OtherPage(x: nat, v: nat, u: nat)
    requires v == x / PGSIZE && u != v
    ensures u * PGSIZE + PGSIZE <= x || x + PGSIZE - x % PGSIZE <= u * PGSIZE
  {
  }

  lemma CopyInNext(a: map<Va, Leaf>, q: nat, va: nat, d: seq<Byte>, n: nat, m: nat)
    requires n + m <= |d| && m <= PGSIZE - (va + n) % PGSIZE
    ensures var x, k := CopyIn(a, q, va, d[..n]), Va(q, (va + n) / PGSIZE);
      k in x ==> CopyIn(a, q, va, d[..n + m]) == EagerStore(x, k, (va + n) % PGSIZE, d[n..n + m])
  {
    if Va(q, (va + n) / PGSIZE) in a {
      CopyInPiece(a, q, va, d, n, m);
    }
  }

  lemma CopyInPiece(a: map<Va, Leaf>, q: nat, va: nat, d: seq<Byte>, n: nat, m: nat)
    requires n + m <= |d| && m <= PGSIZE - (va + n) % PGSIZE && Va(q, (va + n) / PGSIZE) in a
    ensures CopyIn(a, q, va, d[..n + m])
         == EagerStore(CopyIn(a, q, va, d[..n]), Va(q, (va + n) / PGSIZE), (va + n) % PGSIZE, d[n..n + m])
  {
    hide Overlay, Put;
    var v, off := (va + n) / PGSIZE, (va + n) % PGSIZE;
    var x, y := CopyIn(a, q, va, d[..n]), CopyIn(a, q, va, d[..n + m]);
    forall k | k in a && k.proc == q && k.vpn != v ensures y[k] == x[k] {
      OtherPage(va + n, v, k.vpn);
      OverlayMisses(a[k].bytes, k.vpn * PGSIZE, va, d, n, m);
    }
    OverlayNext(a[Va(q, v)].bytes, v * PGSIZE, va, d, n, m, off);
    assert forall k :: k in a && k != Va(q, v) ==> y[k] == x[k];
  }

  function Revoked(e: Pte): Pte { e.(fl := e.fl.(w := false)) }

  /** The entries that were there are still there, with the frames they had. */
  ghost predicate FramesStay(ptes0: map<Va, Pte>, ptes: map<Va, Pte>) {
    forall k :: k in ptes0 ==> k in ptes && ptes[k].frame == ptes0[k].frame
  }

  lemma NothingBooked(kern: set<nat>, owner: map<nat, nat>, p: nat, ptes: map<Va, Pte>)
    ensures Booked(kern, owner, kern, owner, p) && FramesStay(ptes, ptes)
  {
  }

  lemma StaySelf(ptes: map<Va, Pte>)
    ensures FramesStay(ptes, ptes)
  {
  }

  lemma StayTwice(ptes0: map<Va, Pte>, ptes1: map<Va, Pte>, ptes2: map<Va, Pte>)
    requires FramesStay(ptes0, ptes1) && FramesStay(ptes1, ptes2)
    ensures FramesStay(ptes0, ptes2)
  {
  }

  lemma ProcsSize(procs: seq<Proc>, ptes: map<Va, Pte>)
    requires ProcsOk(procs, ptes)
    ensures |procs| == NPROC
  {
  }

  lemma SharedStay(ptes0: map<Va, Pte>, ptes1: map<Va, Pte>, ptes2: map<Va, Pte>, k: Va, c: Va)
    requires k in ptes1 && c !in ptes1 && ptes2 == ptes1[k := Revoked(ptes1[k])][c := Revoked(ptes1[k])]
    ensures FramesStay(ptes0, ptes1) ==> FramesStay(ptes0, ptes2)
  {
  }

  lemma PresentLeaf(s: St, k: Va)
    requires Sizes(s) && Present(s, k)
    ensures k in Pages(s) && Pages(s)[k] == LeafOf(s, k) == Leaf(PageOf(s, k), s.ptes[k].fl.(a := false))
    ensures s.ptes[k].frame < NFRAMES ==> Pages(s)[k].bytes == s.mem[s.ptes[k].frame]
    ensures FlagsOf(s, k) == s.ptes[k].fl
  {
  }

  lemma GrantedAlready(s: St, k: Va)
    requires Inv(s) && Present(s, k)
    ensures k in Pages(s) && (s.ptes[k].fl.w ==> Pages(s)[k := Granted(Pages(s)[k])] == Pages(s))
  {
    PresentLeaf(s, k);
  }

  lemma ShapeTrans(a: seq<Proc>, b: seq<Proc>, c: seq<Proc>)
    requires SameShape(a, b) && SameShape(b, c)
    ensures SameShape(a, c)
  {
  }

  lemma LeafUser(s: St, k: Va)
    requires Inv(s) && k in s.ptes
    ensures k in Pages(s) && Pages(s)[k].perm.u == FlagsOf(s, k).u
    ensures FlagsOf(s, k).u == if s.ptes[k].fl.p || SlotOf(s.ptes[k].frame) >= |s.slots| then s.ptes[k].fl.u
                               else s.slots[SlotOf(s.ptes[k].frame)].perm.u
  {
  }

  lemma FinalKept(s: St, t: St)
    requires Sizes(s) && Sizes(t) && t.kern == s.kern && t.refcnt == s.refcnt
    ensures KernKept(s, t)
  {
  }

  /** The frames that serve other processes than p. */
  ghost function Without(owner: map<nat, nat>, p: nat): map<nat, nat> {
    map f | f in owner && owner[f] != p :: owner[f]
  }

  lemma TidyBooked(kern0: set<nat>, owner0: map<nat, nat>, procs0: seq<Proc>, kern: set<nat>, owner: map<nat, nat>,
                   procs: seq<Proc>, p: nat)
    requires Booked(kern0, owner0, kern, owner, p) && (forall f :: f in owner ==> f in kern)
    requires |procs| == |procs0| && p < |procs| && procs[p].used
    requires forall q :: 0 <= q < |procs| && procs0[q].used ==> procs[q].used
    ensures Tidy(kern0, owner0, procs0) ==> Tidy(kern, owner, procs)
  {
    if Tidy(kern0, owner0, procs0) {
      assert forall f :: f in kern ==> f in owner || f in kern - owner.Keys;
    }
  }

  lemma TidyShape(kern: set<nat>, owner: map<nat, nat>, procs: seq<Proc>, procs': seq<Proc>)
    requires Tidy(kern, owner, procs) && SameShape(procs, procs')
    ensures Tidy(kern, owner, procs')
  {
  }

  lemma TidyReaped(kern0: set<nat>, owner0: map<nat, nat>, procs0: seq<Proc>, kern: set<nat>, owner: map<nat, nat>,
                   procs: seq<Proc>, p: nat)
    requires owner == Without(owner0, p) && kern == kern0 - (owner0.Keys - owner.Keys)
    requires |procs| == |procs0| && forall q :: 0 <= q < |procs| && q != p && procs0[q].used ==> procs[q].used
    ensures Tidy(kern0, owner0, procs0) ==> Tidy(kern, owner, procs)
  {
  }

  lemma KernFreeList(s: St, f: nat)
    requires Inv(s) && f in s.kern
    ensures f < NFRAMES && KFree(s, f).freelist == [f] + s.freelist
  {
    assert FrameOk(s, f);
  }

  lemma KFreeGrows(s: St, f: nat)
    requires |s.mem| == |s.refcnt| && f < |s.mem|
    ensures |KFree(s, f).freelist| >= |s.freelist|
  {
  }

  /** The frames a fork may take: a stack, what setupkvm allocates, the child's page tables. */
  function ForkNeed(sz: nat): nat { 1 + KVMPAGES + NPages(sz) }

  /** The frames allocuvm may take: a page and a page table for every new page. */
  function AllocNeed(oldsz: nat, newsz: nat): int {
    if oldsz <= newsz < KERNBASE then 2 * (NPages(newsz) - NPages(oldsz)) else 0
  }

  function GrowNeed(sz: nat, n: int): int { if n > 0 then AllocNeed(sz, sz + n) else 0 }

  /** The shrink that growproc gets wrong: to nothing at all. */
  predicate ToNothing(sz: nat, n: int) { n < 0 && sz + n == 0 }

  /** growproc takes a size of 0 from allocuvm or deallocuvm for a failure. */
  predicate GrowOk(sz: nat, n: int) { !(n > 0 && sz + n >= KERNBASE) && !(n < 0 && sz == 0) }

  /** The size after growproc: the request is refused above KERNBASE and ignored below 0. */
  function GrownSize(sz: nat, n: int): nat {
    if !GrowOk(sz, n) || sz + n < 0 then sz else sz + n
  }

  ghost function EagerResize(a: map<Va, Leaf>, p: nat, sz: nat, newsz: nat): map<Va, Leaf> {
    if NPages(sz) <= NPages(newsz) then EagerGrow(a, p, NPages(sz), NPages(newsz))
    else EagerDrop(a, p, NPages(newsz), NPages(sz))
  }

  lemma ExactOf(procs: seq<Proc>, ptes: map<Va, Pte>, p: nat)
    requires Exact(procs, ptes) && p < NPROC && procs[p].used
    ensures |procs| == NPROC && procs[p].sz < KERNBASE
    ensures forall v: nat :: Va(p, v) in ptes <==> v < NPages(procs[p].sz)
  {
  }

  lemma ShapeLength(a: seq<Proc>, b: seq<Proc>)
    ensures SameShape(a, a)
    ensures SameShape(a, b) ==> |a| == |b| && forall p :: 0 <= p < |a| ==> a[p].sz == b[p].sz && b[p].(sz := a[p].sz) == b[p]
  {
  }

  lemma ResizeExact(procs: seq<Proc>, procs1: seq<Proc>, ptes: map<Va, Pte>, ptes': map<Va, Pte>, p: nat, newsz: nat,
                    a: map<Va, Leaf>, a': map<Va, Leaf>)
    requires Exact(procs, ptes) && SameShape(procs, procs1) && p < NPROC && procs[p].used && newsz < KERNBASE
    requires a.Keys == ptes.Keys && a'.Keys == ptes'.Keys && a' == EagerResize(a, p, procs[p].sz, newsz)
    ensures Exact(procs1[p := procs1[p].(sz := newsz)], ptes') && ProcsOk(procs1[p := procs1[p].(sz := newsz)], ptes')
    ensures SameShape(procs[p := procs[p].(sz := newsz)], procs1[p := procs1[p].(sz := newsz)])
  {
    hide EagerGrow, EagerDrop;
    var sz := procs[p].sz;
    var procs' := procs1[p := procs1[p].(sz := newsz)];
    if NPages(sz) <= NPages(newsz) {
      EagerGrowKeys(a, p, NPages(sz), NPages(newsz));
    } else {
      EagerDropKeys(a, p, NPages(newsz), NPages(sz));
    }
    assert forall q :: 0 <= q < NPROC && q != p ==> procs'[q].used == procs[q].used && procs'[q].sz == procs[q].sz;
    assert forall k :: k in a <==> k in ptes;
    assert forall k :: k in a' <==> k in ptes';
    forall k: Va
      ensures k in ptes' <==> k.proc < NPROC && procs'[k.proc].used && k.vpn < NPages(procs'[k.proc].sz)
    {
      assert k in ptes <==> k.proc < NPROC && procs[k.proc].used && k.vpn < NPages(procs[k.proc].sz);
    }
  }

  lemma EagerDropKeys(a: map<Va, Leaf>, p: nat, lo: nat, hi: nat)
    ensures forall k :: k in EagerDrop(a, p, lo, hi) <==> k in a && !(k.proc == p && lo <= k.vpn < hi)
  {
  }

  lemma EagerDropDrops(a: map<Va, Leaf>, p: nat, n: nat, k: Va)
    requires k.proc == p && k.vpn < n
    ensures EagerDrop(a - {k}, p, 0, n) == EagerDrop(a, p, 0, n)
  {
  }

  /** A process has entries for its own pages only. */
  lemma ReapRange(procs: seq<Proc>, s: St, p: nat)
    requires Exact(procs, s.ptes) && p < NPROC && procs[p].used
    ensures forall v: nat :: Swapped(s, Va(p, v)) ==> v < NPages(procs[p].sz)
  {
  }

  lemma ReapUsed(procs: seq<Proc>, procs1: seq<Proc>, p: nat)
    requires SameShape(procs, procs1)
    ensures forall q :: 0 <= q < |procs| ==> procs1[q].used == procs[q].used
  {
  }

  lemma NoPages()
    ensures NPages(0) == 0
  {
  }

  lemma ReapExact(procs: seq<Proc>, procs1: seq<Proc>, ptes: map<Va, Pte>, ptes': map<Va, Pte>, p: nat)
    requires Exact(procs, ptes) && SameShape(procs, procs1) && p < NPROC && procs[p].used
    requires forall k :: k in ptes' <==> k in ptes && !(k.proc == p && 0 <= k.vpn < NPages(procs[p].sz))
    ensures var procs' := procs1[p := procs1[p].(used := false, pid := 0)];
            && Exact(procs', ptes') && ProcsOk(procs', ptes')
            && SameShape(procs[p := procs[p].(used := false, pid := 0)], procs')
  {
    var procs' := procs1[p := procs1[p].(used := false, pid := 0)];
    assert forall q :: 0 <= q < NPROC && q != p ==> procs'[q].used == procs[q].used && procs'[q].sz == procs[q].sz;
    forall k: Va
      ensures k in ptes' <==> k.proc < NPROC && procs'[k.proc].used && k.vpn < NPages(procs'[k.proc].sz)
    {
      assert k in ptes <==> k.proc < NPROC && procs[k.proc].used && k.vpn < NPages(procs[k.proc].sz);
    }
  }

  lemma ForkExact(procs: seq<Proc>, procs1: seq<Proc>, ptes: map<Va, Pte>, ptes': map<Va, Pte>, parent: nat, child: nat, pid: nat)
    requires Exact(procs, ptes) && SameShape(procs, procs1)
    requires parent < NPROC && procs[parent].used && child < NPROC && !procs[child].used
    requires forall k :: k in ptes' <==> k in ptes || (k.proc == child && k.vpn < NPages(procs[parent].sz))
    ensures var procs' := procs1[child := Proc(true, pid, procs1[child].rss, procs1[parent].sz)];
            && Exact(procs', ptes') && ProcsOk(procs', ptes')
            && SameShape(procs[child := Proc(true, pid, 0, procs[parent].sz)], procs')
  {
    var procs' := procs1[child := Proc(true, pid, procs1[child].rss, procs1[parent].sz)];
    assert forall p :: 0 <= p < NPROC && p != child ==> procs'[p].used == procs[p].used && procs'[p].sz == procs[p].sz;
    forall k: Va
      ensures k in ptes' <==> k.proc < NPROC && procs'[k.proc].used && k.vpn < NPages(procs'[k.proc].sz)
    {
      assert k in ptes <==> k.proc < NPROC && procs[k.proc].used && k.vpn < NPages(procs[k.proc].sz);
    }
  }

  lemma SwappedStays(s: St, t: St, k: Va)
    requires Sizes(s) && Sizes(t) && Undisturbed(s, t) && Swapped(s, k)
    ensures Swapped(t, k) && t.ptes[k] == s.ptes[k] && FlagsOf(t, k) == FlagsOf(s, k)
  {
    UndisturbedKeys(s, t);
  }

  lemma PagesKeys(s: St)
    requires Sizes(s)
    ensures Pages(s).Keys == s.ptes.Keys
    ensures forall k :: k in s.ptes ==> k in Pages(s) && Pages(s)[k] == LeafOf(s, k)
  {
  }

  lemma EagerDropNone(a: map<Va, Leaf>, p: nat, lo: nat)
    ensures EagerDrop(a, p, lo, lo) == a
  {
  }

  lemma EagerDropNext(a: map<Va, Leaf>, p: nat, lo: nat, hi: nat)
    requires lo <= hi
    ensures EagerDrop(a, p, lo, hi + 1) == EagerDrop(a, p, lo, hi) - {Va(p, hi)}
    ensures Va(p, hi) !in EagerDrop(a, p, lo, hi) ==> EagerDrop(a, p, lo, hi + 1) == EagerDrop(a, p, lo, hi)
  {
    assert forall k: Va :: k.proc == p && k.vpn == hi <==> k == Va(p, hi);
  }

  lemma EagerForkNone(a: map<Va, Leaf>, parent: nat, child: nat)
    ensures EagerFork(a, parent, child, 0) == a
  {
  }

  lemma EagerForkNext(a: map<Va, Leaf>, parent: nat, child: nat, n: nat)
    requires forall i: nat :: i < n + 1 ==> Va(parent, i) in a
    ensures var x := Shared(a[Va(parent, n)]);
      EagerFork(a, parent, child, n + 1) == EagerFork(a, parent, child, n)[Va(parent, n) := x][Va(child, n) := x]
  {
  }

  lemma {:induction false} EagerForkKeys(a: map<Va, Leaf>, parent: nat, child: nat, n: nat)
    requires parent != child && forall i: nat :: i < n ==> Va(parent, i) in a
    ensures forall k :: k in EagerFork(a, parent, child, n) <==> k in a || (k.proc == child && k.vpn < n)
    ensures forall k :: k in a && k.proc != child ==>
      EagerFork(a, parent, child, n)[k] == if k.proc == parent && k.vpn < n then Shared(a[k]) else a[k]
  {
    if n > 0 {
      EagerForkKeys(a, parent, child, n - 1);
    }
  }

  lemma SelfSame(s: St, procs: seq<Proc>)
    requires Sizes(s)
    ensures Undisturbed(s, s) && KernKept(s, s) && SameShape(procs, procs)
  {
  }

  lemma NPagesMonotone(a: nat, b: nat)
    ensures a <= b ==> NPages(a) <= NPages(b)
  {
  }

  lemma PagesUndisturbed(s: St, t: St)
    requires Sizes(s) && Sizes(t) && Undisturbed(s, t)
    ensures Pages(t) == Pages(s) && t.ptes.Keys == s.ptes.Keys
  {
    UndisturbedKeys(s, t);
  }

  lemma EagerGrowStart(a: map<Va, Leaf>, p: nat, lo: nat)
    ensures EagerGrow(a, p, lo, lo) == a
  {
  }

  lemma EagerGrowNext(a: map<Va, Leaf>, p: nat, lo: nat, hi: nat)
    requires lo <= hi
    ensures EagerGrow(a, p, lo, hi + 1) == EagerGrow(a, p, lo, hi)[Va(p, hi) := FreshLeaf()]
  {
  }

  lemma {:induction false} EagerGrowKeys(a: map<Va, Leaf>, p: nat, lo: nat, hi: nat)
    requires lo <= hi
    ensures forall k :: k in EagerGrow(a, p, lo, hi) <==> k in a || (k.proc == p && lo <= k.vpn < hi)
    decreases hi
  {
    if lo < hi {
      EagerGrowKeys(a, p, lo, hi - 1);
    }
  }

  /** The next page to map has no entry yet. */
  lemma GrowFresh(s: St, s0: St, p: nat, lo: nat, hi: nat)
    requires Sizes(s) && Sizes(s0) && lo <= hi && Pages(s) == EagerGrow(Pages(s0), p, lo, hi)
    requires forall v: nat :: Va(p, v) in s0.ptes ==> v < lo
    ensures Va(p, hi) !in s.ptes
  {
    hide EagerGrow;
    EagerGrowKeys(Pages(s0), p, lo, hi);
    assert Va(p, hi) in Pages(s) <==> Va(p, hi) in s.ptes;
  }

  lemma ProcsMore(procs: seq<Proc>, procs': seq<Proc>, ptes: map<Va, Pte>, ptes': map<Va, Pte>)
    requires ProcsOk(procs, ptes) && ptes.Keys <= ptes'.Keys && SameShape(procs, procs')
    ensures ProcsOk(procs', ptes') && |procs'| == NPROC
  {
    forall p: nat | p < NPROC && procs'[p].used
      ensures Mapped(ptes', p, NPages(procs'[p].sz))
    {
      assert Mapped(ptes, p, NPages(procs[p].sz));
      assert forall k :: k in ptes ==> k in ptes';
    }
  }

  lemma ProcsKept(procs: seq<Proc>, procs': seq<Proc>, ptes: map<Va, Pte>, ptes': map<Va, Pte>)
    requires ProcsOk(procs, ptes) && ptes'.Keys == ptes.Keys && |procs'| == |procs|
    requires forall p :: 0 <= p < NPROC ==> procs'[p].used == procs[p].used && procs'[p].sz == procs[p].sz
    ensures ProcsOk(procs', ptes')
  {
    forall p: nat | p < NPROC && procs'[p].used
      ensures Mapped(ptes', p, NPages(procs'[p].sz))
    {
      assert Mapped(ptes, p, NPages(procs[p].sz));
      assert forall k :: k in ptes' <==> k in ptes;
    }
  }

  lemma UndisturbedRefl(s: St)
    requires Sizes(s)
    ensures Undisturbed(s, s)
  {
  }

  lemma ParkedSet(ptes0: map<Va, Pte>, ptes: map<Va, Pte>, k: Va, e: Pte)
    requires Parked(ptes0, ptes) && (k.proc < NPROC || k !in ptes0)
    ensures Parked(ptes0, ptes[k := e])
  {
  }

  lemma ParkedSelf(ptes: map<Va, Pte>)
    ensures Parked(ptes, ptes)
  {
  }

  lemma FlushedParked(ptes: map<Va, Pte>, ptes': map<Va, Pte>, v: nat, n: nat)
    requires v < NPROC && Mapped(ptes, v, n) && Flushed(ptes, ptes', v, n)
    ensures Parked(ptes, ptes')
  {
  }

  lemma FlushedAges(s: St, ptes': map<Va, Pte>, v: nat, n: nat)
    requires Inv(s) && Mapped(s.ptes, v, n) && Flushed(s.ptes, ptes', v, n)
    ensures Inv(s.(ptes := ptes')) && Undisturbed(s, s.(ptes := ptes'))
    ensures PresentSet(ptes') == PresentSet(s.ptes) && ptes'.Keys == s.ptes.Keys
  {
    hide FramesOk, SlotsOk, CountAccessed, FlagsOf, Pages;
    forall k | k in ptes'
      ensures ptes'[k] == s.ptes[k] || (s.ptes[k].fl.p && ptes'[k] == Aged(s.ptes[k]))
    {
      if k.proc == v && k.vpn < n {
        assert k == Va(v, k.vpn);
      }
    }
    AgeKeeps(s, ptes');
  }
}
