/** Whole runs of fork, user reads and writes with their faults, sbrk, exit and memory
    pressure: every process reads exactly the bytes of a system whose fork copies eagerly,
    whose memory is unlimited and which never swaps, and its pages keep their flags. */
module VmRun {
  import opened Blocks
  import opened VmModel
  import opened VmInv
  import opened SwapDisk
  import opened Victim
  import opened Vm

  type Offset = x: nat | x < PGSIZE

  datatype Op =
    | ForkOp(parent: nat, child: nat, pid: nat)
    | WriteOp(k: Va, off: Offset, b: Byte)
    | ReadOp(k: Va, off: Offset)
    | SbrkOp(p: nat, n: int)
    | ReapOp(p: nat)
    | PressureOp               // some other kalloc swaps a page out

  /** The reference system: each process's own pages, and its size in bytes. */
  datatype Eager = Eager(pages: map<Va, Leaf>, live: map<nat, nat>)

  ghost predicate CanFork(e: Eager, parent: nat, child: nat) {
    && parent in e.live && child !in e.live && child < NPROC
    && forall i: nat :: i < NPages(e.live[parent]) ==> Va(parent, i) in e.pages
  }

  /** One operation of the reference system; an operation that is not possible is skipped. */
  ghost function EagerStep(e: Eager, op: Op): Eager {
    match op
    case ForkOp(parent, child, pid) =>
      if !CanFork(e, parent, child) then e
      else Eager(EagerFork(e.pages, parent, child, NPages(e.live[parent])), e.live[child := e.live[parent]])
    case WriteOp(k, off, b) =>
      if Served(e.pages, k) then e.(pages := EagerWrite(e.pages, k, off, b)) else e
    case ReadOp(k, off) => e
    case SbrkOp(p, n) =>
      if p !in e.live || !(-0x8000_0000 <= n < 0x8000_0000) then e
      else
        var sz := GrownSize(e.live[p], n);
        Eager(EagerResize(e.pages, p, e.live[p], sz), e.live[p := sz])
    case ReapOp(p) =>
      if p in e.live then Eager(EagerDrop(e.pages, p, 0, NPages(e.live[p])), e.live - {p}) else e
    case PressureOp => e
  }

  ghost function EagerRun(e: Eager, ops: seq<Op>): Eager {
    if ops == [] then e else EagerStep(EagerRun(e, ops[..|ops| - 1]), ops[|ops| - 1])
  }

  /** The bytes that the reads of the run return, in order. */
  ghost function EagerReads(e: Eager, ops: seq<Op>): seq<Byte> {
    if ops == [] then []
    else
      var n := |ops| - 1;
      var before, op := EagerRun(e, ops[..n]), ops[n];
      EagerReads(e, ops[..n])
      + if op.ReadOp? && Served(before.pages, op.k) then [before.pages[op.k].bytes[op.off]] else []
  }

  /** An access is one that the kernel serves: the page is there, and the user's. */
  ghost predicate Allowed(e: Eager, op: Op) {
    op.WriteOp? || op.ReadOp? ==> Served(e.pages, op.k)
  }

  /** The frames an operation may take. */
  ghost function Need(e: Eager, op: Op): int {
    match op
    case ForkOp(parent, child, _) => if parent in e.live && child !in e.live && child < NPROC then ForkNeed(e.live[parent]) else 0
    case WriteOp(_, _, _) => 1
    case SbrkOp(p, n) => if p in e.live then GrowNeed(e.live[p], n) else 0
    case _ => 0
  }

  /** No memory pressure from outside, no wild access, and no shrink to nothing. */
  ghost predicate Calm(e: Eager, op: Op) {
    !op.PressureOp? && Allowed(e, op) && (op.SbrkOp? && op.p in e.live ==> !ToNothing(e.live[op.p], op.n))
  }

  ghost function RunNeed(e: Eager, ops: seq<Op>): int {
    if ops == [] then 0
    else RunNeed(e, ops[..|ops| - 1]) + Need(EagerRun(e, ops[..|ops| - 1]), ops[|ops| - 1])
  }

  ghost predicate CalmRun(e: Eager, ops: seq<Op>) {
    forall n: nat :: n < |ops| ==> Calm(EagerRun(e, ops[..n]), ops[n])
  }

  lemma NeedsAreNatural(e: Eager, op: Op)
    ensures Need(e, op) >= 0
  {
    if op.SbrkOp? && op.p in e.live && op.n > 0 {
      NPagesMonotone(e.live[op.p], e.live[op.p] + op.n);
    }
  }

  lemma {:induction false} RunNeedGrows(e: Eager, ops: seq<Op>, n: nat)
    requires n <= |ops|
    ensures RunNeed(e, ops[..n]) <= RunNeed(e, ops)
    decreases |ops|
  {
    hide Need, EagerStep;
    if n == |ops| {
      assert ops[..n] == ops;
    } else {
      RunNeedGrows(e, ops[..|ops| - 1], n);
      assert ops[..|ops| - 1][..n] == ops[..n];
      NeedsAreNatural(EagerRun(e, ops[..|ops| - 1]), ops[|ops| - 1]);
    }
  }

  lemma RunNone(e: Eager, ops: seq<Op>)
    ensures EagerRun(e, ops[..0]) == e && EagerReads(e, ops[..0]) == [] && RunNeed(e, ops[..0]) == 0
  {
  }

  lemma RunNext(e: Eager, ops: seq<Op>, n: nat)
    requires n < |ops|
    ensures var before, op := EagerRun(e, ops[..n]), ops[n];
      && EagerRun(e, ops[..n + 1]) == EagerStep(before, op)
      && EagerReads(e, ops[..n + 1])
         == EagerReads(e, ops[..n]) + (if op.ReadOp? && Served(before.pages, op.k) then [before.pages[op.k].bytes[op.off]] else [])
      && RunNeed(e, ops[..n + 1]) == RunNeed(e, ops[..n]) + Need(before, op)
  {
    hide EagerStep, Need;
    assert ops[..n + 1][..n] == ops[..n];
  }

  ghost function LiveOf(procs: seq<Proc>): map<nat, nat> {
    map p: nat | p < |procs| && procs[p].used :: procs[p].sz
  }

  ghost predicate Settled(vm: Vm)
    reads vm
  {
    vm.Ok() && Exact(vm.procs, vm.ptes) && Tidy(vm.kern, vm.owner, vm.procs)
  }

  ghost function Abs(vm: Vm): Eager
    requires Settled(vm)
    reads vm
  {
    Eager(Pages(vm.S()), LiveOf(vm.procs))
  }

  lemma LiveShape(a: seq<Proc>, b: seq<Proc>)
    requires SameShape(a, b)
    ensures LiveOf(a) == LiveOf(b)
  {
  }

  lemma LiveSet(procs: seq<Proc>, p: nat, q: Proc)
    requires p < |procs|
    ensures q.used ==> LiveOf(procs[p := q]) == LiveOf(procs)[p := q.sz]
    ensures !q.used ==> LiveOf(procs[p := q]) == LiveOf(procs) - {p}
  {
  }

  /** ops up to the first that halts; see Vm.Stop for what that means. */
  method Run(vm: Vm, ops: seq<Op>) returns (r: Outcome, n: nat, seen: seq<Byte>)
    requires Settled(vm)
    modifies vm
    ensures n <= |ops| && (r.Done? ==> n == |ops|)
    ensures seen == EagerReads(old(Abs(vm)), ops[..n])
    ensures r.Done? ==> Settled(vm) && Abs(vm) == EagerRun(old(Abs(vm)), ops)
    ensures forall i: nat :: i < n ==> Allowed(EagerRun(old(Abs(vm)), ops[..i]), ops[i])
    ensures n < |ops| && !Allowed(EagerRun(old(Abs(vm)), ops[..n]), ops[n]) ==>
              r == Halted(Refusal(EagerRun(old(Abs(vm)), ops[..n]).pages, ops[n].k))
    ensures CalmRun(old(Abs(vm)), ops) && old(vm.Spare(RunNeed(Abs(vm), ops))) ==> r.Done?
  {
    hide Settled, Abs, EagerStep, Need, Calm, Allowed, EagerRun, EagerReads, RunNeed, Plain;
    ghost var e0, free0 := Abs(vm), |vm.freelist|;
    ghost var ample := CalmRun(e0, ops) && vm.Spare(RunNeed(e0, ops));
    r, n, seen := Done, 0, [];
    RunNone(e0, ops);
    while n < |ops|
      invariant 0 <= n <= |ops| && r.Done?
      invariant Settled(vm) && Abs(vm) == EagerRun(e0, ops[..n])
      invariant seen == EagerReads(e0, ops[..n])
      invariant forall i: nat :: i < n ==> Allowed(EagerRun(e0, ops[..i]), ops[i])
      invariant ample ==> Plain(vm.ptes) && |vm.freelist| >= free0 - RunNeed(e0, ops[..n])
    {
      var out;
      RunNext(e0, ops, n);
      RunNeedGrows(e0, ops, n + 1);
      r, out := Perform(vm, ops[n]);
      if r.Halted? {
        return;
      }
      seen := seen + out;
      n := n + 1;
    }
    assert ops[..n] == ops;
  }

  lemma ExactKept(procs: seq<Proc>, procs': seq<Proc>, ptes: map<Va, Pte>, ptes': map<Va, Pte>)
    requires Exact(procs, ptes) && SameShape(procs, procs') && ptes'.Keys == ptes.Keys
    ensures Exact(procs', ptes') && LiveOf(procs') == LiveOf(procs)
  {
    assert forall k :: k in ptes' <==> k in ptes;
    LiveShape(procs, procs');
  }

  method PerformFork(vm: Vm, parent: nat, child: nat, pid: nat) returns (r: Outcome)
    requires Settled(vm)
    modifies vm
    ensures r.Done? ==> Settled(vm) && Abs(vm) == EagerStep(old(Abs(vm)), ForkOp(parent, child, pid))
    ensures old(vm.Spare(Need(Abs(vm), ForkOp(parent, child, pid)))) && Calm(old(Abs(vm)), ForkOp(parent, child, pid)) ==>
              r.Done? && vm.Spare(|old(vm.freelist)| - Need(old(Abs(vm)), ForkOp(parent, child, pid)))
  {
    hide FramesOk, SlotsOk, FlagsOf, Pages, SwapPages, ProcsOk, EagerFork;
    PagesKeys(vm.S());
    if parent < NPROC && vm.procs[parent].used && child < NPROC && !vm.procs[child].used {
      ghost var procs0 := vm.procs;
      r := vm.Fork(parent, child, pid);
      if r.Done? {
        var q := Proc(true, pid, 0, procs0[parent].sz);
        LiveSet(procs0, child, q);
        LiveShape(procs0[child := q], vm.procs);
      }
    } else {
      r := Done;
    }
  }

  method PerformSbrk(vm: Vm, p: nat, n: int) returns (r: Outcome)
    requires Settled(vm)
    modifies vm
    ensures r.Done? ==> Settled(vm) && Abs(vm) == EagerStep(old(Abs(vm)), SbrkOp(p, n))
    ensures old(vm.Spare(Need(Abs(vm), SbrkOp(p, n)))) && Calm(old(Abs(vm)), SbrkOp(p, n)) ==>
              r.Done? && vm.Spare(|old(vm.freelist)| - Need(old(Abs(vm)), SbrkOp(p, n)))
  {
    hide FramesOk, SlotsOk, FlagsOf, Pages, SwapPages, ProcsOk, EagerResize;
    r := Done;
    if p < NPROC && vm.procs[p].used && -0x8000_0000 <= n < 0x8000_0000 {
      ghost var procs0 := vm.procs;
      var ok;
      r, ok := vm.Growproc(p, n);
      if r.Done? {
        ghost var q := procs0[p].(sz := GrownSize(procs0[p].sz, n));
        LiveSet(procs0, p, q);
        LiveShape(procs0[p := q], vm.procs);
      }
    }
  }

  method PerformReap(vm: Vm, p: nat)
    requires Settled(vm)
    modifies vm
    ensures Settled(vm) && Abs(vm) == EagerStep(old(Abs(vm)), ReapOp(p))
    ensures old(vm.Spare(0)) ==> vm.Spare(|old(vm.freelist)|)
  {
    hide FramesOk, SlotsOk, FlagsOf, Pages, SwapPages, ProcsOk, EagerDrop;
    if p < NPROC && vm.procs[p].used {
      ghost var procs0 := vm.procs;
      vm.Reap(p);
      ghost var q := procs0[p].(used := false, pid := 0);
      LiveSet(procs0, p, q);
      LiveShape(procs0[p := q], vm.procs);
    }
  }

  /** A user access: the byte read, or one byte of one process changed. */
  method PerformAccess(vm: Vm, op: Op) returns (r: Outcome, out: seq<Byte>)
    requires Settled(vm) && (op.WriteOp? || op.ReadOp?)
    modifies vm
    ensures r.Done? ==> Settled(vm) && Abs(vm) == EagerStep(old(Abs(vm)), op) && Allowed(old(Abs(vm)), op)
    ensures !Allowed(old(Abs(vm)), op) ==> r == Halted(Refusal(old(Abs(vm)).pages, op.k))
    ensures r.Done? ==> out == if op.ReadOp? then [old(Abs(vm)).pages[op.k].bytes[op.off]] else []
    ensures old(vm.Spare(Need(Abs(vm), op))) && Calm(old(Abs(vm)), op) ==>
              r.Done? && vm.Spare(|old(vm.freelist)| - Need(old(Abs(vm)), op))
  {
    hide FramesOk, SlotsOk, Pages, SwapPages, ProcsOk, LeafOf, EagerWrite, Exact, Tidy;
    ghost var s0, procs0 := vm.S(), vm.procs;
    PagesKeys(s0);
    out := [];
    if op.WriteOp? {
      r := vm.UserWrite(op.k, op.off, op.b);
    } else {
      var b;
      r, b := vm.UserRead(op.k, op.off);
      out := [b];
    }
    if r.Done? {
      PagesKeys(vm.S());
      WriteKeys(Pages(s0), op.k);
      ExactKept(procs0, vm.procs, s0.ptes, vm.ptes);
      TidyShape(vm.kern, vm.owner, procs0, vm.procs);
    }
  }

  lemma WriteKeys(a: map<Va, Leaf>, k: Va)
    requires k in a
    ensures forall off: Offset, b :: EagerWrite(a, k, off, b).Keys == a.Keys
  {
  }

  method PerformPressure(vm: Vm) returns (r: Outcome)
    requires Settled(vm)
    modifies vm
    ensures r.Done? ==> Settled(vm) && Abs(vm) == old(Abs(vm))
  {
    hide FramesOk, SlotsOk, FlagsOf, Pages, SwapPages, ProcsOk, Undisturbed, Tidy, Exact;
    ghost var s0, procs0 := vm.S(), vm.procs;
    r := vm.SwapOutPage();
    PagesUndisturbed(s0, vm.S());
    ExactKept(procs0, vm.procs, s0.ptes, vm.ptes);
    TidyShape(vm.kern, vm.owner, procs0, vm.procs);
  }

  /** One operation, carried out by the kernel's own routines. */
  method Perform(vm: Vm, op: Op) returns (r: Outcome, out: seq<Byte>)
    requires Settled(vm)
    modifies vm
    ensures r.Done? ==> Settled(vm) && Abs(vm) == EagerStep(old(Abs(vm)), op) && Allowed(old(Abs(vm)), op)
    ensures !Allowed(old(Abs(vm)), op) ==> r == Halted(Refusal(old(Abs(vm)).pages, op.k))
    ensures r.Done? ==> out == if op.ReadOp? && Served(old(Abs(vm)).pages, op.k) then [old(Abs(vm)).pages[op.k].bytes[op.off]] else []
    ensures old(vm.Spare(Need(Abs(vm), op))) && Calm(old(Abs(vm)), op) ==>
              r.Done? && vm.Spare(|old(vm.freelist)| - Need(old(Abs(vm)), op))
  {
    r, out := Done, [];
    match op
    case ForkOp(parent, child, pid) => r := PerformFork(vm, parent, child, pid);
    case WriteOp(_, _, _) => r, out := PerformAccess(vm, op);
    case ReadOp(_, _) => r, out := PerformAccess(vm, op);
    case SbrkOp(p, n) => r := PerformSbrk(vm, p, n);
    case ReapOp(p) => PerformReap(vm, p);
    case PressureOp => r := PerformPressure(vm);
  }

  // -------------------------------------------------- flags across swapping

  /** What the operations before the next use of page k may be: anything but a store to k, a
      fork, sbrk or exit of its process, and a fork that makes its process. */
  ghost predicate Apart(op: Op, k: Va) {
    match op
    case ForkOp(parent, child, _) => k.proc != parent && k.proc != child
    case WriteOp(l, _, _) => l != k
    case ReadOp(_, _) => true
    case SbrkOp(p, _) => p != k.proc
    case ReapOp(p) => p != k.proc
    case PressureOp => true
  }

  lemma {:induction false} ForkApart(a: map<Va, Leaf>, parent: nat, child: nat, n: nat, k: Va)
    requires (forall i: nat :: i < n ==> Va(parent, i) in a) && k in a && k.proc != parent && k.proc != child
    ensures k in EagerFork(a, parent, child, n) && EagerFork(a, parent, child, n)[k] == a[k]
  {
    if n > 0 {
      ForkApart(a, parent, child, n - 1, k);
    }
  }

  lemma {:induction false} GrowApart(a: map<Va, Leaf>, p: nat, lo: nat, hi: nat, k: Va)
    requires lo <= hi && k in a && k.proc != p
    ensures k in EagerGrow(a, p, lo, hi) && EagerGrow(a, p, lo, hi)[k] == a[k]
    decreases hi
  {
    if lo < hi {
      GrowApart(a, p, lo, hi - 1, k);
    }
  }

  lemma StepApart(e: Eager, op: Op, k: Va)
    requires Apart(op, k) && k in e.pages
    ensures k in EagerStep(e, op).pages && EagerStep(e, op).pages[k] == e.pages[k]
  {
    hide EagerFork, EagerGrow, GrownSize, NPages;
    match op
    case ForkOp(parent, child, _) =>
      if CanFork(e, parent, child) {
        ForkApart(e.pages, parent, child, NPages(e.live[parent]), k);
      }
    case SbrkOp(p, n) =>
      if p in e.live {
        var lo, hi := NPages(e.live[p]), NPages(GrownSize(e.live[p], n));
        if lo <= hi {
          GrowApart(e.pages, p, lo, hi, k);
        }
      }
    case _ =>
  }

  lemma {:induction false} RunApart(e: Eager, ops: seq<Op>, k: Va)
    requires (forall i :: 0 <= i < |ops| ==> Apart(ops[i], k)) && k in e.pages
    ensures k in EagerRun(e, ops).pages && EagerRun(e, ops).pages[k] == e.pages[k]
  {
    hide EagerStep, Apart;
    if ops != [] {
      var n := |ops| - 1;
      RunApart(e, ops[..n], k);
      StepApart(EagerRun(e, ops[..n]), ops[n], k);
    }
  }

  /** A run during which k may be swapped out and in any number of times, and then a load
      from it: the entry is there with the flags it had, apart from the accessed bit. */
  method RunThenLoad(vm: Vm, ops: seq<Op>, k: Va, off: Offset) returns (r: Outcome, b: Byte)
    requires Settled(vm) && Present(vm.S(), k) && forall i :: 0 <= i < |ops| ==> Apart(ops[i], k)
    modifies vm
    ensures r.Done? ==> vm.Ok() && Present(vm.S(), k) && vm.ptes[k].fl.(a := false) == old(vm.ptes)[k].fl.(a := false)
    ensures r.Done? ==> k in Pages(old(vm.S())) && b == Pages(old(vm.S()))[k].bytes[off]
  {
    hide FramesOk, SlotsOk, FlagsOf, Pages, SwapPages, ProcsOk, LeafOf, EagerRun, EagerReads, Apart, Exact, Tidy, Calm, Need;
    ghost var e0 := Abs(vm);
    PresentLeaf(vm.S(), k);
    RunApart(e0, ops, k);
    b := 0;
    var n, seen;
    r, n, seen := Run(vm, ops);
    if r.Done? {
      r, b := vm.UserRead(k, off);
      if r.Done? {
        PresentLeaf(vm.S(), k);
      }
    }
  }

  // ---------------------------------------------------- no frame is lost

  /** Between system calls every frame is free, or serves a live process as a page table or
      kernel stack, or holds a page. */
  lemma NoFrameLost(vm: Vm)
    requires Settled(vm)
    ensures |vm.freelist| + |vm.owner| + |FramesOf(vm.ptes)| == |vm.pool|
  {
    hide FramesOk, SlotsOk, FramesOf;
    Conservation(vm.S());
    assert |vm.owner.Keys| == |vm.owner|;
  }

  lemma SameFrames(ptes0: map<Va, Pte>, ptes1: map<Va, Pte>, ptes2: map<Va, Pte>)
    requires Plain(ptes0) && Plain(ptes2) && FramesStay(ptes0, ptes1) && ptes2.Keys == ptes0.Keys
    requires forall k :: k in ptes2 ==> k in ptes1 && ptes2[k] == ptes1[k]
    ensures FramesOf(ptes2) == FramesOf(ptes0)
  {
    assert forall k :: k in ptes2 <==> k in ptes0;
  }

  lemma OwnersBack(kern0: set<nat>, owner0: map<nat, nat>, procs0: seq<Proc>, kern1: set<nat>, owner1: map<nat, nat>, child: nat)
    requires Tidy(kern0, owner0, procs0) && Booked(kern0, owner0, kern1, owner1, child)
    requires child < |procs0| && !procs0[child].used && forall f :: f in owner1 ==> f in kern1
    ensures Without(owner1, child) == owner0 && kern1 - (owner1.Keys - owner0.Keys) == kern0
  {
    assert forall f :: f in kern1 ==> f in owner1 || f in kern1 - owner1.Keys;
  }

  lemma KeysBack(a: map<Va, Leaf>, parent: nat, child: nat, n: nat)
    requires parent != child && (forall i: nat :: i < n ==> Va(parent, i) in a) && forall k :: k in a ==> k.proc != child
    ensures EagerDrop(EagerFork(a, parent, child, n), child, 0, n).Keys == a.Keys
  {
    hide EagerFork, EagerDrop;
    EagerForkKeys(a, parent, child, n);
    EagerDropKeys(EagerFork(a, parent, child, n), child, 0, n);
    assert forall k :: k in EagerDrop(EagerFork(a, parent, child, n), child, 0, n) <==> k in a;
  }

  lemma NoneYet(procs: seq<Proc>, ptes: map<Va, Pte>, child: nat)
    requires Exact(procs, ptes) && child < NPROC && !procs[child].used
    ensures forall k :: k in ptes ==> k.proc != child
  {
  }

  lemma ChildThere(procs: seq<Proc>, procs1: seq<Proc>, parent: nat, child: nat, pid: nat)
    requires parent < |procs| && child < |procs| && SameShape(procs[child := Proc(true, pid, 0, procs[parent].sz)], procs1)
    ensures |procs1| == |procs| && procs1[child].used && procs1[child].sz == procs[parent].sz
  {
  }

  /** A child that is reaped gives back every frame its fork took. */
  method ForkThenReap(vm: Vm, parent: nat, child: nat, pid: nat) returns (r: Outcome)
    requires Settled(vm) && parent < NPROC && vm.procs[parent].used && child < NPROC && !vm.procs[child].used
    modifies vm
    ensures r.Done? ==> Settled(vm) && vm.owner == old(vm.owner) && vm.kern == old(vm.kern) && vm.ptes.Keys == old(vm.ptes.Keys)
    ensures old(vm.Spare(ForkNeed(vm.procs[parent].sz))) ==>
              r.Done? && |vm.freelist| == |old(vm.freelist)| && FramesOf(vm.ptes) == FramesOf(old(vm.ptes))
  {
    hide FramesOk, SlotsOk, FlagsOf, Pages, SwapPages, ProcsOk, EagerFork, EagerDrop, FramesOf, FramesStay, ForkNeed, NPages,
         Tidy, Booked, Without, Exact, SameShape, LeafOf;
    ExactOf(vm.procs, vm.ptes, parent);
    ghost var s0, procs0, n := vm.S(), vm.procs, NPages(vm.procs[parent].sz);
    PagesKeys(s0);
    NoFrameLost(vm);
    NoneYet(procs0, s0.ptes, child);
    r := vm.Fork(parent, child, pid);
    if r.Halted? {
      return;
    }
    ghost var s1 := vm.S();
    OwnersBack(s0.kern, old(vm.owner), procs0, s1.kern, vm.owner, child);
    KeysBack(Pages(s0), parent, child, n);
    ChildThere(procs0, vm.procs, parent, child, pid);
    vm.Reap(child);
    PagesKeys(vm.S());
    NoFrameLost(vm);
    if old(vm.Spare(ForkNeed(vm.procs[parent].sz))) {
      SameFrames(s0.ptes, s1.ptes, vm.ptes);
    }
  }
}
