/** The stack that exec builds in a page table no process has yet: main finds exactly the
    arguments that exec was given, and no page of any process changes, although copyout
    stores without looking at PTE_W. */
module Exec {
  import opened Blocks
  import opened VmModel
  import opened VmInv
  import opened SwapDisk
  import opened Victim
  import opened Vm

  const MAXARG: nat := 32
  const WRAP: nat := 0x1_0000_0000

  // ------------------------------------------------- what main finds

  /** The stack page b holds d at address x; base is the address of its first byte. */
  ghost predicate Holds(b: Page, base: nat, x: nat, d: seq<Byte>) {
    base <= x && x + |d| <= base + PGSIZE && b[x - base..x - base + |d|] == d
  }

  ghost function ByteAt(b: Page, base: nat, x: nat): Byte {
    if base <= x < base + PGSIZE then b[x - base] else 0
  }

  ghost function WordAt(b: Page, base: nat, x: nat): int {
    FromBytes(ByteAt(b, base, x), ByteAt(b, base, x + 1), ByteAt(b, base, x + 2), ByteAt(b, base, x + 3))
  }

  /** The C string at x. */
  ghost function StringAt(b: Page, base: nat, x: int): seq<Byte>
    decreases base + PGSIZE - x
  {
    if x < base || x >= base + PGSIZE || b[x - base] == 0 then [] else [b[x - base]] + StringAt(b, base, x + 1)
  }

  /** argv as main reads it: the count at esp + 4, the address of the vector at esp + 8. */
  ghost function Argv(b: Page, base: nat, esp: nat): seq<seq<Byte>> {
    var argc, argv := WordAt(b, base, esp + 4), WordAt(b, base, esp + 8);
    if argc < 0 || argv < 0 then []
    else seq(argc, j requires 0 <= j < argc => StringAt(b, base, WordAt(b, base, argv + 4 * j)))
  }

  lemma {:induction false} StringBack(b: Page, base: nat, x: nat, arg: seq<Byte>)
    requires Holds(b, base, x, arg + [0]) && 0 !in arg
    ensures StringAt(b, base, x) == arg
    decreases |arg|
  {
    var d := b[x - base..x - base + |arg| + 1];
    assert d[0] == b[x - base];
    if arg != [] {
      assert arg + [0] == [arg[0]] + (arg[1..] + [0]);
      assert b[x + 1 - base..x - base + |arg| + 1] == d[1..];
      StringBack(b, base, x + 1, arg[1..]);
    }
  }

  // ------------------------------------------------- what exec pushes

  /** Byte i of the word w, the low one first. */
  function WordByte(w: nat, i: nat): Byte
    requires w < WRAP && i < 4
  {
    SplitWord(w);
    if i == 0 then w % 0x100 else if i == 1 then w / 0x100 % 0x100
    else if i == 2 then w / 0x100 / 0x100 % 0x100 else w / 0x100 / 0x100 / 0x100
  }

  ghost predicate Short(ws: seq<nat>) { forall i :: 0 <= i < |ws| ==> ws[i] < WRAP }

  function Words(ws: seq<nat>): seq<Byte>
    requires Short(ws)
  {
    seq(4 * |ws|, i requires 0 <= i < 4 * |ws| => WordByte(ws[i / 4], i % 4))
  }

  /** A return address that is none, argc, the address of argv, argv itself. */
  function Ustack(ptrs: seq<nat>, sp: nat): seq<nat> {
    [0xffff_ffff, |ptrs|, (sp - 4 * (|ptrs| + 1)) % WRAP] + ptrs + [0]
  }

  function Down4(x: int): int { x - x % 4 }

  /** The stack pointer after the strings of args, had it all the room it wants. */
  ghost function SpAfter(top: int, args: seq<seq<Byte>>): int {
    if args == [] then top else Down4(SpAfter(top, args[..|args| - 1]) - |args[|args| - 1]| - 1)
  }

  /** The strings and the vector of pointers to them have room in one page. */
  ghost predicate Fits(top: int, args: seq<seq<Byte>>) {
    |args| <= MAXARG && top - PGSIZE <= SpAfter(top, args) - 4 * (|args| + 4)
  }

  lemma {:induction false} SpDown(top: int, args: seq<seq<Byte>>, n: nat)
    requires n <= |args|
    ensures SpAfter(top, args) <= SpAfter(top, args[..n])
    decreases |args|
  {
    if n == |args| {
      assert args[..n] == args;
    } else {
      SpDown(top, args[..|args| - 1], n);
      assert args[..|args| - 1][..n] == args[..n];
    }
  }

  lemma SpNext(top: int, args: seq<seq<Byte>>, n: nat)
    requires n < |args|
    ensures SpAfter(top, args[..n + 1]) == Down4(SpAfter(top, args[..n]) - |args[n]| - 1)
  {
    assert args[..n + 1][..n] == args[..n];
  }

  lemma WordBackByte(b: Page, base: nat, x: nat, ws: seq<nat>, j: nat, i: nat)
    requires Short(ws) && Holds(b, base, x, Words(ws)) && j < |ws| && i < 4
    ensures ByteAt(b, base, x + 4 * j + i) == WordByte(ws[j], i)
  {
    hide WordByte;
    var d := b[x - base..x - base + 4 * |ws|];
    assert d[4 * j + i] == b[x + 4 * j + i - base];
    assert (4 * j + i) / 4 == j && (4 * j + i) % 4 == i;
  }

  lemma WordBack(b: Page, base: nat, x: nat, ws: seq<nat>, j: nat)
    requires Short(ws) && Holds(b, base, x, Words(ws)) && j < |ws|
    ensures WordAt(b, base, x + 4 * j) == ws[j]
  {
    hide Words, Holds, ByteAt;
    WordBackByte(b, base, x, ws, j, 0);
    WordBackByte(b, base, x, ws, j, 1);
    WordBackByte(b, base, x, ws, j, 2);
    WordBackByte(b, base, x, ws, j, 3);
    SplitWord(ws[j]);
  }

  lemma PutHolds(b: Page, base: nat, x: nat, d: seq<Byte>)
    requires base <= x && x + |d| <= base + PGSIZE
    ensures Holds(Put(b, x - base, d), base, x, d)
  {
  }

  lemma PutBelow(b: Page, base: nat, x: nat, d: seq<Byte>, y: nat, e: seq<Byte>)
    requires base <= x && x + |d| <= y && Holds(b, base, y, e)
    ensures Holds(Put(b, x - base, d), base, y, e)
  {
  }

  /** The strings pushed so far, each of them whole. */
  ghost predicate Pushed(b: Page, base: nat, sp: nat, ptrs: seq<nat>, args: seq<seq<Byte>>) {
    |ptrs| <= |args| && forall j :: 0 <= j < |ptrs| ==> sp <= ptrs[j] && Holds(b, base, ptrs[j], args[j] + [0])
  }

  lemma PushedMore(b: Page, base: nat, sp: nat, ptrs: seq<nat>, args: seq<seq<Byte>>, va: nat, d: seq<Byte>)
    requires Pushed(b, base, sp, ptrs, args) && base <= va && va + |d| <= sp <= base + PGSIZE
    ensures Pushed(Put(b, va - base, d), base, sp, ptrs, args) && Holds(Put(b, va - base, d), base, va, d)
  {
    hide Put, Holds;
    PutHolds(b, base, va, d);
    forall j | 0 <= j < |ptrs| ensures Holds(Put(b, va - base, d), base, ptrs[j], args[j] + [0]) {
      PutBelow(b, base, va, d, ptrs[j], args[j] + [0]);
    }
  }

  /** The strings and the vector give main back its arguments. */
  lemma ArgvBack(b: Page, base: nat, sp: nat, ptrs: seq<nat>, args: seq<seq<Byte>>, esp: nat)
    requires Pushed(b, base, sp, ptrs, args) && |ptrs| == |args| && base + PGSIZE <= WRAP && sp <= base + PGSIZE
    requires forall j :: 0 <= j < |args| ==> 0 !in args[j]
    requires Short(Ustack(ptrs, sp))
    requires esp == sp - 4 * (|ptrs| + 4) && Holds(b, base, esp, Words(Ustack(ptrs, sp)))
    ensures Argv(b, base, esp) == args
  {
    hide Holds, Words, StringAt, WordAt;
    var ws := Ustack(ptrs, sp);
    WordBack(b, base, esp, ws, 1);
    WordBack(b, base, esp, ws, 2);
    assert ws[2] == esp + 12;
    forall j | 0 <= j < |args|
      ensures StringAt(b, base, WordAt(b, base, esp + 12 + 4 * j)) == args[j]
    {
      WordBack(b, base, esp, ws, 3 + j);
      assert esp + 4 * (3 + j) == esp + 12 + 4 * j;
      StringBack(b, base, ptrs[j], args[j]);
    }
  }

  // ------------------------------------------------------------ exec itself

  function StackPage(q: nat, top: nat): Va
    requires top >= PGSIZE
  {
    Va(q, top / PGSIZE - 1)
  }

  /** The stack page is q's alone, and the page below it is not the user's. */
  ghost predicate StackReady(vm: Vm, q: nat, top: nat)
    reads vm
  {
    && top % PGSIZE == 0 && 2 * PGSIZE <= top < KERNBASE
    && Found(vm.ptes, q, top / PGSIZE - 1) && !Found(vm.ptes, q, top / PGSIZE - 2)
    && (q, (top / PGSIZE - 1) / NPTENTRIES) in vm.dirs
    && vm.ptes[StackPage(q, top)].frame < |vm.refcnt| && vm.refcnt[vm.ptes[StackPage(q, top)].frame] == 1
  }

  /** A piece inside the stack page touches no other page. */
  lemma InStack(top: nat, va: nat, n: nat, v: nat)
    requires top % PGSIZE == 0 && PGSIZE <= top && top - PGSIZE <= va && va + n <= top && Touches(va, n, v)
    ensures v == top / PGSIZE - 1
  {
  }

  lemma StartsInStack(top: nat, x: nat)
    requires top % PGSIZE == 0 && PGSIZE <= top && top - PGSIZE <= x < top
    ensures x / PGSIZE == top / PGSIZE - 1 && x % PGSIZE == x - (top - PGSIZE)
  {
  }

  /** A piece that starts below the stack page and ends not too far below touches the guard. */
  lemma HitsGuard(top: nat, va: nat, n: nat)
    requires top % PGSIZE == 0 && 2 * PGSIZE <= top && va < top - PGSIZE && va + n > top - 2 * PGSIZE && n > 0
    ensures Touches(va, n, top / PGSIZE - 2)
  {
  }

  lemma HitsKernel(va: nat, n: nat)
    requires va >= KERNBASE && n > 0
    ensures Touches(va, n, va / PGSIZE) && va / PGSIZE >= KERNBASE / PGSIZE
  {
  }

  lemma CopyInOne(a: map<Va, Leaf>, q: nat, top: nat, va: nat, d: seq<Byte>)
    requires top % PGSIZE == 0 && PGSIZE <= top && top - PGSIZE <= va && va + |d| <= top && d != [] && StackPage(q, top) in a
    ensures CopyIn(a, q, va, d) == EagerStore(a, StackPage(q, top), va - (top - PGSIZE), d)
  {
    hide CopyIn, EagerStore;
    CopyInNone(a, q, va, d);
    StartsInStack(top, va);
    CopyInPiece(a, q, va, d, 0, |d|);
    assert d[..0 + |d|] == d && d[0..|d|] == d;
  }

  /** copyout at va of something that ends in the stack page or just below: it comes through
      exactly when it starts in the stack page. */
  method PushAt(vm: Vm, q: nat, top: nat, va: nat, d: seq<Byte>) returns (r: Outcome, ok: bool)
    requires vm.Ok() && StackReady(vm, q, top) && d != []
    requires va >= KERNBASE || top - 2 * PGSIZE < va + |d| <= top
    modifies vm`mem
    ensures vm.Ok() && StackReady(vm, q, top)
    ensures r.Done? && ok <==> top - PGSIZE <= va < KERNBASE
    ensures r.Done? && ok ==> StackPage(q, top) in Pages(old(vm.S()))
    ensures r.Done? && ok ==> Pages(vm.S()) == EagerStore(Pages(old(vm.S())), StackPage(q, top), va - (top - PGSIZE), d)
  {
    hide FramesOk, SlotsOk, FlagsOf, Pages, ProcsOk, SwapPages, CopyIn, EagerStore, Touches;
    ghost var a0 := Pages(vm.S());
    PagesKeys(vm.S());
    var n;
    r, ok, n := vm.Copyout(q, va, d);
    if va >= KERNBASE {
      HitsKernel(va, |d|);
    } else if va < top - PGSIZE {
      HitsGuard(top, va, |d|);
    } else {
      forall v: nat | Touches(va, |d|, v) ensures v == top / PGSIZE - 1 {
        InStack(top, va, |d|, v);
      }
      if n < |d| {
        StartsInStack(top, va + n);
      }
      assert d[..|d|] == d;
      CopyInOne(a0, q, top, va, d);
    }
  }

  lemma StartReady(vm: Vm, q: nat, n: nat)
    requires vm.Ok() && NewPage(vm.ptes, vm.dirs, q, n + 1) && n * PGSIZE + 2 * PGSIZE < KERNBASE
    requires Va(q, n) in vm.ptes && !vm.ptes[Va(q, n)].fl.u
    ensures StackReady(vm, q, n * PGSIZE + 2 * PGSIZE) && StackPage(q, n * PGSIZE + 2 * PGSIZE) == Va(q, n + 1)
  {
    hide FramesOk, SlotsOk;
    WriterAlone(vm.S(), Va(q, n + 1));
  }

  lemma WholePages(n: nat)
    ensures NPages(n * PGSIZE) == n && NPages(n * PGSIZE + 2 * PGSIZE) == n + 2
    ensures (n * PGSIZE + 2 * PGSIZE) / PGSIZE == n + 2 && (n * PGSIZE + 2 * PGSIZE) % PGSIZE == 0
  {
  }

  lemma TopAligned(n: nat)
    ensures (n * PGSIZE + 2 * PGSIZE) % 4 == 0
  {
  }

  lemma TwoNewPages(a: map<Va, Leaf>, q: nat, n: nat)
    ensures EagerGrow(a, q, n, n + 2) == a[Va(q, n) := FreshLeaf()][Va(q, n + 1) := FreshLeaf()]
  {
    EagerGrowStart(a, q, n);
    EagerGrowNext(a, q, n, n);
    EagerGrowNext(a, q, n, n + 1);
  }

  /** Where the next string goes, and that it misses the stack page exactly when there is no
      room for it. */
  lemma NextPush(top: nat, sp: nat, len: nat)
    requires top % PGSIZE == 0 && 2 * PGSIZE <= top < KERNBASE && top - PGSIZE <= sp <= top && 0 < len <= KERNBASE
    ensures var va := Down4((sp - len) % WRAP);
      && 0 <= va && (va >= KERNBASE || top - 2 * PGSIZE < va + len <= sp)
      && (top - PGSIZE <= va < KERNBASE <==> top - PGSIZE <= Down4(sp - len))
      && (top - PGSIZE <= va < KERNBASE ==> va == Down4(sp - len) && va + len <= sp)
  {
  }

  /** The guard page and the stack page that exec ends up with. */
  ghost function WithStack(a: map<Va, Leaf>, q: nat, top: nat, b: Page): map<Va, Leaf>
    requires 2 * PGSIZE <= top
  {
    a[Va(q, top / PGSIZE - 2) := Hidden(FreshLeaf())][StackPage(q, top) := Leaf(b, UserFlags())]
  }

  lemma StackStored(a: map<Va, Leaf>, q: nat, top: nat, b: Page, off: nat, d: seq<Byte>)
    requires off + |d| <= PGSIZE && 2 * PGSIZE <= top
    ensures StackPage(q, top) in WithStack(a, q, top, b)
    ensures EagerStore(WithStack(a, q, top, b), StackPage(q, top), off, d) == WithStack(a, q, top, Put(b, off, d))
  {
  }

  /** The loop that pushes the strings. */
  method PushStrings(vm: Vm, q: nat, top: nat, args: seq<seq<Byte>>, ghost a0: map<Va, Leaf>)
    returns (r: Outcome, ok: bool, sp: nat, ptrs: seq<nat>, ghost b: Page)
    requires vm.Ok() && StackReady(vm, q, top) && forall j :: 0 <= j < |args| ==> |args[j]| < KERNBASE
    requires Pages(vm.S()) == WithStack(a0, q, top, Filled(0))
    modifies vm`mem
    ensures vm.Ok() && StackReady(vm, q, top)
    ensures r.Done? ==> (ok <==> |args| <= MAXARG && top - PGSIZE <= SpAfter(top, args))
    ensures r.Done? && ok ==> sp == SpAfter(top, args) && sp <= top && |ptrs| == |args| && Pushed(b, top - PGSIZE, sp, ptrs, args)
    ensures r.Done? && ok ==> Pages(vm.S()) == WithStack(a0, q, top, b)
  {
    hide FramesOk, SlotsOk, FlagsOf, Pages, ProcsOk, SwapPages, EagerStore, StackReady, WithStack, Put, Holds, Pushed, Down4;
    r, ok, sp, ptrs, b := Done, true, top, [], Filled(0);
    ghost var base := top - PGSIZE;
    StackFacts(vm, q, top);
    NothingPushed(b, base, sp, args);
    while |ptrs| < |args|
      invariant vm.Ok() && StackReady(vm, q, top) && r.Done? && ok && |ptrs| <= |args| && |ptrs| <= MAXARG
      invariant sp == SpAfter(top, args[..|ptrs|]) && base <= sp <= top
      invariant Pushed(b, base, sp, ptrs, args)
      invariant Pages(vm.S()) == WithStack(a0, q, top, b)
      decreases |args| - |ptrs|
    {
      SpNext(top, args, |ptrs|);
      SpDown(top, args, |ptrs| + 1);
      if |ptrs| >= MAXARG {
        ok := false;
        return;
      }
      var d := args[|ptrs|] + [0];
      NextPush(top, sp, |d|);
      var va := Down4((sp - |d|) % WRAP);
      r, ok := PushAt(vm, q, top, va, d);
      if r.Halted? || !ok {
        return;
      }
      StackStored(a0, q, top, b, va - base, d);
      PushedMore(b, base, sp, ptrs, args, va, d);
      b := Put(b, va - base, d);
      PushedNext(b, base, sp, va, ptrs, args);
      ptrs, sp := ptrs + [va], va;
    }
    assert args[..|ptrs|] == args;
  }

  lemma StackFacts(vm: Vm, q: nat, top: nat)
    requires StackReady(vm, q, top)
    ensures top % PGSIZE == 0 && 2 * PGSIZE <= top < KERNBASE && StackPage(q, top) == Va(q, top / PGSIZE - 2 + 1)
  {
  }

  lemma NothingPushed(b: Page, base: nat, sp: nat, args: seq<seq<Byte>>)
    ensures Pushed(b, base, sp, [], args)
  {
  }

  lemma PushedNext(b: Page, base: nat, sp: nat, va: nat, ptrs: seq<nat>, args: seq<seq<Byte>>)
    requires Pushed(b, base, sp, ptrs, args) && va <= sp && |ptrs| < |args| && Holds(b, base, va, args[|ptrs|] + [0])
    ensures Pushed(b, base, va, ptrs + [va], args)
  {
  }

  lemma UstackWords(ptrs: seq<nat>, sp: nat, b: Page, base: nat, args: seq<seq<Byte>>)
    requires Pushed(b, base, sp, ptrs, args) && base + PGSIZE <= WRAP && |ptrs| <= MAXARG
    ensures Short(Ustack(ptrs, sp))
  {
  }

  lemma UstackSize(ptrs: seq<nat>, sp: nat)
    requires Short(Ustack(ptrs, sp))
    ensures |Words(Ustack(ptrs, sp))| == 4 * (|ptrs| + 4)
  {
  }

  lemma {:induction false} SpAligned(top: int, args: seq<seq<Byte>>)
    requires top % 4 == 0
    ensures SpAfter(top, args) % 4 == 0
  {
  }

  /** sp - len, in 32 bits. */
  function Below(sp: nat, len: nat): nat { (sp - len) % WRAP }

  lemma VectorPush(top: nat, sp: nat, n: nat)
    requires top % PGSIZE == 0 && 2 * PGSIZE <= top < KERNBASE && top - PGSIZE <= sp <= top && sp % 4 == 0 && 0 < n <= MAXARG + 4
    ensures var va := Below(sp, 4 * n);
      && (va >= KERNBASE || top - 2 * PGSIZE < va + 4 * n <= top)
      && (top - PGSIZE <= va < KERNBASE <==> top - PGSIZE <= sp - 4 * n)
      && (top - PGSIZE <= va < KERNBASE ==> va == sp - 4 * n && va % 4 == 0 && va < top)
  {
  }

  lemma StackStart(a: map<Va, Leaf>, q: nat, n: nat)
    ensures a[Va(q, n) := FreshLeaf()][Va(q, n + 1) := FreshLeaf()][Va(q, n) := Hidden(FreshLeaf())] == WithStack(a, q, n * PGSIZE + 2 * PGSIZE, Filled(0))
  {
  }

  /** The two pages above the program, the lower of them taken from the user. */
  method AllocStack(vm: Vm, q: nat, p: nat, sz0: nat) returns (r: Outcome, ok: bool)
    requires vm.Ok() && p < NPROC && q >= NPROC && sz0 < KERNBASE
    requires forall v: nat :: Va(q, v) in vm.ptes ==> v < NPages(sz0)
    modifies vm
    ensures r.Done? ==> vm.Ok() && SameShape(old(vm.procs), vm.procs)
    ensures r.Done? ==> (ok <==> NPages(sz0) * PGSIZE + 2 * PGSIZE < KERNBASE)
    ensures r.Done? && ok ==> StackReady(vm, q, NPages(sz0) * PGSIZE + 2 * PGSIZE)
    ensures r.Done? && ok ==> Pages(vm.S()) == WithStack(Pages(old(vm.S())), q, NPages(sz0) * PGSIZE + 2 * PGSIZE, Filled(0))
  {
    hide FramesOk, SlotsOk, FlagsOf, Pages, ProcsOk, SwapPages, EagerGrow, StackReady, WithStack, Booked, SameShape;
    ghost var a0, n := Pages(vm.S()), NPages(sz0);
    WholePages(n);
    TwoNewPages(a0, q, n);
    var sz;
    r, sz := vm.Allocuvm(q, NPages(sz0) * PGSIZE, NPages(sz0) * PGSIZE + 2 * PGSIZE, p);
    ok := sz != 0;
    if r.Halted? || !ok {
      return;
    }
    assert NewPage(vm.ptes, vm.dirs, q, n) && NewPage(vm.ptes, vm.dirs, q, n + 1);
    vm.Clearpteu(Va(q, NPages(sz0)));
    StackStart(a0, q, n);
    StartReady(vm, q, n);
  }

  /** The vector of pointers, below the strings. */
  method PushVector(vm: Vm, q: nat, top: nat, sp: nat, ptrs: seq<nat>, ghost args: seq<seq<Byte>>, ghost a0: map<Va, Leaf>, ghost b0: Page)
    returns (r: Outcome, ok: bool, esp: nat, ghost b: Page)
    requires vm.Ok() && StackReady(vm, q, top) && top - PGSIZE <= sp <= top && sp % 4 == 0
    requires |ptrs| == |args| <= MAXARG && Pushed(b0, top - PGSIZE, sp, ptrs, args)
    requires Pages(vm.S()) == WithStack(a0, q, top, b0)
    requires forall j :: 0 <= j < |args| ==> 0 !in args[j]
    modifies vm`mem
    ensures vm.Ok() && StackReady(vm, q, top)
    ensures r.Done? ==> (ok <==> top - PGSIZE <= sp - 4 * (|args| + 4))
    ensures r.Done? && ok ==> top - PGSIZE <= esp < top && esp % 4 == 0
    ensures r.Done? && ok ==> Pages(vm.S()) == WithStack(a0, q, top, b) && Argv(b, top - PGSIZE, esp) == args
  {
    hide FramesOk, SlotsOk, FlagsOf, Pages, ProcsOk, SwapPages, EagerStore, StackReady, WithStack, Put, Holds, Pushed, Words, Ustack, Argv, Down4, Below;
    StackFacts(vm, q, top);
    UstackWords(ptrs, sp, b0, top - PGSIZE, args);
    UstackSize(ptrs, sp);
    var d := Words(Ustack(ptrs, sp));
    VectorPush(top, sp, |args| + 4);
    esp, b := Below(sp, |d|), b0;
    r, ok := PushAt(vm, q, top, esp, d);
    if r.Halted? || !ok {
      return;
    }
    StackStored(a0, q, top, b, esp - (top - PGSIZE), d);
    PushedMore(b, top - PGSIZE, sp, ptrs, args, esp, d);
    b := Put(b, esp - (top - PGSIZE), d);
    ArgvBack(b, top - PGSIZE, sp, ptrs, args, esp);
  }

  /** exec from the allocation of the stack to the last copyout, in the page table q. The
      arguments are C strings; sz0 is the size of the program loaded so far. */
  method ExecStack(vm: Vm, q: nat, p: nat, sz0: nat, args: seq<seq<Byte>>) returns (r: Outcome, ok: bool, sz: nat, esp: nat, ghost b: Page)
    requires vm.Ok() && p < NPROC && q >= NPROC && sz0 < KERNBASE
    requires forall v: nat :: Va(q, v) in vm.ptes ==> v < NPages(sz0)
    requires forall j :: 0 <= j < |args| ==> 0 !in args[j] && |args[j]| < KERNBASE
    modifies vm
    ensures r.Done? ==> vm.Ok() && SameShape(old(vm.procs), vm.procs) && sz == NPages(sz0) * PGSIZE + 2 * PGSIZE
    ensures r.Done? ==> (ok <==> sz < KERNBASE && Fits(sz, args))
    ensures r.Done? && ok ==> Pages(vm.S()) == WithStack(Pages(old(vm.S())), q, sz, b)
    ensures r.Done? && ok ==> sz - PGSIZE <= esp < sz && esp % 4 == 0 && Argv(b, sz - PGSIZE, esp) == args
  {
    hide FramesOk, SlotsOk, FlagsOf, Pages, ProcsOk, SwapPages, StackReady, WithStack, Holds, Pushed, Argv, SpAfter, SameShape, NPages;
    ghost var a0 := Pages(vm.S());
    esp, b := 0, Filled(0);
    sz := NPages(sz0) * PGSIZE + 2 * PGSIZE;
    r, ok := AllocStack(vm, q, p, sz0);
    if r.Halted? || !ok {
      return;
    }
    var sp, ptrs;
    r, ok, sp, ptrs, b := PushStrings(vm, q, sz, args, a0);
    if r.Halted? || !ok {
      return;
    }
    TopAligned(NPages(sz0));
    SpAligned(sz, args);
    r, ok, esp, b := PushVector(vm, q, sz, sp, ptrs, args, a0, b);
  }
}
