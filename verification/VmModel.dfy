/** Physical frames, page-table entries and swap slots as one value, and the atomic
    changes that vm.c, kalloc.c and pageswap.c make to it. Every entry (process and
    virtual page number) has one logical page, wherever its bytes are. */
module VmModel {
  import opened Blocks

  const PGSIZE: nat := 4096
  const NFRAMES: nat := 1024      // PHYSTOP >> PTXSHIFT
  const BPPAGE: nat := PGSIZE / BSIZE
  const SWAPBASE: nat := 2
  const NSLOTS: nat := 400        // SWAPBLOCKS / BPPAGE

  type Page = p: seq<Byte> | |p| == PGSIZE witness seq(PGSIZE, _ => 0)

  /** The page with d at off. */
  function Put(p: Page, off: nat, d: seq<Byte>): Page
    requires off + |d| <= PGSIZE
  {
    p[..off] + d + p[off + |d|..]
  }

  function Filled(b: Byte): Page { seq(PGSIZE, _ => b) }

  /** The low twelve bits of an entry; other holds the bits this code never looks at. */
  datatype Flags = Flags(p: bool, w: bool, u: bool, sw: bool, a: bool, other: nat)

  /** frame is the physical frame of a present entry, the swap block of a swapped one. */
  datatype Pte = Pte(frame: nat, fl: Flags)
  datatype Va = Va(proc: nat, vpn: nat)
  datatype Slot = Slot(free: bool, perm: Flags)

  /** A page as its process sees it: the bytes, and the flags apart from the accessed bit,
      which flush_table clears and every use sets. */
  datatype Leaf = Leaf(bytes: Page, perm: Flags)

  datatype St = St(
    pool: set<nat>,               // the frames that kinit handed to the allocator
    mem: seq<Page>,
    refcnt: seq<int>,             // page_to_refcnt
    past: set<nat>,               // indices behind its end that were stored to
    freelist: seq<nat>,
    numFree: int,
    kern: set<nat>,               // frames in use as page tables and kernel stacks
    ptes: map<Va, Pte>,           // the user entries that are not zero
    slots: seq<Slot>,
    swap: seq<Page>)              // what read_page_from_swap gives for each slot

  /** The entry with its accessed bit cleared. */
  function Aged(e: Pte): Pte { e.(fl := e.fl.(a := false)) }

  /** The frames lo, ..., hi - 1. */
  ghost function Frames(lo: nat, hi: nat): (r: set<nat>)
    ensures forall f: nat :: f in r <==> lo <= f < hi
    decreases hi
  {
    if lo >= hi then {} else Frames(lo, hi - 1) + {hi - 1}
  }

  // ------------------------------------------------------------- invariant

  ghost predicate Present(s: St, k: Va) { k in s.ptes && s.ptes[k].fl.p }
  ghost predicate Swapped(s: St, k: Va) { k in s.ptes && !s.ptes[k].fl.p }

  /** The present entries that map frame f. */
  ghost function Refs(ptes: map<Va, Pte>, f: nat): set<Va> {
    set k | k in ptes && ptes[k].fl.p && ptes[k].frame == f
  }

  ghost predicate Distinct(xs: seq<nat>) {
    forall i, j :: 0 <= i < j < |xs| ==> xs[i] != xs[j]
  }

  /** (blockno - SWAPBASE) / BPPAGE, in 32 bits. */
  function SlotOf(block: nat): nat {
    (if block < SWAPBASE then 0x1_0000_0000 + block - SWAPBASE else block - SWAPBASE) / BPPAGE
  }

  function SlotBlock(i: nat): nat { SWAPBASE + i * BPPAGE }

  ghost predicate Sizes(s: St) {
    && |s.mem| == NFRAMES && |s.refcnt| == NFRAMES && |s.slots| == NSLOTS && |s.swap| == NSLOTS
    && (forall f :: f in s.pool ==> f < NFRAMES)
  }

  /** The state of one frame: free, the kernel's, or mapped by exactly as many present
      entries as its count says, and by only one if that one may write. */
  ghost predicate FrameOk(s: St, f: nat)
    requires Sizes(s)
  {
    var r := Refs(s.ptes, f);
    if f !in s.pool then f !in s.freelist && f !in s.kern && r == {}
    else if f in s.freelist || f in s.kern then
      !(f in s.freelist && f in s.kern) && r == {} && s.refcnt[f] <= 1
    else r != {} && s.refcnt[f] == |r| && (|r| > 1 ==> forall k :: k in r ==> !s.ptes[k].fl.w)
  }

  ghost predicate FramesOk(s: St)
    requires Sizes(s)
  {
    && s.numFree == |s.freelist| && Distinct(s.freelist)
    && forall f: nat :: FrameOk(s, f)
  }

  /** The taken slots are exactly those named by swapped entries, each by one entry. */
  ghost predicate SlotsOk(s: St)
    requires Sizes(s)
  {
    && (forall k :: Present(s, k) ==> !s.ptes[k].fl.sw)
    && (forall k :: Swapped(s, k) ==>
          && s.ptes[k].fl.sw && s.ptes[k].frame == SlotBlock(SlotOf(s.ptes[k].frame))
          && SlotOf(s.ptes[k].frame) < NSLOTS
          && !s.slots[SlotOf(s.ptes[k].frame)].free && s.slots[SlotOf(s.ptes[k].frame)].perm.p
          && !s.slots[SlotOf(s.ptes[k].frame)].perm.sw)
    && (forall k, l :: Swapped(s, k) && Swapped(s, l) && s.ptes[k].frame == s.ptes[l].frame ==> k == l)
    && (forall i :: 0 <= i < NSLOTS && !s.slots[i].free ==> exists k :: Swapped(s, k) && s.ptes[k].frame == SlotBlock(i))
  }

  ghost predicate Inv(s: St) {
    Sizes(s) && FramesOk(s) && SlotsOk(s) && s.past == {}
  }

  // ----------------------------------------------- what the processes see

  /** The bytes of entry k, in memory or in its swap slot. */
  ghost function PageOf(s: St, k: Va): Page
    requires Sizes(s) && k in s.ptes
  {
    var e := s.ptes[k];
    if e.fl.p then (if e.frame < NFRAMES then s.mem[e.frame] else Filled(0))
    else (if SlotOf(e.frame) < NSLOTS then s.swap[SlotOf(e.frame)] else Filled(0))
  }

  /** The flags of entry k, in the entry or kept in its swap slot. */
  ghost function FlagsOf(s: St, k: Va): Flags
    requires Sizes(s) && k in s.ptes
  {
    var e := s.ptes[k];
    if e.fl.p || SlotOf(e.frame) >= NSLOTS then e.fl else s.slots[SlotOf(e.frame)].perm
  }

  ghost function LeafOf(s: St, k: Va): Leaf
    requires Sizes(s) && k in s.ptes
  {
    Leaf(PageOf(s, k), FlagsOf(s, k).(a := false))
  }

  ghost function Pages(s: St): map<Va, Leaf>
    requires Sizes(s)
  {
    map k | k in s.ptes :: LeafOf(s, k)
  }

  /** The page with write permission, and without it. */
  function Granted(x: Leaf): Leaf { x.(perm := x.perm.(w := true)) }
  function Shared(x: Leaf): Leaf { x.(perm := x.perm.(w := false)) }

  /** What mappages is given in allocuvm: PTE_W | PTE_U, and PTE_P. */
  function UserFlags(): Flags { Flags(true, true, true, false, false, 0) }

  // ------------------------------------------------------- atomic changes

  /** kfree: gives up one reference, and frees the frame with the last one. */
  function KFree(s: St, f: nat): St
    requires |s.mem| == |s.refcnt| && f < |s.mem|
  {
    if s.refcnt[f] > 1 then s.(refcnt := s.refcnt[f := s.refcnt[f] - 1])
    else s.(mem := s.mem[f := Filled(1)], freelist := [f] + s.freelist, numFree := s.numFree + 1)
  }

  /** kalloc with a free list that is not empty: the head, with count 1. */
  function KAlloc(s: St): St
    requires s.freelist != [] && s.freelist[0] < |s.refcnt|
  {
    s.(freelist := s.freelist[1..], numFree := s.numFree - 1, refcnt := s.refcnt[s.freelist[0] := 1])
  }

  /** kalloc hands the frame to the kernel, which then uses it or maps it. */
  function KernAlloc(s: St): St
    requires s.freelist != [] && s.freelist[0] < |s.refcnt|
  {
    KAlloc(s).(kern := s.kern + {s.freelist[0]})
  }

  function KernFree(s: St, f: nat): St
    requires |s.mem| == |s.refcnt| && f < |s.mem|
  {
    KFree(s, f).(kern := s.kern - {f})
  }

  /** The kernel's frame f, filled with page, becomes entry k (allocuvm and mappages). */
  function MapOwned(s: St, k: Va, f: nat, page: Page, fl: Flags): St
    requires f < |s.mem|
  {
    s.(mem := s.mem[f := page], kern := s.kern - {f}, ptes := s.ptes[k := Pte(f, fl)])
  }

  /** deallocuvm on a present entry. */
  function Unmap(s: St, k: Va): St
    requires |s.mem| == |s.refcnt| && k in s.ptes && s.ptes[k].frame < |s.mem|
  {
    KFree(s, s.ptes[k].frame).(ptes := s.ptes - {k})
  }

  function SetFlags(s: St, k: Va, fl: Flags): St
    requires k in s.ptes
  {
    s.(ptes := s.ptes[k := s.ptes[k].(fl := fl)])
  }

  /** c becomes a second reference to the frame of k. */
  function Link(s: St, k: Va, c: Va): St
    requires k in s.ptes && s.ptes[k].frame < |s.refcnt|
  {
    var f := s.ptes[k].frame;
    s.(ptes := s.ptes[c := s.ptes[k]], refcnt := s.refcnt[f := s.refcnt[f] + 1])
  }

  /** cow_page after its kalloc: k gets a writable copy in the kernel's frame f and gives
      up one reference to its old frame. */
  function CowOwned(s: St, k: Va, f: nat): St
    requires |s.mem| == |s.refcnt| && f < |s.mem| && k in s.ptes && s.ptes[k].frame < |s.mem|
  {
    var e := s.ptes[k];
    s.(mem := s.mem[f := s.mem[e.frame]],
       refcnt := s.refcnt[e.frame := s.refcnt[e.frame] - 1],
       kern := s.kern - {f},
       ptes := s.ptes[k := Pte(f, e.fl.(w := true))])
  }

  /** A store of the bytes d to the frame of entry k. */
  function Store(s: St, k: Va, off: nat, d: seq<Byte>): St
    requires k in s.ptes && s.ptes[k].frame < |s.mem| && off + |d| <= PGSIZE
  {
    var f := s.ptes[k].frame;
    s.(mem := s.mem[f := Put(s.mem[f], off, d)])
  }

  /** The flags that swap_out leaves in the entry: the old ones are lost, PTE_SW is set. */
  function SwappedFlags(): Flags { Flags(false, false, false, true, false, 0) }

  /** swap_out of entry k into the free slot i. */
  function SwapOut(s: St, k: Va, i: nat): St
    requires |s.mem| == |s.refcnt| && k in s.ptes && s.ptes[k].frame < |s.mem|
    requires i < |s.slots| == |s.swap|
  {
    var e := s.ptes[k];
    KFree(s, e.frame).(
      slots := s.slots[i := Slot(false, e.fl)],
      swap := s.swap[i := s.mem[e.frame]],
      ptes := s.ptes[k := Pte(SlotBlock(i), SwappedFlags())])
  }

  /** The not-present branch of handle_page_fault after its kalloc. It also stores
      refcnt_to_disk, which is always 0, at the index of page_to_refcnt that happens to be
      the entry's swap block number: the count of the frame with that number, or, for most
      slots, a place behind the table. */
  function SwapInOwned(s: St, k: Va, f: nat): St
    requires |s.mem| == |s.refcnt| && f < |s.mem| && k in s.ptes
    requires SlotOf(s.ptes[k].frame) < |s.slots| == |s.swap|
  {
    var e := s.ptes[k];
    var i := SlotOf(e.frame);
    s.(mem := s.mem[f := s.swap[i]],
       refcnt := if e.frame < |s.refcnt| then s.refcnt[e.frame := 0] else s.refcnt,
       past := if e.frame < |s.refcnt| then s.past else s.past + {e.frame},
       kern := s.kern - {f},
       ptes := s.ptes[k := Pte(f, s.slots[i].perm.(p := true))],
       slots := s.slots[i := s.slots[i].(free := true)])
  }

  /** clear_zombie on a swapped entry. */
  function ClearSlot(s: St, k: Va): St
    requires k in s.ptes && SlotOf(s.ptes[k].frame) < |s.slots|
  {
    var i := SlotOf(s.ptes[k].frame);
    s.(slots := s.slots[i := s.slots[i].(free := true)], ptes := s.ptes - {k})
  }
}
