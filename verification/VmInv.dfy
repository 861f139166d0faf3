/** Every atomic change keeps the invariant, and changes the processes' pages the way
    private copies would change. */
module VmInv {
  import opened Blocks
  import opened VmModel

  lemma RefsSet(ptes: map<Va, Pte>, k: Va, e: Pte, f: nat)
    ensures Refs(ptes[k := e], f) == if e.fl.p && e.frame == f then Refs(ptes, f) + {k} else Refs(ptes, f) - {k}
  {
  }

  lemma RefsDrop(ptes: map<Va, Pte>, k: Va, f: nat)
    ensures Refs(ptes - {k}, f) == Refs(ptes, f) - {k}
  {
  }

  lemma RefsMember(ptes: map<Va, Pte>, f: nat)
    ensures forall l :: l in Refs(ptes, f) <==> l in ptes && ptes[l].fl.p && ptes[l].frame == f
  {
  }

  lemma Singleton(x: Va, r: set<Va>)
    requires x in r && |r| <= 1
    ensures r == {x}
  {
    assert |r - {x}| == |r| - 1;
  }

  /** Entry k's frame is counted for k alone, or for k and others. */
  lemma FrameOf(s: St, k: Va)
    requires Inv(s) && Present(s, k)
    ensures var f := s.ptes[k].frame;
            && f < NFRAMES && f in s.pool && f !in s.kern && f !in s.freelist
            && k in Refs(s.ptes, f) && s.refcnt[f] == |Refs(s.ptes, f)|
            && (s.refcnt[f] <= 1 ==> Refs(s.ptes, f) == {k})
            && (s.ptes[k].fl.w ==> Refs(s.ptes, f) == {k})
  {
    var f := s.ptes[k].frame;
    assert FrameOk(s, f) && k in Refs(s.ptes, f);
    if s.refcnt[f] <= 1 || s.ptes[k].fl.w {
      Singleton(k, Refs(s.ptes, f));
    }
  }

  /** Slots and swapped entries left alone stay right. */
  lemma SlotsSame(s: St, t: St)
    requires Sizes(s) && Sizes(t) && SlotsOk(s) && t.slots == s.slots
    requires forall k :: Swapped(t, k) <==> Swapped(s, k)
    requires forall k :: k in s.ptes && k in t.ptes && Swapped(s, k) ==> t.ptes[k] == s.ptes[k]
    requires forall k :: Present(t, k) ==> !t.ptes[k].fl.sw
    ensures SlotsOk(t)
  {
    forall i | 0 <= i < NSLOTS && !t.slots[i].free
      ensures exists k :: Swapped(t, k) && t.ptes[k].frame == SlotBlock(i)
    {
      var k :| Swapped(s, k) && s.ptes[k].frame == SlotBlock(i);
      assert Swapped(t, k);
    }
  }

  lemma SlotsPresent(s: St)
    requires Sizes(s) && SlotsOk(s)
    ensures forall k :: Present(s, k) ==> !s.ptes[k].fl.sw
  {
  }

  lemma UnmapFrame(s: St, k: Va, f: nat)
    requires Inv(s) && Present(s, k) && s.ptes[k].frame < NFRAMES
    ensures Sizes(Unmap(s, k)) && FrameOk(Unmap(s, k), f)
  {
    hide SlotsOk;
    FrameOf(s, k);
    RefsDrop(s.ptes, k, f);
    assert FrameOk(s, f);
  }

  lemma UnmapPage(s: St, k: Va, l: Va)
    requires Inv(s) && Present(s, k) && s.ptes[k].frame < NFRAMES && l in s.ptes && l != k
    ensures Sizes(Unmap(s, k)) && LeafOf(Unmap(s, k), l) == LeafOf(s, l)
  {
    hide SlotsOk;
    FrameOf(s, k);
    if Present(s, l) {
      FrameOf(s, l);
    }
  }

  lemma UnmapKeeps(s: St, k: Va)
    requires Inv(s) && Present(s, k)
    ensures s.ptes[k].frame < NFRAMES && Inv(Unmap(s, k))
    ensures Pages(Unmap(s, k)) == Pages(s) - {k}
  {
    hide SlotsOk, FrameOk, LeafOf;
    FrameOf(s, k);
    var t := Unmap(s, k);
    forall f: nat
      ensures FrameOk(t, f)
    {
      UnmapFrame(s, k, f);
    }
    assert Present(s, k);
    SlotsPresent(s);
    SlotsSame(s, t);
    forall l | l in t.ptes
      ensures LeafOf(t, l) == LeafOf(s, l)
    {
      UnmapPage(s, k, l);
    }
  }

  /** The head of the free list: nobody maps it, and the rest of the list is without it. */
  lemma HeadFree(s: St)
    requires Inv(s) && s.freelist != []
    ensures var f := s.freelist[0];
            && f < NFRAMES && f in s.pool && f !in s.kern && Refs(s.ptes, f) == {}
            && f !in s.freelist[1..] && Distinct(s.freelist[1..])
            && (forall g :: g in s.freelist <==> g == f || g in s.freelist[1..])
    ensures HasFree(s)
  {
    var f := s.freelist[0];
    assert FrameOk(s, f);
    assert s.freelist == [f] + s.freelist[1..];
  }

  ghost predicate HasFree(s: St) {
    Sizes(s) && s.freelist != [] && s.freelist[0] < NFRAMES
  }

  lemma KernFrame(s: St, f: nat)
    requires Inv(s) && f in s.kern
    ensures f < NFRAMES && f in s.pool && f !in s.freelist && Refs(s.ptes, f) == {}
  {
    assert FrameOk(s, f);
  }

  // ------------------------------------------------------------- allocuvm

  /** kalloc left f with count 1 in the kernel's hands. */
  ghost predicate Owned(s: St, f: nat) {
    Sizes(s) && f in s.kern && f < NFRAMES && s.refcnt[f] == 1
  }

  lemma MapOwnedFrame(s: St, k: Va, g: nat, page: Page, fl: Flags, f: nat)
    requires Inv(s) && Owned(s, g) && k !in s.ptes && fl.p
    ensures Sizes(MapOwned(s, k, g, page, fl)) && FrameOk(MapOwned(s, k, g, page, fl), f)
  {
    hide SlotsOk;
    KernFrame(s, g);
    RefsSet(s.ptes, k, Pte(g, fl), f);
    assert FrameOk(s, f);
    if f == g {
      assert Refs(MapOwned(s, k, g, page, fl).ptes, f) == {k};
    }
  }

  lemma MapOwnedPage(s: St, k: Va, g: nat, page: Page, fl: Flags, l: Va)
    requires Inv(s) && Owned(s, g) && k !in s.ptes && fl.p && (l in s.ptes || l == k)
    ensures Sizes(MapOwned(s, k, g, page, fl))
    ensures LeafOf(MapOwned(s, k, g, page, fl), l) == if l == k then Leaf(page, fl.(a := false)) else LeafOf(s, l)
  {
    hide SlotsOk;
    KernFrame(s, g);
    if Present(s, l) {
      FrameOf(s, l);
    }
  }

  lemma MapOwnedKeeps(s: St, k: Va, g: nat, page: Page, fl: Flags)
    requires Inv(s) && Owned(s, g) && k !in s.ptes && fl.p && !fl.sw
    ensures Inv(MapOwned(s, k, g, page, fl))
    ensures Pages(MapOwned(s, k, g, page, fl)) == Pages(s)[k := Leaf(page, fl.(a := false))]
  {
    hide SlotsOk, FrameOk, LeafOf;
    var t := MapOwned(s, k, g, page, fl);
    forall f: nat
      ensures FrameOk(t, f)
    {
      MapOwnedFrame(s, k, g, page, fl, f);
    }
    SlotsPresent(s);
    SlotsSame(s, t);
    forall l | l in t.ptes
      ensures LeafOf(t, l) == if l == k then Leaf(page, fl.(a := false)) else LeafOf(s, l)
    {
      MapOwnedPage(s, k, g, page, fl, l);
    }
  }

  // ---------------------------------------------------------- copyuvm_cow

  lemma LinkFrame(s: St, k: Va, c: Va, f: nat)
    requires Inv(s) && Present(s, k) && s.ptes[k].frame < NFRAMES && !s.ptes[k].fl.w && c !in s.ptes
    ensures Sizes(Link(s, k, c)) && FrameOk(Link(s, k, c), f)
  {
    hide SlotsOk, Refs;
    RefsMember(s.ptes, f);
    FrameOf(s, k);
    RefsSet(s.ptes, c, s.ptes[k], f);
    assert FrameOk(s, f);
    var r, t := Refs(s.ptes, f), Link(s, k, c);
    if f == s.ptes[k].frame {
      assert forall l :: l in r ==> !s.ptes[l].fl.w;
      assert c !in r && |r + {c}| == |r| + 1;
      assert Refs(t.ptes, f) == r + {c};
    } else {
      assert c !in r && r - {c} == r;
      assert Refs(t.ptes, f) == r;
    }
  }

  /** c becomes a second reader of k's frame. */
  lemma LinkKeeps(s: St, k: Va, c: Va)
    requires Inv(s) && Present(s, k) && !s.ptes[k].fl.w && c !in s.ptes
    ensures s.ptes[k].frame < NFRAMES && Inv(Link(s, k, c))
    ensures Pages(Link(s, k, c)) == Pages(s)[c := LeafOf(s, k)]
  {
    hide SlotsOk, FrameOk;
    FrameOf(s, k);
    var t := Link(s, k, c);
    forall f: nat
      ensures FrameOk(t, f)
    {
      LinkFrame(s, k, c, f);
    }
    SlotsPresent(s);
    SlotsSame(s, t);
  }

  // ------------------------------------------------------------ write fault

  lemma CowOwnedFrame(s: St, k: Va, g: nat, f: nat)
    requires Inv(s) && Owned(s, g) && Present(s, k) && s.ptes[k].frame < NFRAMES
    requires s.refcnt[s.ptes[k].frame] > 1
    ensures Sizes(CowOwned(s, k, g)) && FrameOk(CowOwned(s, k, g), f)
  {
    hide SlotsOk, Refs;
    FrameOf(s, k);
    KernFrame(s, g);
    RefsMember(s.ptes, f);
    RefsSet(s.ptes, k, Pte(g, s.ptes[k].fl.(w := true)), f);
    assert FrameOk(s, f);
    var r, t := Refs(s.ptes, f), CowOwned(s, k, g);
    assert t.ptes == s.ptes[k := Pte(g, s.ptes[k].fl.(w := true))];
    if f == g {
      assert Refs(t.ptes, f) == {k};
    } else if f == s.ptes[k].frame {
      assert Refs(t.ptes, f) == r - {k};
    } else {
      assert Refs(t.ptes, f) == r;
    }
  }

  lemma CowOwnedPage(s: St, k: Va, g: nat, l: Va)
    requires Inv(s) && Owned(s, g) && Present(s, k) && s.ptes[k].frame < NFRAMES && l in s.ptes
    ensures Sizes(CowOwned(s, k, g))
    ensures LeafOf(CowOwned(s, k, g), l) == if l == k then Granted(LeafOf(s, k)) else LeafOf(s, l)
  {
    hide SlotsOk;
    FrameOf(s, k);
    KernFrame(s, g);
    if Present(s, l) {
      FrameOf(s, l);
    }
  }

  /** cow_page gives k a writable frame of its own; nobody's bytes or flags change otherwise. */
  lemma CowOwnedKeeps(s: St, k: Va, g: nat)
    requires Inv(s) && Owned(s, g) && Present(s, k) && s.ptes[k].frame < NFRAMES
    requires s.refcnt[s.ptes[k].frame] > 1
    ensures Inv(CowOwned(s, k, g)) && Pages(CowOwned(s, k, g)) == Pages(s)[k := Granted(LeafOf(s, k))]
  {
    hide SlotsOk, FrameOk, LeafOf;
    FrameOf(s, k);
    var t := CowOwned(s, k, g);
    forall f: nat
      ensures FrameOk(t, f)
    {
      CowOwnedFrame(s, k, g, f);
    }
    SlotsPresent(s);
    SlotsSame(s, t);
    forall l | l in t.ptes
      ensures LeafOf(t, l) == if l == k then Granted(LeafOf(s, k)) else LeafOf(s, l)
    {
      CowOwnedPage(s, k, g, l);
    }
  }

  /** Changing the flags of a present entry, without making it a second writer. */
  lemma SetFlagsKeeps(s: St, k: Va, fl: Flags)
    requires Inv(s) && Present(s, k) && fl.p && !fl.sw && s.ptes[k].frame < NFRAMES
    requires fl.w ==> s.ptes[k].fl.w || s.refcnt[s.ptes[k].frame] <= 1
    ensures Inv(SetFlags(s, k, fl)) && Pages(SetFlags(s, k, fl)) == Pages(s)[k := Leaf(PageOf(s, k), fl.(a := false))]
  {
    hide SlotsOk, FrameOk;
    var t := SetFlags(s, k, fl);
    forall f: nat
      ensures FrameOk(t, f)
    {
      SetFlagsFrame(s, k, fl, f);
    }
    SlotsPresent(s);
    SlotsSame(s, t);
  }

  lemma SetFlagsFrame(s: St, k: Va, fl: Flags, f: nat)
    requires Inv(s) && Present(s, k) && fl.p && s.ptes[k].frame < NFRAMES
    requires fl.w ==> s.ptes[k].fl.w || s.refcnt[s.ptes[k].frame] <= 1
    ensures FrameOk(SetFlags(s, k, fl), f)
  {
    hide SlotsOk, Refs;
    RefsMember(s.ptes, f);
    FrameOf(s, k);
    RefsSet(s.ptes, k, Pte(s.ptes[k].frame, fl), f);
    assert FrameOk(s, f);
    var t := SetFlags(s, k, fl);
    assert t.ptes == s.ptes[k := Pte(s.ptes[k].frame, fl)];
    assert Refs(t.ptes, f) == Refs(s.ptes, f);
    if f == s.ptes[k].frame && |Refs(s.ptes, f)| > 1 {
      assert !fl.w;
    }
  }

  lemma StoreInv(s: St, k: Va, off: nat, d: seq<Byte>)
    requires Inv(s) && Present(s, k) && off + |d| <= PGSIZE
    ensures s.ptes[k].frame < NFRAMES && Inv(Store(s, k, off, d))
  {
    hide SlotsOk, Put;
    FrameOf(s, k);
    var t := Store(s, k, off, d);
    forall f: nat
      ensures FrameOk(t, f)
    {
      assert FrameOk(s, f);
    }
    SlotsPresent(s);
    SlotsSame(s, t);
  }

  lemma StorePage(s: St, k: Va, off: nat, d: seq<Byte>, l: Va)
    requires Inv(s) && Present(s, k) && off + |d| <= PGSIZE && s.ptes[k].frame < NFRAMES && l in s.ptes && l != k
    requires s.refcnt[s.ptes[k].frame] == 1 || Put(PageOf(s, k), off, d) == PageOf(s, k)
    ensures Sizes(Store(s, k, off, d)) && LeafOf(Store(s, k, off, d), l) == LeafOf(s, l)
  {
    hide Put, SlotsOk, Pages;
    FrameOf(s, k);
    if Present(s, l) && s.ptes[l].frame == s.ptes[k].frame {
      assert l in Refs(s.ptes, s.ptes[k].frame);
    }
  }

  lemma StoreAlone(s: St, k: Va, off: nat, d: seq<Byte>)
    requires Inv(s) && Present(s, k) && off + |d| <= PGSIZE && s.ptes[k].frame < NFRAMES
    requires s.refcnt[s.ptes[k].frame] == 1 || Put(PageOf(s, k), off, d) == PageOf(s, k)
    ensures Pages(Store(s, k, off, d)) == Pages(s)[k := LeafOf(s, k).(bytes := Put(PageOf(s, k), off, d))]
  {
    hide Put, SlotsOk, FramesOk;
    var t := Store(s, k, off, d);
    forall l | l in t.ptes && l != k
      ensures LeafOf(t, l) == LeafOf(s, l)
    {
      StorePage(s, k, off, d, l);
    }
    assert LeafOf(t, k) == LeafOf(s, k).(bytes := Put(PageOf(s, k), off, d));
  }

  /** A store that does not ask for write permission, as copyout makes it: the page acts like
      a private one exactly when its frame is not shared or its bytes do not change. */
  lemma UncheckedStore(s: St, k: Va, off: nat, d: seq<Byte>)
    requires Inv(s) && Present(s, k) && off + |d| <= PGSIZE
    ensures s.ptes[k].frame < NFRAMES
    ensures Pages(Store(s, k, off, d)) == Pages(s)[k := LeafOf(s, k).(bytes := Put(PageOf(s, k), off, d))]
       <==> s.refcnt[s.ptes[k].frame] == 1 || Put(PageOf(s, k), off, d) == PageOf(s, k)
  {
    hide Put, SlotsOk;
    FrameOf(s, k);
    var f := s.ptes[k].frame;
    if s.refcnt[f] == 1 || Put(PageOf(s, k), off, d) == PageOf(s, k) {
      StoreAlone(s, k, off, d);
    } else {
      var r := Refs(s.ptes, f);
      assert |r - {k}| >= 1;
      var l :| l in r - {k};
      assert Pages(Store(s, k, off, d))[l].bytes != Pages(s)[l].bytes;
    }
  }

  /** A store through a writable entry is seen by that entry alone. */
  lemma StoreKeeps(s: St, k: Va, off: nat, d: seq<Byte>)
    requires Inv(s) && Present(s, k) && s.ptes[k].fl.w && off + |d| <= PGSIZE
    ensures s.ptes[k].frame < NFRAMES && Inv(Store(s, k, off, d))
    ensures Pages(Store(s, k, off, d)) == Pages(s)[k := LeafOf(s, k).(bytes := Put(PageOf(s, k), off, d))]
  {
    hide SlotsOk, Put, Pages, Store;
    WriterAlone(s, k);
    StoreInv(s, k, off, d);
    UncheckedStore(s, k, off, d);
  }

  lemma WriterAlone(s: St, k: Va)
    requires Inv(s) && Present(s, k) && s.ptes[k].fl.w
    ensures s.ptes[k].frame < NFRAMES && s.refcnt[s.ptes[k].frame] == 1
  {
    hide SlotsOk;
    FrameOf(s, k);
    assert FrameOk(s, s.ptes[k].frame);
    assert k in Refs(s.ptes, s.ptes[k].frame);
  }

  // ------------------------------------------------------------------- swap

  lemma SwapOutFrame(s: St, k: Va, i: nat, f: nat)
    requires Inv(s) && Present(s, k) && s.ptes[k].frame < NFRAMES && i < NSLOTS
    ensures Sizes(SwapOut(s, k, i)) && FrameOk(SwapOut(s, k, i), f)
  {
    hide SlotsOk, FramesOk, KFree;
    UnmapFrame(s, k, f);
    var t, u := SwapOut(s, k, i), Unmap(s, k);
    assert Refs(t.ptes, f) == Refs(u.ptes, f);
  }

  lemma SlotRoundTrip(i: nat)
    ensures SlotOf(SlotBlock(i)) == i
  {
  }

  lemma SwapOutSlots(s: St, k: Va, i: nat)
    requires Inv(s) && Present(s, k) && s.ptes[k].frame < NFRAMES && i < NSLOTS && s.slots[i].free
    ensures Sizes(SwapOut(s, k, i)) && SlotsOk(SwapOut(s, k, i))
  {
    hide FrameOk, FramesOk;
    var t := SwapOut(s, k, i);
    SlotRoundTrip(i);
    forall l | Swapped(s, l)
      ensures SlotOf(s.ptes[l].frame) != i && s.ptes[l].frame != SlotBlock(i)
    {
    }
    forall j | 0 <= j < NSLOTS && !t.slots[j].free
      ensures exists l :: Swapped(t, l) && t.ptes[l].frame == SlotBlock(j)
    {
      if j == i {
        assert Swapped(t, k);
      } else {
        var l :| Swapped(s, l) && s.ptes[l].frame == SlotBlock(j);
        assert Swapped(t, l);
      }
    }
  }

  lemma SwapOutPage(s: St, k: Va, i: nat, l: Va)
    requires Inv(s) && Present(s, k) && s.ptes[k].frame < NFRAMES && i < NSLOTS && s.slots[i].free && l in s.ptes
    ensures Sizes(SwapOut(s, k, i)) && LeafOf(SwapOut(s, k, i), l) == LeafOf(s, l)
    ensures FlagsOf(SwapOut(s, k, i), l) == FlagsOf(s, l)
  {
    FrameOf(s, k);
    SlotRoundTrip(i);
    if Present(s, l) {
      FrameOf(s, l);
    } else {
      assert Swapped(s, l);
    }
  }

  /** Swapping a page out changes no process's bytes and no entry's flags. */
  lemma SwapOutKeeps(s: St, k: Va, i: nat)
    requires Inv(s) && Present(s, k) && i < NSLOTS && s.slots[i].free
    ensures s.ptes[k].frame < NFRAMES && Inv(SwapOut(s, k, i))
    ensures Pages(SwapOut(s, k, i)) == Pages(s)
    ensures forall l :: l in s.ptes ==> FlagsOf(SwapOut(s, k, i), l) == FlagsOf(s, l)
  {
    hide SlotsOk, FrameOk, LeafOf, FlagsOf;
    FrameOf(s, k);
    var t := SwapOut(s, k, i);
    forall f: nat
      ensures FrameOk(t, f)
    {
      SwapOutFrame(s, k, i, f);
    }
    SwapOutSlots(s, k, i);
    forall l | l in s.ptes
      ensures LeafOf(t, l) == LeafOf(s, l) && FlagsOf(t, l) == FlagsOf(s, l)
    {
      SwapOutPage(s, k, i, l);
    }
  }

  /** The store that swap-in makes into the count table stays inside it, and hits no frame
      that is mapped or about to be. */
  ghost predicate Harmless(s: St, k: Va, g: nat)
    requires k in s.ptes
  {
    s.ptes[k].frame < NFRAMES && Refs(s.ptes, s.ptes[k].frame) == {} && g != s.ptes[k].frame
  }

  /** What a swapped entry names. */
  lemma SlotPerm(s: St, k: Va)
    requires Inv(s) && Swapped(s, k)
    ensures SlotOf(s.ptes[k].frame) < NSLOTS && s.slots[SlotOf(s.ptes[k].frame)].perm.p
    ensures FlagsOf(s, k) == s.slots[SlotOf(s.ptes[k].frame)].perm
  {
  }

  lemma SwapInFrame(s: St, k: Va, g: nat, f: nat)
    requires Inv(s) && Owned(s, g) && Swapped(s, k) && Harmless(s, k, g) && SlotOf(s.ptes[k].frame) < NSLOTS
    ensures Sizes(SwapInOwned(s, k, g)) && FrameOk(SwapInOwned(s, k, g), f)
  {
    hide SlotsOk;
    KernFrame(s, g);
    assert s.slots[SlotOf(s.ptes[k].frame)].perm.(p := true).p;
    RefsSet(s.ptes, k, Pte(g, s.slots[SlotOf(s.ptes[k].frame)].perm.(p := true)), f);
    assert FrameOk(s, f);
    if f == g {
      assert Refs(SwapInOwned(s, k, g).ptes, f) == {k};
    } else {
      assert Refs(SwapInOwned(s, k, g).ptes, f) == Refs(s.ptes, f);
    }
  }

  lemma SwapInSlots(s: St, k: Va, g: nat)
    requires Inv(s) && Owned(s, g) && Swapped(s, k) && SlotOf(s.ptes[k].frame) < NSLOTS
    ensures Sizes(SwapInOwned(s, k, g)) && SlotsOk(SwapInOwned(s, k, g))
  {
    hide FrameOk, FramesOk;
    var t := SwapInOwned(s, k, g);
    forall j | 0 <= j < NSLOTS && !t.slots[j].free
      ensures exists l :: Swapped(t, l) && t.ptes[l].frame == SlotBlock(j)
    {
      var l :| Swapped(s, l) && s.ptes[l].frame == SlotBlock(j);
      SlotRoundTrip(j);
      assert Swapped(t, l);
    }
  }

  lemma SwapInPage(s: St, k: Va, g: nat, l: Va)
    requires Inv(s) && Owned(s, g) && Swapped(s, k) && SlotOf(s.ptes[k].frame) < NSLOTS && l in s.ptes
    ensures Sizes(SwapInOwned(s, k, g)) && LeafOf(SwapInOwned(s, k, g), l) == LeafOf(s, l)
    ensures FlagsOf(SwapInOwned(s, k, g), l) == FlagsOf(s, l)
  {
    KernFrame(s, g);
    if Present(s, l) {
      FrameOf(s, l);
    } else {
      assert Swapped(s, l);
    }
  }

  lemma SwapInHarm(s: St, k: Va, g: nat)
    requires Inv(s) && Owned(s, g) && Swapped(s, k) && !Harmless(s, k, g) && SlotOf(s.ptes[k].frame) < NSLOTS
    ensures Sizes(SwapInOwned(s, k, g)) && !Inv(SwapInOwned(s, k, g))
  {
    hide SlotsOk;
    var f, t := s.ptes[k].frame, SwapInOwned(s, k, g);
    if f < NFRAMES {
      KernFrame(s, g);
      RefsSet(s.ptes, k, Pte(g, s.slots[SlotOf(f)].perm.(p := true)), f);
      assert FrameOk(s, f);
      assert !FrameOk(t, f);
    } else {
      assert f in t.past;
    }
  }

  /** Swapping a page in changes no process's bytes and no entry's flags. It keeps the
      counts right, and the memory behind them, exactly when the swap block number is the
      number of a frame that is not mapped: there are two ways to fail. */
  lemma SwapInKeeps(s: St, k: Va, g: nat)
    requires Inv(s) && Owned(s, g) && Swapped(s, k)
    ensures SlotOf(s.ptes[k].frame) < NSLOTS
    ensures Sizes(SwapInOwned(s, k, g)) && Pages(SwapInOwned(s, k, g)) == Pages(s)
    ensures forall l :: l in s.ptes ==> FlagsOf(SwapInOwned(s, k, g), l) == FlagsOf(s, l)
    ensures Inv(SwapInOwned(s, k, g)) <==> Harmless(s, k, g)
  {
    SlotPerm(s, k);
    hide SlotsOk, LeafOf, FlagsOf, FrameOk;
    var t := SwapInOwned(s, k, g);
    SwapInSlots(s, k, g);
    if Harmless(s, k, g) {
      forall f: nat
        ensures FrameOk(t, f)
      {
        SwapInFrame(s, k, g, f);
      }
    } else {
      SwapInHarm(s, k, g);
    }
    forall l | l in s.ptes
      ensures LeafOf(t, l) == LeafOf(s, l) && FlagsOf(t, l) == FlagsOf(s, l)
    {
      SwapInPage(s, k, g, l);
    }
  }

  /** Two processes: the page of one is in slot i, that of the other in frame m. All other
      frames of the pool lo, ..., hi - 1 are the kernel's, among them the one kalloc has
      just handed out. */
  ghost function TwoPages(lo: nat, hi: nat, i: nat, m: nat): St {
    St(Frames(lo, hi), seq(NFRAMES, _ => Filled(0)), seq(NFRAMES, _ => 1), {}, [], 0, Frames(lo, hi) - {m},
       map[Va(0, 0) := Pte(SlotBlock(i), SwappedFlags()), Va(1, 0) := Pte(m, UserFlags())],
       seq(NSLOTS, j => Slot(j != i, UserFlags())), seq(NSLOTS, _ => Filled(0)))
  }

  /** k is swapped out to slot i, and kalloc has handed out g, on a machine whose pool is the
      frames lo, ..., hi - 1. */
  ghost predicate FromSlot(s: St, k: Va, g: nat, lo: nat, hi: nat, i: nat) {
    Inv(s) && s.pool == Frames(lo, hi) && Owned(s, g) && Swapped(s, k) && s.ptes[k].frame == SlotBlock(i)
  }

  lemma TwoPagesOk(lo: nat, hi: nat, i: nat, m: nat, g: nat)
    requires i < NSLOTS && lo <= m < hi <= NFRAMES && lo <= g < hi && g != m
    ensures FromSlot(TwoPages(lo, hi, i, m), Va(0, 0), g, lo, hi, i) && SlotOf(SlotBlock(i)) < NSLOTS
    ensures Va(1, 0) in Refs(TwoPages(lo, hi, i, m).ptes, m)
  {
    var s := TwoPages(lo, hi, i, m);
    SlotRoundTrip(i);
    assert Refs(s.ptes, m) == {Va(1, 0)};
    forall f: nat ensures FrameOk(s, f) {
      assert f != m ==> Refs(s.ptes, f) == {};
    }
    assert Swapped(s, Va(0, 0));
  }

  /** The first way to fail: for every slot whose block number is a frame of the pool there
      is a state where swap-in clears the count of that frame while it is mapped. */
  lemma SwapInClearsCount(lo: nat, hi: nat, i: nat, g: nat)
    requires i < NSLOTS && lo <= SlotBlock(i) < hi <= NFRAMES && lo <= g < hi && g != SlotBlock(i)
    ensures var s := TwoPages(lo, hi, i, SlotBlock(i));
      && FromSlot(s, Va(0, 0), g, lo, hi, i) && SlotOf(s.ptes[Va(0, 0)].frame) < NSLOTS
      && var t := SwapInOwned(s, Va(0, 0), g);
         t.refcnt[SlotBlock(i)] == 0 && Va(1, 0) in Refs(t.ptes, SlotBlock(i)) && !Inv(t)
  {
    hide Inv, FlagsOf, Pages, Owned;
    var s := TwoPages(lo, hi, i, SlotBlock(i));
    TwoPagesOk(lo, hi, i, SlotBlock(i), g);
    SwapInKeeps(s, Va(0, 0), g);
  }

  /** The second: the slots from 128 on, 272 of the 400, lie behind the table altogether. */
  lemma SwapInLeavesTable(lo: nat, hi: nat, i: nat, m: nat, g: nat)
    requires i < NSLOTS && lo <= m < hi <= NFRAMES && lo <= g < hi && g != m
    ensures SlotBlock(i) >= NFRAMES <==> i >= 128
    ensures var s := TwoPages(lo, hi, i, m);
      && FromSlot(s, Va(0, 0), g, lo, hi, i) && SlotOf(s.ptes[Va(0, 0)].frame) < NSLOTS
      && var t := SwapInOwned(s, Va(0, 0), g); i >= 128 ==> t.past == {SlotBlock(i)} && !Inv(t)
  {
    hide Inv, FlagsOf, Pages, Owned, TwoPages, SlotOf, SlotBlock;
    BehindTable(i);
    TwoPagesOk(lo, hi, i, m, g);
    TwoPagesEntry(lo, hi, i, m);
    SwapInKeeps(TwoPages(lo, hi, i, m), Va(0, 0), g);
  }

  lemma BehindTable(i: nat)
    ensures SlotBlock(i) >= NFRAMES <==> i >= 128
  {
  }

  lemma TwoPagesEntry(lo: nat, hi: nat, i: nat, m: nat)
    ensures var s := TwoPages(lo, hi, i, m); s.past == {} && s.ptes[Va(0, 0)].frame == SlotBlock(i) && |s.refcnt| == NFRAMES
  {
  }

  /** From which slots swap-in can do harm, on a machine with the frames lo, ..., hi - 1. */
  lemma HarmfulSlots(lo: nat, hi: nat, i: nat)
    requires i < NSLOTS && lo + 2 <= hi <= NFRAMES
    ensures (exists s: St, k: Va, g: nat :: FromSlot(s, k, g, lo, hi, i) && !Harmless(s, k, g))
       <==> lo <= SlotBlock(i) < hi || SlotBlock(i) >= NFRAMES
  {
    hide SlotsOk, TwoPages, FlagsOf;
    if lo <= SlotBlock(i) < hi {
      var g := if SlotBlock(i) == lo then lo + 1 else lo;
      TwoPagesOk(lo, hi, i, SlotBlock(i), g);
      assert FromSlot(TwoPages(lo, hi, i, SlotBlock(i)), Va(0, 0), g, lo, hi, i) && !Harmless(TwoPages(lo, hi, i, SlotBlock(i)), Va(0, 0), g);
    } else if SlotBlock(i) >= NFRAMES {
      TwoPagesOk(lo, hi, i, lo, lo + 1);
      assert FromSlot(TwoPages(lo, hi, i, lo), Va(0, 0), lo + 1, lo, hi, i) && !Harmless(TwoPages(lo, hi, i, lo), Va(0, 0), lo + 1);
    } else {
      forall s: St, k: Va, g: nat | FromSlot(s, k, g, lo, hi, i) ensures Harmless(s, k, g) {
        assert FrameOk(s, SlotBlock(i)) && FrameOk(s, g);
      }
    }
  }

  const FIRSTFRAME: nat := 281   // PGROUNDUP(V2P(end)) >> PTXSHIFT of the kernel that was built

  /** On that kernel's machine these are the slots from 35 on. */
  lemma KernelSlots(i: nat)
    requires i < NSLOTS
    ensures FIRSTFRAME <= SlotBlock(i) < NFRAMES <==> 35 <= i < 128
    ensures (exists s: St, k: Va, g: nat :: FromSlot(s, k, g, FIRSTFRAME, NFRAMES, i) && !Harmless(s, k, g)) <==> i >= 35
  {
    hide FromSlot, Harmless;
    HarmfulSlots(FIRSTFRAME, NFRAMES, i);
  }

  /** A fault on a page whose entry is zero: it is taken for swapped out to block 0, whose
      slot is far behind the end of the slot table. */
  lemma ZeroEntry()
    ensures SlotOf(0) >= NSLOTS && SlotOf(1) >= NSLOTS
  {
  }

  /** A fault on the kernel's own mapping of frame f, which is present but not the user's:
      for a shared frame cow_page copies it to g and gives up a reference that is none. */
  function KernelFault(s: St, f: nat, g: nat): St
    requires |s.mem| == |s.refcnt| && f < |s.mem| && g < |s.mem|
  {
    if s.refcnt[f] > 1 then s.(mem := s.mem[g := s.mem[f]], refcnt := s.refcnt[f := s.refcnt[f] - 1]) else s
  }

  /** The counts survive such a fault exactly when the frame is not shared. */
  lemma KernelFaultBreaks(s: St, f: nat, g: nat)
    requires Inv(s) && Owned(s, g) && f in s.pool
    ensures f < NFRAMES && Sizes(KernelFault(s, f, g)) && (Inv(KernelFault(s, f, g)) <==> s.refcnt[f] <= 1)
  {
    hide SlotsOk;
    assert FrameOk(s, f);
    if s.refcnt[f] > 1 {
      assert !FrameOk(KernelFault(s, f, g), f);
    }
  }

  /** After it two processes can share a frame that one of them may write: the write fault of
      k takes the branch for a single reference, and l sees the store. */
  lemma KernelFaultShares(s: St, f: nat, g: nat, k: Va, l: Va, off: nat, b: Byte)
    requires Inv(s) && Owned(s, g) && f < NFRAMES && s.refcnt[f] == 2 && k != l && k in Refs(s.ptes, f) && l in Refs(s.ptes, f)
    requires off < PGSIZE && s.mem[f][off] != b
    ensures var t := KernelFault(s, f, g);
      && t.refcnt[f] == 1 && Sizes(Store(SetFlags(t, k, t.ptes[k].fl.(w := true)), k, off, [b]))
      && PageOf(Store(SetFlags(t, k, t.ptes[k].fl.(w := true)), k, off, [b]), l)[off] == b != PageOf(s, l)[off]
  {
    assert FrameOk(s, f);
  }

  // ------------------------------------------------- exit, and kernel frames

  lemma ClearSlotSlots(s: St, k: Va)
    requires Inv(s) && Swapped(s, k)
    ensures SlotOf(s.ptes[k].frame) < NSLOTS && Sizes(ClearSlot(s, k)) && SlotsOk(ClearSlot(s, k))
  {
    hide FramesOk, FrameOk;
    var t := ClearSlot(s, k);
    forall j | 0 <= j < NSLOTS && !t.slots[j].free
      ensures exists l :: Swapped(t, l) && t.ptes[l].frame == SlotBlock(j)
    {
      var l :| Swapped(s, l) && s.ptes[l].frame == SlotBlock(j);
      SlotRoundTrip(j);
      assert Swapped(t, l);
    }
  }

  lemma ClearSlotKeeps(s: St, k: Va)
    requires Inv(s) && Swapped(s, k)
    ensures SlotOf(s.ptes[k].frame) < NSLOTS && Inv(ClearSlot(s, k))
    ensures Pages(ClearSlot(s, k)) == Pages(s) - {k}
  {
    hide SlotsOk, FrameOk, LeafOf;
    ClearSlotSlots(s, k);
    var t := ClearSlot(s, k);
    forall f: nat
      ensures FrameOk(t, f)
    {
      ClearSlotFrame(s, k, f);
    }
    forall l | l in t.ptes
      ensures LeafOf(t, l) == LeafOf(s, l)
    {
      ClearSlotPage(s, k, l);
    }
  }

  lemma ClearSlotFrame(s: St, k: Va, f: nat)
    requires Inv(s) && Swapped(s, k) && SlotOf(s.ptes[k].frame) < NSLOTS
    ensures FrameOk(ClearSlot(s, k), f)
  {
    hide SlotsOk;
    RefsDrop(s.ptes, k, f);
    assert FrameOk(s, f);
    assert Refs(ClearSlot(s, k).ptes, f) == Refs(s.ptes, f);
  }

  lemma ClearSlotPage(s: St, k: Va, l: Va)
    requires Inv(s) && Swapped(s, k) && SlotOf(s.ptes[k].frame) < NSLOTS && l in s.ptes && l != k
    ensures LeafOf(ClearSlot(s, k), l) == LeafOf(s, l)
  {
    hide FramesOk;
  }

  lemma KernAllocKeeps(s: St)
    requires Inv(s) && s.freelist != []
    ensures s.freelist[0] < NFRAMES && Inv(KernAlloc(s)) && Owned(KernAlloc(s), s.freelist[0])
    ensures Pages(KernAlloc(s)) == Pages(s)
  {
    hide SlotsOk;
    HeadFree(s);
    var t := KernAlloc(s);
    forall f: nat
      ensures FrameOk(t, f)
    {
      assert FrameOk(s, f);
    }
    SlotsPresent(s);
    SlotsSame(s, t);
  }

  lemma KernFreeKeeps(s: St, g: nat)
    requires Inv(s) && g in s.kern
    ensures g < NFRAMES && Inv(KernFree(s, g)) && Pages(KernFree(s, g)) == Pages(s)
  {
    hide SlotsOk;
    assert FrameOk(s, g);
    var t := KernFree(s, g);
    forall f: nat
      ensures FrameOk(t, f)
    {
      assert FrameOk(s, f);
    }
    SlotsPresent(s);
    SlotsSame(s, t);
    forall l | l in t.ptes
      ensures LeafOf(t, l) == LeafOf(s, l)
    {
      if Present(s, l) {
        FrameOf(s, l);
      }
    }
  }

  /** What the invariant says of counts, writers, the free list and the slots. */
  lemma InvMeans(s: St)
    requires Inv(s)
    ensures forall k :: Present(s, k) ==> s.ptes[k].frame < NFRAMES
                                          && s.refcnt[s.ptes[k].frame] == |Refs(s.ptes, s.ptes[k].frame)|
    ensures forall k, l :: Present(s, k) && Present(s, l) && s.ptes[k].fl.w && s.ptes[k].frame == s.ptes[l].frame ==> k == l
    ensures forall f :: f in s.pool && f !in s.kern ==> (f in s.freelist <==> Refs(s.ptes, f) == {})
    ensures s.numFree == |s.freelist|
    ensures forall k, l :: Swapped(s, k) && Swapped(s, l) && s.ptes[k].frame == s.ptes[l].frame ==> k == l
  {
    forall k | Present(s, k)
      ensures s.ptes[k].frame < NFRAMES && s.refcnt[s.ptes[k].frame] == |Refs(s.ptes, s.ptes[k].frame)|
      ensures forall l :: Present(s, l) && s.ptes[k].fl.w && s.ptes[k].frame == s.ptes[l].frame ==> k == l
    {
      FrameOf(s, k);
      assert forall l :: Present(s, l) && s.ptes[k].frame == s.ptes[l].frame ==> l in Refs(s.ptes, s.ptes[k].frame);
    }
    forall f | f in s.pool && f !in s.kern
      ensures f in s.freelist <==> Refs(s.ptes, f) == {}
    {
      assert FrameOk(s, f);
    }
  }

  // ------------------------------------------------ what swapping leaves alone

  /** From s to t no process's bytes changed, no entry's flags except the accessed bit, and
      every swapped entry stayed as it was. */
  ghost predicate Undisturbed(s: St, t: St)
    requires Sizes(s) && Sizes(t)
  {
    && Pages(t) == Pages(s)
    && (forall k :: Swapped(s, k) && k in t.ptes ==> t.ptes[k] == s.ptes[k] && FlagsOf(t, k) == FlagsOf(s, k))
  }

  lemma UndisturbedKeys(s: St, t: St)
    requires Sizes(s) && Sizes(t) && Undisturbed(s, t)
    ensures t.ptes.Keys == s.ptes.Keys
  {
    assert Pages(s).Keys == s.ptes.Keys && Pages(t).Keys == t.ptes.Keys;
  }

  lemma UndisturbedTrans(s: St, t: St, u: St)
    requires Sizes(s) && Sizes(t) && Sizes(u) && Undisturbed(s, t) && Undisturbed(t, u)
    ensures Undisturbed(s, u)
  {
    hide FlagsOf, LeafOf;
    UndisturbedKeys(s, t);
    UndisturbedKeys(t, u);
  }

  /** Clearing accessed bits of present entries (flush_table). */
  lemma AgeKeeps(s: St, ptes': map<Va, Pte>)
    requires Inv(s) && ptes'.Keys == s.ptes.Keys
    requires forall k :: k in ptes' ==> (ptes'[k] == s.ptes[k] || (s.ptes[k].fl.p && ptes'[k] == Aged(s.ptes[k])))
    ensures Inv(s.(ptes := ptes')) && Undisturbed(s, s.(ptes := ptes'))
    ensures forall f: nat :: Refs(ptes', f) == Refs(s.ptes, f)
  {
    hide SlotsOk, FramesOk, Undisturbed;
    var t := s.(ptes := ptes');
    forall f: nat ensures Refs(ptes', f) == Refs(s.ptes, f) {
      AgeRefs(s.ptes, ptes', f);
    }
    hide Refs;
    AgeFrames(s, t);
    SlotsPresent(s);
    SlotsSame(s, t);
    AgeUndisturbed(s, t);
  }

  lemma AgeRefs(ptes: map<Va, Pte>, ptes': map<Va, Pte>, f: nat)
    requires ptes'.Keys == ptes.Keys
    requires forall k :: k in ptes' ==> (ptes'[k] == ptes[k] || (ptes[k].fl.p && ptes'[k] == Aged(ptes[k])))
    ensures Refs(ptes', f) == Refs(ptes, f)
  {
  }

  lemma AgeUndisturbed(s: St, t: St)
    requires Sizes(s) && t == s.(ptes := t.ptes) && t.ptes.Keys == s.ptes.Keys
    requires forall k :: k in t.ptes ==> (t.ptes[k] == s.ptes[k] || (s.ptes[k].fl.p && t.ptes[k] == Aged(s.ptes[k])))
    ensures Undisturbed(s, t)
  {
    forall k | k in t.ptes ensures LeafOf(t, k) == LeafOf(s, k) {
    }
  }

  lemma AgeFrames(s: St, t: St)
    requires Sizes(s) && FramesOk(s) && t == s.(ptes := t.ptes) && t.ptes.Keys == s.ptes.Keys
    requires forall f: nat :: Refs(t.ptes, f) == Refs(s.ptes, f)
    requires forall k :: k in t.ptes ==> t.ptes[k].fl.w == s.ptes[k].fl.w
    ensures FramesOk(t)
  {
    forall f: nat
      ensures FrameOk(t, f)
    {
      assert FrameOk(s, f);
    }
  }

  ghost function PresentSet(ptes: map<Va, Pte>): set<Va> {
    set k | k in ptes && ptes[k].fl.p
  }

  /** Each swap-out leaves one present entry less, however many share the frame. */
  lemma SwapOutMeasure(s: St, k: Va, i: nat)
    requires Inv(s) && Present(s, k) && s.ptes[k].frame < NFRAMES && i < NSLOTS && s.slots[i].free
    ensures |PresentSet(SwapOut(s, k, i).ptes)| == |PresentSet(s.ptes)| - 1
    ensures Inv(SwapOut(s, k, i)) && Undisturbed(s, SwapOut(s, k, i))
  {
    hide FramesOk, SlotsOk, Pages, FlagsOf;
    var t := SwapOut(s, k, i);
    SwapOutKeeps(s, k, i);
    assert PresentSet(t.ptes) == PresentSet(s.ptes) - {k};
  }

  lemma KernAllocUndisturbed(s: St)
    requires Inv(s) && s.freelist != []
    ensures s.freelist[0] < NFRAMES && Sizes(KernAlloc(s)) && Undisturbed(s, KernAlloc(s))
    ensures s.freelist[0] !in s.kern
  {
    HeadFree(s);
    KernAllocKeeps(s);
  }

  // ------------------------------------------------------------ conservation

  ghost function FramesOf(ptes: map<Va, Pte>): set<nat> {
    set k | k in ptes && ptes[k].fl.p :: ptes[k].frame
  }

  /** No frame is lost: each is free, the kernel's, or mapped, and only one of these. */
  lemma Conservation(s: St)
    requires Inv(s)
    ensures |s.freelist| + |s.kern| + |FramesOf(s.ptes)| == |s.pool|
  {
    hide SlotsOk, FrameOk, FramesOf, SetOf;
    assert Distinct(s.freelist);
    SetOfMember(s.freelist);
    var free := SetOf(s.freelist);
    forall f: nat ensures f in s.pool <==> f in free || f in s.kern || f in FramesOf(s.ptes)
      ensures !(f in free && f in s.kern) && !(f in free && f in FramesOf(s.ptes)) && !(f in s.kern && f in FramesOf(s.ptes))
    {
      FramePlace(s, f);
    }
    assert s.pool == free + s.kern + FramesOf(s.ptes);
    assert |s.pool| == |free + s.kern| + |FramesOf(s.ptes)|;
    assert |free + s.kern| == |free| + |s.kern|;
    SizeOfDistinct(s.freelist);
  }

  lemma FramePlace(s: St, f: nat)
    requires Inv(s)
    ensures f in FramesOf(s.ptes) <==> Refs(s.ptes, f) != {}
    ensures f in s.pool <==> f in s.freelist || f in s.kern || f in FramesOf(s.ptes)
    ensures !(f in s.freelist && f in s.kern) && !(f in s.freelist && f in FramesOf(s.ptes)) && !(f in s.kern && f in FramesOf(s.ptes))
  {
    hide SlotsOk;
    assert FrameOk(s, f);
    if f in FramesOf(s.ptes) {
      var k :| k in s.ptes && s.ptes[k].fl.p && s.ptes[k].frame == f;
      assert k in Refs(s.ptes, f);
    }
    assert forall k :: k in Refs(s.ptes, f) ==> f in FramesOf(s.ptes);
  }

  ghost function SetOf(xs: seq<nat>): set<nat> { set x | x in xs }

  lemma SetOfMember(xs: seq<nat>)
    ensures forall x :: x in SetOf(xs) <==> x in xs
  {
  }

  lemma {:induction false} SizeOfDistinct(xs: seq<nat>)
    requires Distinct(xs)
    ensures |SetOf(xs)| == |xs|
  {
    if xs == [] {
      assert SetOf(xs) == {};
    } else {
      var rest := xs[1..];
      SizeOfDistinct(rest);
      assert xs == [xs[0]] + rest;
      assert SetOf(xs) == {xs[0]} + SetOf(rest) && xs[0] !in SetOf(rest);
    }
  }

  // --------------------------------------------------------- kernel frames

  /** From s to t the kernel kept its frames, with their counts. */
  ghost predicate KernKept(s: St, t: St)
    requires Sizes(s) && Sizes(t)
  {
    s.kern <= t.kern && forall g: nat :: g in s.kern && g < NFRAMES ==> t.refcnt[g] == s.refcnt[g]
  }

  lemma KernKeptTrans(s: St, t: St, u: St)
    requires Sizes(s) && Sizes(t) && Sizes(u) && KernKept(s, t) && KernKept(t, u)
    ensures KernKept(s, u)
  {
  }

  lemma OwnedKept(s: St, t: St, g: nat)
    requires Sizes(s) && Sizes(t) && KernKept(s, t) && Owned(s, g)
    ensures Owned(t, g)
  {
  }

  lemma SwapOutKern(s: St, k: Va, i: nat)
    requires Inv(s) && Present(s, k) && s.ptes[k].frame < NFRAMES && i < NSLOTS
    ensures Sizes(SwapOut(s, k, i)) && KernKept(s, SwapOut(s, k, i))
  {
    FrameOf(s, k);
  }

  lemma KernAllocKern(s: St)
    requires Inv(s) && HasFree(s)
    ensures Sizes(KernAlloc(s)) && KernKept(s, KernAlloc(s))
  {
    HeadFree(s);
  }
}
