/** commit and recovery of log.c on the buffer cache itself, while other processes hold
    some buffers. The blocks of a transaction are pinned in the cache; a commit finds a
    buffer at every step exactly when these and the buffers that others hold leave one. */
module LogCache {
  import opened Blocks
  import opened Bcache

  /** The blocks whose buffers are dirty. */
  ghost function Pinned(bufs: seq<Buf>): set<nat> { set i | 0 <= i < |bufs| && bufs[i].dirty :: bufs[i].blockno }

  /** The buffers in use are those in held, all of them clean. */
  ghost predicate InUse(bufs: seq<Buf>, held: set<nat>) {
    && |bufs| == NBUF && (forall i :: i in held ==> i < NBUF && bufs[i].refcnt > 0 && !bufs[i].dirty)
    && forall i :: 0 <= i < NBUF && i !in held ==> bufs[i].refcnt == 0 && !bufs[i].locked
  }

  ghost predicate Others(bc: Bcache, held: set<nat>)
    reads bc
  {
    bc.Valid() && InUse(bc.bufs, held)
  }

  /** None of the buffers in held is the one of block n. */
  ghost predicate Elsewhere(bufs: seq<Buf>, held: set<nat>, n: nat) {
    forall i :: i in held ==> i < |bufs| && !Holds(bufs[i], n)
  }

  /** What others hold has not been touched. */
  ghost predicate HeldKept(was: seq<Buf>, now: seq<Buf>, held: set<nat>) {
    |was| == |now| && forall i :: i in held ==> i < |was| && now[i] == was[i]
  }

  /** Pinned and held buffers do not fill the cache. */
  ghost predicate Room(bufs: seq<Buf>, held: set<nat>) { |Pinned(bufs)| + |held| < NBUF }

  // ------------------------------------------------------ counting buffers

  ghost function PinnedBelow(bufs: seq<Buf>, n: nat): set<nat>
    requires n <= |bufs|
  {
    set i | 0 <= i < n && bufs[i].dirty :: bufs[i].blockno
  }

  ghost function CleanBelow(bufs: seq<Buf>, n: nat): set<nat>
    requires n <= |bufs|
  {
    set i | 0 <= i < n && !bufs[i].dirty
  }

  /** Each buffer is clean or has a pinned block of its own. */
  lemma {:induction false} PinnedOrClean(bufs: seq<Buf>, flat: seq<Block>, n: nat)
    requires n <= |bufs| && Unique(bufs) && forall i :: 0 <= i < |bufs| ==> BufOk(bufs[i], flat)
    ensures |PinnedBelow(bufs, n)| + |CleanBelow(bufs, n)| == n
  {
    hide Unique, BufOk, PinnedBelow, CleanBelow;
    if n == 0 {
      BelowNone(bufs);
    } else {
      PinnedOrClean(bufs, flat, n - 1);
      BelowNext(bufs, n - 1);
      if bufs[n - 1].dirty {
        PinnedOnce(bufs, flat, n - 1);
      }
    }
  }

  lemma BelowNone(bufs: seq<Buf>)
    ensures PinnedBelow(bufs, 0) == {} && CleanBelow(bufs, 0) == {}
  {
  }

  lemma BelowNext(bufs: seq<Buf>, n: nat)
    requires n < |bufs|
    ensures PinnedBelow(bufs, n + 1) == PinnedBelow(bufs, n) + (if bufs[n].dirty then {bufs[n].blockno} else {})
    ensures CleanBelow(bufs, n + 1) == CleanBelow(bufs, n) + (if bufs[n].dirty then {} else {n}) && n !in CleanBelow(bufs, n)
  {
  }

  lemma PinnedOnce(bufs: seq<Buf>, flat: seq<Block>, n: nat)
    requires n < |bufs| && Unique(bufs) && (forall i :: 0 <= i < |bufs| ==> BufOk(bufs[i], flat)) && bufs[n].dirty
    ensures bufs[n].blockno !in PinnedBelow(bufs, n)
  {
    forall i | 0 <= i < n && bufs[i].dirty ensures bufs[i].blockno != bufs[n].blockno {
      assert BufOk(bufs[i], flat) && BufOk(bufs[n], flat);
    }
  }

  lemma {:induction false} Fewer(a: set<nat>, b: set<nat>)
    requires a <= b
    ensures |a| <= |b|
    decreases |a|
  {
    if a != {} {
      var x :| x in a;
      Fewer(a - {x}, b - {x});
    }
  }

  /** There is a buffer to recycle exactly when pinned and held ones do not fill the cache. */
  lemma RoomExactly(bufs: seq<Buf>, disk: seq<Block>, flat: seq<Block>, held: set<nat>)
    requires Coherent(bufs, disk, flat) && InUse(bufs, held)
    ensures |Pinned(bufs)| + |held| <= NBUF
    ensures Room(bufs, held) <==> exists i :: 0 <= i < NBUF && Recyclable(bufs[i])
    ensures !Room(bufs, held) ==> forall i :: 0 <= i < NBUF ==> i in held || bufs[i].dirty
  {
    PinnedOrClean(bufs, flat, NBUF);
    assert PinnedBelow(bufs, NBUF) == Pinned(bufs);
    var clean := CleanBelow(bufs, NBUF);
    assert held <= clean;
    Fewer(held, clean);
    assert |clean - held| == |clean| - |held|;
    if Room(bufs, held) {
      var i :| i in clean - held;
      assert Recyclable(bufs[i]);
    } else {
      assert clean - held == {};
      forall i | 0 <= i < NBUF ensures i in held || bufs[i].dirty {
        assert i in clean ==> i in held;
      }
    }
  }

  lemma PinnedIsCached(bufs: seq<Buf>, disk: seq<Block>, flat: seq<Block>, h: nat)
    requires Coherent(bufs, disk, flat) && h in Pinned(bufs)
    ensures exists i :: 0 <= i < NBUF && Holds(bufs[i], h)
  {
    var i :| 0 <= i < |bufs| && bufs[i].dirty && bufs[i].blockno == h;
    assert BufOk(bufs[i], flat);
  }

  // ------------------------------------------------------------- two buffers

  /** bread; false is panic("bget: no buffers"). */
  method Bread(bc: Bcache, n: nat) returns (ok: bool, b: nat)
    requires bc.Valid() && n < |bc.disk|
    requires forall i :: 0 <= i < NBUF && Holds(bc.bufs[i], n) ==> !bc.bufs[i].locked
    modifies bc
    ensures bc.Valid() && bc.disk == old(bc.disk) && bc.flat == old(bc.flat) && b < NBUF
    ensures ok <==> exists i :: 0 <= i < NBUF && (Holds(old(bc.bufs)[i], n) || Recyclable(old(bc.bufs)[i]))
    ensures !ok ==> bc.bufs == old(bc.bufs)
    ensures ok ==> bc.bufs == old(bc.bufs)[b := Buf(ROOTDEV, n, true, bc.bufs[b].dirty, bc.bufs[b].refcnt, true, bc.flat[n])]
    ensures ok && Holds(old(bc.bufs)[b], n) ==> bc.bufs[b].refcnt == old(bc.bufs)[b].refcnt + 1 && bc.bufs[b].dirty == old(bc.bufs)[b].dirty
    ensures ok && !Holds(old(bc.bufs)[b], n) ==> Recyclable(old(bc.bufs)[b]) && bc.bufs[b].refcnt == 1 && !bc.bufs[b].dirty
  {
    CoherentSize(bc.bufs, bc.disk, bc.flat);
    SameSize(bc.bufs, bc.disk, bc.flat);
    RecycledUnlocked(bc.bufs, bc.disk, bc.flat);
    hide Coherent, Recency, LruRing.Linked, Recyclable;
    var r := bc.Bget(ROOTDEV, n);
    if r.None? {
      return false, 0;
    }
    b := r.value;
    var locked := bc.Acquire(b);
    assert locked;
    ok := bc.ReadIn(b);
  }

  lemma SameSize(bufs: seq<Buf>, disk: seq<Block>, flat: seq<Block>)
    requires Coherent(bufs, disk, flat)
    ensures |disk| == |flat|
  {
  }

  lemma RecycledUnlocked(bufs: seq<Buf>, disk: seq<Block>, flat: seq<Block>)
    requires Coherent(bufs, disk, flat)
    ensures |bufs| == NBUF && forall i :: 0 <= i < NBUF && bufs[i].refcnt == 0 ==> !bufs[i].locked
  {
    forall i | 0 <= i < NBUF && bufs[i].refcnt == 0 ensures !bufs[i].locked {
      assert BufOk(bufs[i], flat);
    }
  }

  /** What bread of block n leaves of the buffers: one more is in use. */
  ghost predicate Taken(was: seq<Buf>, now: seq<Buf>, b: nat, n: nat, data: Block) {
    && |was| == |now| == NBUF && b < NBUF && (Holds(was[b], n) || !was[b].dirty)
    && now == was[b := Buf(ROOTDEV, n, true, Holds(was[b], n) && was[b].dirty, 1, true, data)]
  }

  lemma TakenPins(was: seq<Buf>, now: seq<Buf>, b: nat, n: nat, data: Block)
    requires Taken(was, now, b, n, data)
    ensures Pinned(now) == Pinned(was)
  {
    forall x | x in Pinned(was) ensures x in Pinned(now) {
      var i :| 0 <= i < |was| && was[i].dirty && was[i].blockno == x;
      assert now[i].dirty && now[i].blockno == x;
    }
    forall x | x in Pinned(now) ensures x in Pinned(was) {
      var i :| 0 <= i < |now| && now[i].dirty && now[i].blockno == x;
      assert was[i].dirty && was[i].blockno == x;
    }
  }

  /** bread where others hold the buffers in held: a pinned block is cached, and for any
      other there is a buffer exactly if there is room. */
  method Take(bc: Bcache, n: nat, ghost held: set<nat>) returns (ok: bool, b: nat)
    requires Others(bc, held) && n < |bc.disk| && Elsewhere(bc.bufs, held, n)
    modifies bc
    ensures bc.Valid() && bc.disk == old(bc.disk) && bc.flat == old(bc.flat) && n < |bc.flat|
    ensures ok <==> n in Pinned(old(bc.bufs)) || Room(old(bc.bufs), held)
    ensures !ok ==> bc.bufs == old(bc.bufs)
    ensures ok ==> Taken(old(bc.bufs), bc.bufs, b, n, bc.flat[n]) && b !in held && HeldKept(old(bc.bufs), bc.bufs, held)
    ensures ok ==> Pinned(bc.bufs) == Pinned(old(bc.bufs))
    ensures ok && n !in Pinned(old(bc.bufs)) ==> !bc.bufs[b].dirty && Others(bc, held + {b})
  {
    hide Pinned, Coherent, Recency, LruRing.Linked;
    SameSize(bc.bufs, bc.disk, bc.flat);
    RoomExactly(bc.bufs, bc.disk, bc.flat, held);
    if n in Pinned(bc.bufs) {
      PinnedIsCached(bc.bufs, bc.disk, bc.flat, n);
    } else {
      CachedClean(bc.bufs, bc.disk, bc.flat, held, n);
    }
    ghost var bufs0 := bc.bufs;
    ok, b := Bread(bc, n);
    if ok {
      TakenPins(bufs0, bc.bufs, b, n, bc.flat[n]);
    }
  }

  /** The buffer of a block that is neither pinned nor held by others can be recycled. */
  lemma CachedClean(bufs: seq<Buf>, disk: seq<Block>, flat: seq<Block>, held: set<nat>, n: nat)
    requires Coherent(bufs, disk, flat) && InUse(bufs, held) && n !in Pinned(bufs) && Elsewhere(bufs, held, n)
    ensures forall i :: 0 <= i < NBUF && Holds(bufs[i], n) ==> Recyclable(bufs[i])
  {
    assert forall i :: 0 <= i < NBUF && bufs[i].dirty ==> bufs[i].blockno in Pinned(bufs);
  }

  lemma TakenElsewhere(was: seq<Buf>, now: seq<Buf>, b: nat, n: nat, data: Block, held: set<nat>, m: nat)
    requires Taken(was, now, b, n, data) && n != m && Elsewhere(was, held, m)
    ensures Elsewhere(now, held + {b}, m)
  {
  }

  /** The two breads of a round: the log block l, then the block h, which is pinned, or for
      which there is a buffer too. */
  method TakeBoth(bc: Bcache, l: nat, h: nat, ghost held: set<nat>) returns (ok: bool, x: nat, y: nat, ghost mid: seq<Buf>)
    requires Others(bc, held) && l != h && l < |bc.disk| && h < |bc.disk| && l !in Pinned(bc.bufs)
    requires Elsewhere(bc.bufs, held, l) && Elsewhere(bc.bufs, held, h)
    requires h in Pinned(bc.bufs) || |Pinned(bc.bufs)| + |held| + 1 < NBUF
    modifies bc
    ensures bc.Valid() && bc.disk == old(bc.disk) && bc.flat == old(bc.flat) && l < |bc.flat| && h < |bc.flat|
    ensures ok <==> Room(old(bc.bufs), held)
    ensures !ok ==> bc.bufs == old(bc.bufs)
    ensures ok ==> x != y && x !in held && y !in held && Taken(old(bc.bufs), mid, x, l, bc.flat[l]) && Taken(mid, bc.bufs, y, h, bc.flat[h])
    ensures ok ==> HeldKept(old(bc.bufs), bc.bufs, held) && Pinned(bc.bufs) == Pinned(old(bc.bufs))
  {
    hide Pinned, Coherent, Recency, LruRing.Linked, InUse;
    SameSize(bc.bufs, bc.disk, bc.flat);
    mid := bc.bufs;
    ok, x := Take(bc, l, held);
    y := 0;
    if !ok {
      return;
    }
    mid := bc.bufs;
    TakenElsewhere(old(bc.bufs), mid, x, l, bc.flat[l], held, h);
    assert |held + {x}| == |held| + 1;
    ok, y := Take(bc, h, held + {x});
  }

  /** Bwrite of the buffer of block n unpins it. */
  lemma WrittenPins(bufs: seq<Buf>, disk: seq<Block>, flat: seq<Block>, b: nat, n: nat)
    requires Coherent(bufs, disk, flat) && b < NBUF && Holds(bufs[b], n)
    ensures Pinned(bufs[b := bufs[b].(dirty := false)]) == Pinned(bufs) - {n}
  {
    var now := bufs[b := bufs[b].(dirty := false)];
    forall z | z in Pinned(bufs) - {n} ensures z in Pinned(now) {
      var i :| 0 <= i < |bufs| && bufs[i].dirty && bufs[i].blockno == z;
      assert now[i].dirty && now[i].blockno == z;
    }
    forall i | 0 <= i < NBUF && now[i].dirty ensures now[i].blockno in Pinned(bufs) - {n} {
      assert BufOk(bufs[i], flat) && bufs[i].dirty;
    }
  }

  lemma SamePins(was: seq<Buf>, now: seq<Buf>)
    requires |was| == |now| && forall i :: 0 <= i < |was| ==> now[i].dirty == was[i].dirty && now[i].blockno == was[i].blockno
    ensures Pinned(now) == Pinned(was)
  {
    forall z | z in Pinned(was) ensures z in Pinned(now) {
      var i :| 0 <= i < |was| && was[i].dirty && was[i].blockno == z;
      assert now[i].dirty && now[i].blockno == z;
    }
    forall z | z in Pinned(now) ensures z in Pinned(was) {
      var i :| 0 <= i < |now| && now[i].dirty && now[i].blockno == z;
      assert was[i].dirty && was[i].blockno == z;
    }
  }

  /** memmove from buffer s to buffer t, bwrite of t, and both are released. */
  method CopyAndRelease(bc: Bcache, s: nat, t: nat, ghost from: nat, ghost to: nat, ghost held: set<nat>)
    requires bc.Valid() && s < NBUF && t < NBUF && s != t && from != to && from < |bc.flat| && to < |bc.flat|
    requires s !in held && t !in held && (forall i :: i in held ==> i < NBUF && bc.bufs[i].refcnt > 0 && !bc.bufs[i].dirty)
    requires bc.bufs[s] == Buf(ROOTDEV, from, true, bc.bufs[s].dirty, 1, true, bc.flat[from])
    requires bc.bufs[t] == Buf(ROOTDEV, to, true, bc.bufs[t].dirty, 1, true, bc.flat[to])
    requires forall i :: 0 <= i < NBUF && i != s && i != t && i !in held ==> bc.bufs[i].refcnt == 0 && !bc.bufs[i].locked
    modifies bc
    ensures Others(bc, held) && HeldKept(old(bc.bufs), bc.bufs, held) && Pinned(bc.bufs) == Pinned(old(bc.bufs)) - {to}
    ensures to < |old(bc.disk)| && bc.disk == old(bc.disk)[to := old(bc.flat)[from]] && bc.flat == old(bc.flat)[to := old(bc.flat)[from]]
  {
    hide Pinned, Coherent, Recency, LruRing.Linked, InUse, HeldKept;
    CoherentSize(bc.bufs, bc.disk, bc.flat);
    SameSize(bc.bufs, bc.disk, bc.flat);
    ghost var bufs0 := bc.bufs;
    bc.Change(t, bc.bufs[s].data);
    SamePins(bufs0, bc.bufs);
    WrittenPins(bc.bufs, bc.disk, bc.flat, t, to);
    bc.Bwrite(t);
    ghost var bufs1 := bc.bufs;
    bc.Brelse(s);
    bc.Brelse(t);
    SamePins(bufs1, bc.bufs);
    Released(bufs0, bc.bufs, s, t, held);
  }

  lemma Released(was: seq<Buf>, now: seq<Buf>, s: nat, t: nat, held: set<nat>)
    requires |was| == |now| == NBUF && s !in held && t !in held && s < NBUF && t < NBUF
    requires forall i :: i in held ==> i < NBUF && was[i].refcnt > 0 && !was[i].dirty
    requires forall i :: 0 <= i < NBUF && i != s && i != t && i !in held ==> was[i].refcnt == 0 && !was[i].locked
    requires forall i :: 0 <= i < NBUF && i != s && i != t ==> now[i] == was[i]
    requires now[s].refcnt == 0 && !now[s].locked && now[t].refcnt == 0 && !now[t].locked
    ensures InUse(now, held) && HeldKept(was, now, held)
  {
  }

  // --------------------------------------------------------- write_log and install

  /** The log blocks start + 1, ..., start + |lh| and the blocks of lh are on the disk, the
      latter all different and none of them in the log. */
  ghost predicate GoodList(lh: seq<nat>, start: nat, size: nat) {
    && start + |lh| < size && |lh| < NBUF
    && (forall i :: 0 <= i < |lh| ==> lh[i] < size && !(start <= lh[i] <= start + |lh|))
    && forall i, j :: 0 <= i < j < |lh| ==> lh[i] != lh[j]
  }

  ghost function SetOf(lh: seq<nat>): set<nat> { set b | b in lh }

  /** The others hold neither log blocks nor blocks of the list. */
  ghost predicate OutOfTheWay(bufs: seq<Buf>, held: set<nat>, start: nat, lh: seq<nat>) {
    (forall n: nat :: start <= n <= start + |lh| ==> Elsewhere(bufs, held, n)) && forall n: nat :: n in lh ==> Elsewhere(bufs, held, n)
  }

  lemma StillOut(was: seq<Buf>, now: seq<Buf>, held: set<nat>, start: nat, lh: seq<nat>)
    requires HeldKept(was, now, held) && OutOfTheWay(was, held, start, lh)
    ensures OutOfTheWay(now, held, start, lh)
  {
    forall n: nat | Elsewhere(was, held, n) ensures Elsewhere(now, held, n) {
    }
  }

  lemma KeptTwice(a: seq<Buf>, b: seq<Buf>, c: seq<Buf>, held: set<nat>)
    requires HeldKept(a, b, held) && HeldKept(b, c, held)
    ensures HeldKept(a, c, held)
  {
  }

  lemma KeptSelf(bufs: seq<Buf>, held: set<nat>)
    requires InUse(bufs, held)
    ensures HeldKept(bufs, bufs, held)
  {
  }

  /** One round of write_log. */
  method WriteLogRound(bc: Bcache, l: nat, h: nat, ghost held: set<nat>) returns (ok: bool)
    requires Others(bc, held) && l != h && l < |bc.disk| && h < |bc.disk| == |bc.flat| && h in Pinned(bc.bufs) && l !in Pinned(bc.bufs)
    requires Elsewhere(bc.bufs, held, l) && Elsewhere(bc.bufs, held, h)
    modifies bc
    ensures Others(bc, held) && HeldKept(old(bc.bufs), bc.bufs, held) && Pinned(bc.bufs) == Pinned(old(bc.bufs))
    ensures ok <==> Room(old(bc.bufs), held)
    ensures !ok ==> bc.disk == old(bc.disk) && bc.flat == old(bc.flat)
    ensures ok ==> bc.disk == old(bc.disk)[l := old(bc.flat)[h]] && bc.flat == old(bc.flat)[l := old(bc.flat)[h]]
  {
    hide Pinned, Coherent, Recency, LruRing.Linked;
    KeptSelf(bc.bufs, held);
    ghost var bufs0 := bc.bufs;
    var x, y;
    ghost var mid;
    ok, x, y, mid := TakeBoth(bc, l, h, held);
    if ok {
      ghost var bufs1 := bc.bufs;
      CopyAndRelease(bc, y, x, h, l, held);
      KeptTwice(bufs0, bufs1, bc.bufs, held);
    }
  }

  /** One round of install_trans. */
  method InstallRound(bc: Bcache, l: nat, h: nat, ghost held: set<nat>) returns (ok: bool)
    requires Others(bc, held) && l != h && l < |bc.disk| && h < |bc.disk| == |bc.flat| && l !in Pinned(bc.bufs)
    requires Elsewhere(bc.bufs, held, l) && Elsewhere(bc.bufs, held, h)
    requires h in Pinned(bc.bufs) || |Pinned(bc.bufs)| + |held| + 1 < NBUF
    modifies bc
    ensures Others(bc, held) && HeldKept(old(bc.bufs), bc.bufs, held)
    ensures ok <==> Room(old(bc.bufs), held)
    ensures ok ==> Pinned(bc.bufs) == Pinned(old(bc.bufs)) - {h}
    ensures ok ==> bc.disk == old(bc.disk)[h := old(bc.flat)[l]] && bc.flat == old(bc.flat)[h := old(bc.flat)[l]]
  {
    hide Pinned, Coherent, Recency, LruRing.Linked;
    KeptSelf(bc.bufs, held);
    ghost var bufs0 := bc.bufs;
    var x, y;
    ghost var mid;
    ok, x, y, mid := TakeBoth(bc, l, h, held);
    if ok {
      ghost var bufs1 := bc.bufs;
      CopyAndRelease(bc, x, y, l, h, held);
      KeptTwice(bufs0, bufs1, bc.bufs, held);
    }
  }

  /** The log blocks have what the blocks of lh had, up to the first tail of them, and no
      other block differs. */
  ghost predicate Logged(was: seq<Block>, now: seq<Block>, flat: seq<Block>, start: nat, lh: seq<nat>, tail: nat)
    requires tail <= |lh| && GoodList(lh, start, |was|) && |now| == |flat| == |was|
  {
    && (forall i :: 0 <= i < tail ==> now[start + 1 + i] == flat[lh[i]])
    && forall b :: 0 <= b < |was| && !(start < b <= start + tail) ==> now[b] == was[b]
  }

  /** The blocks of lh have what the log blocks had. */
  ghost predicate Installed(was: seq<Block>, now: seq<Block>, flat: seq<Block>, start: nat, lh: seq<nat>, tail: nat)
    requires tail <= |lh| && GoodList(lh, start, |was|) && |now| == |flat| == |was|
  {
    && (forall i :: 0 <= i < tail ==> now[lh[i]] == flat[start + 1 + i])
    && forall b :: 0 <= b < |was| && b !in lh[..tail] ==> now[b] == was[b]
  }

  lemma {:induction false} SetOfSize(lh: seq<nat>)
    ensures |SetOf(lh)| <= |lh|
    ensures (forall i, j :: 0 <= i < j < |lh| ==> lh[i] != lh[j]) ==> |SetOf(lh)| == |lh|
    decreases |lh|
  {
    if lh == [] {
      assert SetOf(lh) == {};
    } else {
      var n := |lh| - 1;
      SetOfSize(lh[..n]);
      assert lh == lh[..n] + [lh[n]];
      assert SetOf(lh) == SetOf(lh[..n]) + {lh[n]};
    }
  }

  /** write_log: it finds its buffers exactly if there is room; then the log has the new
      contents, and the blocks themselves are on the disk as before. */
  method WriteLog(bc: Bcache, start: nat, lh: seq<nat>, ghost held: set<nat>) returns (ok: bool)
    requires Others(bc, held) && OutOfTheWay(bc.bufs, held, start, lh)
    requires |bc.flat| == |bc.disk| && GoodList(lh, start, |bc.disk|) && Pinned(bc.bufs) == SetOf(lh)
    modifies bc
    ensures Others(bc, held) && HeldKept(old(bc.bufs), bc.bufs, held) && Pinned(bc.bufs) == SetOf(lh)
    ensures ok <==> lh == [] || |lh| + |held| < NBUF
    ensures !ok ==> bc.disk == old(bc.disk) && bc.flat == old(bc.flat)
    ensures ok ==> |bc.disk| == |bc.flat| == |old(bc.disk)|
    ensures ok ==> Logged(old(bc.disk), bc.disk, old(bc.flat), start, lh, |lh|) && Logged(old(bc.flat), bc.flat, old(bc.flat), start, lh, |lh|)
  {
    hide Pinned, Coherent, Recency, LruRing.Linked, InUse, HeldKept, Elsewhere;
    SetOfSize(lh);
    KeptSelf(bc.bufs, held);
    ghost var bufs0 := bc.bufs;
    ok := true;
    var tail := 0;
    while tail < |lh|
      invariant 0 <= tail <= |lh| && ok && Others(bc, held) && HeldKept(bufs0, bc.bufs, held) && Pinned(bc.bufs) == SetOf(lh)
      invariant tail > 0 ==> |lh| + |held| < NBUF
      invariant tail == 0 ==> bc.disk == old(bc.disk) && bc.flat == old(bc.flat)
      invariant |bc.disk| == |bc.flat| == |old(bc.disk)|
      invariant Logged(old(bc.disk), bc.disk, old(bc.flat), start, lh, tail) && Logged(old(bc.flat), bc.flat, old(bc.flat), start, lh, tail)
    {
      assert lh[tail] in SetOf(lh) && start + tail + 1 !in SetOf(lh);
      ghost var bufs1 := bc.bufs;
      StillOut(bufs0, bufs1, held, start, lh);
      ok := WriteLogRound(bc, start + tail + 1, lh[tail], held);
      KeptTwice(bufs0, bufs1, bc.bufs, held);
      if !ok {
        return;
      }
      tail := tail + 1;
    }
  }

  /** install_trans, in a commit with the blocks of lh pinned and room for a log block, or
      after a crash with nothing pinned and nobody else at the cache. */
  method InstallTrans(bc: Bcache, start: nat, lh: seq<nat>, ghost held: set<nat>) returns (ok: bool)
    requires Others(bc, held) && OutOfTheWay(bc.bufs, held, start, lh)
    requires |bc.flat| == |bc.disk| && GoodList(lh, start, |bc.disk|)
    requires Pinned(bc.bufs) == SetOf(lh) || (Pinned(bc.bufs) == {} && |held| + 1 < NBUF)
    modifies bc
    ensures Others(bc, held) && HeldKept(old(bc.bufs), bc.bufs, held)
    ensures ok <==> lh == [] || Room(old(bc.bufs), held)
    ensures ok ==> Pinned(bc.bufs) == {} && |bc.disk| == |bc.flat| == |old(bc.disk)|
    ensures ok ==> Installed(old(bc.disk), bc.disk, old(bc.flat), start, lh, |lh|) && Installed(old(bc.flat), bc.flat, old(bc.flat), start, lh, |lh|)
  {
    hide Pinned, Coherent, Recency, LruRing.Linked, InUse, HeldKept, Elsewhere, Installed, SetOf, GoodList;
    ghost var pins, bufs0 := Pinned(bc.bufs), bc.bufs;
    KeptSelf(bc.bufs, held);
    RestOf(lh, start, |bc.disk|, 0);
    InstalledNone(bc.disk, bc.flat, start, lh);
    InstalledNone(bc.flat, bc.flat, start, lh);
    ok := true;
    var tail := 0;
    while tail < |lh|
      invariant 0 <= tail <= |lh| && ok && Others(bc, held) && HeldKept(bufs0, bc.bufs, held) && |bc.disk| == |bc.flat| == |old(bc.disk)|
      invariant Pinned(bc.bufs) == if pins == {} then {} else SetOf(lh[tail..])
      invariant tail > 0 ==> Room(bufs0, held)
      invariant Installed(old(bc.disk), bc.disk, old(bc.flat), start, lh, tail) && Installed(old(bc.flat), bc.flat, old(bc.flat), start, lh, tail)
    {
      ghost var bufs1 := bc.bufs;
      StillOut(bufs0, bufs1, held, start, lh);
      RestOf(lh, start, |bc.disk|, tail);
      InstalledNext(old(bc.disk), bc.disk, old(bc.flat), start, lh, tail);
      InstalledNext(old(bc.flat), bc.flat, old(bc.flat), start, lh, tail);
      ok := InstallRound(bc, start + tail + 1, lh[tail], held);
      KeptTwice(bufs0, bufs1, bc.bufs, held);
      if !ok {
        return;
      }
      tail := tail + 1;
    }
    RestOf(lh, start, |bc.disk|, tail);
  }

  /** What is left of the list after tail rounds. */
  lemma RestOf(lh: seq<nat>, start: nat, size: nat, tail: nat)
    requires GoodList(lh, start, size) && tail <= |lh|
    ensures SetOf(lh[0..]) == SetOf(lh) && SetOf(lh[|lh|..]) == {} && |SetOf(lh[tail..])| < NBUF
    ensures tail < |lh| ==> lh[tail] in SetOf(lh[tail..]) && SetOf(lh[tail + 1..]) == SetOf(lh[tail..]) - {lh[tail]}
    ensures tail < |lh| ==> lh[tail] < size && start + tail + 1 < size && start + tail + 1 !in SetOf(lh) && lh[tail] in SetOf(lh)
    ensures start < size && SetOf(lh[tail..]) <= SetOf(lh) && |SetOf(lh[tail..])| == |lh| - tail
  {
    SetOfSize(lh[tail..]);
    assert lh[0..] == lh;
    if tail < |lh| {
      assert lh[tail..] == [lh[tail]] + lh[tail + 1..];
      assert lh[tail] !in lh[tail + 1..];
    }
  }

  lemma InstalledNone(was: seq<Block>, flat: seq<Block>, start: nat, lh: seq<nat>)
    requires GoodList(lh, start, |was|) && |flat| == |was|
    ensures Installed(was, was, flat, start, lh, 0)
  {
  }

  lemma InstalledNext(was: seq<Block>, now: seq<Block>, flat: seq<Block>, start: nat, lh: seq<nat>, tail: nat)
    requires tail < |lh| && GoodList(lh, start, |was|) && |now| == |flat| == |was| && Installed(was, now, flat, start, lh, tail)
    ensures lh[tail] < |now| && start + tail + 1 < |now| && now[start + tail + 1] == was[start + tail + 1]
    ensures Installed(was, now[lh[tail] := flat[start + tail + 1]], flat, start, lh, tail + 1)
  {
    assert lh[..tail + 1] == lh[..tail] + [lh[tail]];
    assert start + tail + 1 !in lh[..tail];
  }

  /** write_head: bread, change, bwrite, brelse of the header block. */
  method PutBlock(bc: Bcache, n: nat, data: Block, ghost held: set<nat>) returns (ok: bool)
    requires Others(bc, held) && n < |bc.disk| == |bc.flat| && n !in Pinned(bc.bufs) && Elsewhere(bc.bufs, held, n)
    modifies bc
    ensures Others(bc, held) && HeldKept(old(bc.bufs), bc.bufs, held) && Pinned(bc.bufs) == Pinned(old(bc.bufs))
    ensures ok <==> Room(old(bc.bufs), held)
    ensures ok ==> bc.disk == old(bc.disk)[n := data] && bc.flat == old(bc.flat)[n := data]
  {
    hide Pinned, Coherent, Recency, LruRing.Linked, HeldKept;
    KeptSelf(bc.bufs, held);
    ghost var bufs0 := bc.bufs;
    var b;
    ok, b := Take(bc, n, held);
    if !ok {
      return;
    }
    ghost var bufs1 := bc.bufs;
    bc.Change(b, data);
    SamePins(bufs1, bc.bufs);
    WrittenPins(bc.bufs, bc.disk, bc.flat, b, n);
    bc.Bwrite(b);
    ghost var bufs2 := bc.bufs;
    bc.Brelse(b);
    SamePins(bufs2, bc.bufs);
    Released(bufs1, bc.bufs, b, b, held);
    KeptTwice(bufs0, bufs1, bc.bufs, held);
  }

  lemma CleanIsFlat(bufs: seq<Buf>, disk: seq<Block>, flat: seq<Block>)
    requires Coherent(bufs, disk, flat) && Pinned(bufs) == {}
    ensures disk == flat
  {
    forall n: nat | n < |disk| ensures !DirtyAt(bufs, n) {
      assert forall i :: 0 <= i < |bufs| && bufs[i].dirty ==> bufs[i].blockno in Pinned(bufs);
    }
  }

  /** commit: every bread finds a buffer if and only if the blocks of the list and the
      buffers that others hold do not fill the cache. Then the disk ends up with what the
      clients wrote and nothing is pinned, and until the header is written no home block has
      changed there. If not, the first bread panics and the disk is as before. */
  method Commit(bc: Bcache, start: nat, lh: seq<nat>, full: Block, empty: Block, ghost held: set<nat>)
    returns (ok: bool, ghost before: seq<Block>)
    requires Others(bc, held) && OutOfTheWay(bc.bufs, held, start, lh)
    requires |bc.flat| == |bc.disk| && GoodList(lh, start, |bc.disk|) && Pinned(bc.bufs) == SetOf(lh)
    modifies bc
    ensures Others(bc, held) && HeldKept(old(bc.bufs), bc.bufs, held) && |bc.disk| == |old(bc.disk)| == |before|
    ensures ok <==> lh == [] || |lh| + |held| < NBUF
    ensures !ok ==> bc.disk == old(bc.disk) && bc.flat == old(bc.flat) && Pinned(bc.bufs) == SetOf(lh)
    ensures ok ==> Pinned(bc.bufs) == {} && bc.disk == bc.flat
    ensures ok ==> forall b :: 0 <= b < |bc.disk| && !(start <= b <= start + |lh|) ==> bc.disk[b] == old(bc.flat)[b] && before[b] == old(bc.disk)[b]
    ensures ok && lh != [] ==> bc.disk[start] == empty && before[start] == old(bc.disk)[start]
    ensures ok && lh != [] ==> forall i :: 0 <= i < |lh| ==> before[start + 1 + i] == old(bc.flat)[lh[i]]
  {
    hide Pinned, Recency, LruRing.Linked, Coherent, InUse, HeldKept, OutOfTheWay;
    SetOfSize(lh);
    KeptSelf(bc.bufs, held);
    ghost var bufs0 := bc.bufs;
    before, ok := bc.disk, true;
    if |lh| == 0 {
      assert SetOf(lh) == {};
      CleanIsFlat(bc.bufs, bc.disk, bc.flat);
      return;
    }
    ok := WriteLog(bc, start, lh, held);
    if !ok {
      return;
    }
    before := bc.disk;
    assert start !in SetOf(lh);
    ghost var flat1;
    ok, flat1 := WriteHomes(bc, start, lh, full, empty, held, bufs0);
    forall b | 0 <= b < |bc.flat| && !(start <= b <= start + |lh|) ensures bc.flat[b] == old(bc.flat)[b] {
      if b in lh {
        var i :| 0 <= i < |lh| && lh[i] == b;
        assert bc.flat[lh[i]] == flat1[start + 1 + i];
      } else {
        assert b !in lh[..|lh|];
      }
    }
    CleanIsFlat(bc.bufs, bc.disk, bc.flat);
  }

  /** The second half of commit: header, home blocks, empty header. */
  method WriteHomes(bc: Bcache, start: nat, lh: seq<nat>, full: Block, empty: Block, ghost held: set<nat>, ghost bufs0: seq<Buf>)
    returns (ok: bool, ghost flat1: seq<Block>)
    requires Others(bc, held) && OutOfTheWay(bufs0, held, start, lh) && HeldKept(bufs0, bc.bufs, held)
    requires |bc.flat| == |bc.disk| && GoodList(lh, start, |bc.disk|) && Pinned(bc.bufs) == SetOf(lh)
    requires start !in SetOf(lh) && |lh| + |held| < NBUF
    modifies bc
    ensures ok && Others(bc, held) && HeldKept(bufs0, bc.bufs, held) && Pinned(bc.bufs) == {}
    ensures |bc.disk| == |bc.flat| == |old(bc.flat)| && flat1 == old(bc.flat)[start := full]
    ensures exists mid: seq<Block> :: |mid| == |flat1| && Installed(flat1, mid, flat1, start, lh, |lh|) && bc.flat == mid[start := empty]
  {
    hide Pinned, Recency, LruRing.Linked, Coherent, InUse, HeldKept, Installed, SetOf, GoodList, Elsewhere;
    SetOfSize(lh);
    RestOf(lh, start, |bc.disk|, 0);
    ghost var bufs1 := bc.bufs;
    StillOut(bufs0, bufs1, held, start, lh);
    ok := PutBlock(bc, start, full, held);
    flat1 := bc.flat;
    ghost var bufs2 := bc.bufs;
    KeptTwice(bufs0, bufs1, bufs2, held);
    StillOut(bufs0, bufs2, held, start, lh);
    ok := InstallTrans(bc, start, lh, held);
    ghost var bufs3, mid := bc.bufs, bc.flat;
    KeptTwice(bufs0, bufs2, bufs3, held);
    StillOut(bufs0, bufs3, held, start, lh);
    ok := PutBlock(bc, start, empty, held);
    KeptTwice(bufs0, bufs3, bc.bufs, held);
    assert |mid| == |flat1| && Installed(flat1, mid, flat1, start, lh, |lh|) && bc.flat == mid[start := empty];
  }

  // ------------------------------------------------- a commit without a buffer

  const LOGSTART: nat := 3202   // where mkfs puts the log

  lemma PinPins(bufs: seq<Buf>, b: nat, n: nat)
    requires b < |bufs| && bufs[b].blockno == n
    ensures Pinned(bufs[b := bufs[b].(dirty := true)]) == Pinned(bufs) + {n}
  {
    var now := bufs[b := bufs[b].(dirty := true)];
    forall z | z in Pinned(bufs) ensures z in Pinned(now) {
      var i :| 0 <= i < |bufs| && bufs[i].dirty && bufs[i].blockno == z;
      assert now[i].dirty && now[i].blockno == z;
    }
    assert now[b].dirty && now[b].blockno == n;
  }

  /** One block changed under log_write. */
  method PinBlock(bc: Bcache, n: nat)
    requires Others(bc, {}) && n < |bc.disk| == |bc.flat| && n !in Pinned(bc.bufs) && |Pinned(bc.bufs)| < NBUF
    modifies bc
    ensures Others(bc, {}) && |bc.disk| == |bc.flat| == |old(bc.disk)| && Pinned(bc.bufs) == Pinned(old(bc.bufs)) + {n}
  {
    hide Pinned, Coherent, Recency, LruRing.Linked;
    var ok, b := Take(bc, n, {});
    PinPins(bc.bufs, b, n);
    bc.Pin(b);
    ghost var bufs1 := bc.bufs;
    bc.Brelse(b);
    SamePins(bufs1, bc.bufs);
  }

  /** The first part of a transaction of p blocks, on a cache that nobody else uses. */
  method PinBlocks(p: nat) returns (bc: Bcache, lh: seq<nat>)
    requires p < NBUF
    ensures fresh(bc) && Others(bc, {}) && |bc.disk| == |bc.flat| == 10000 && Pinned(bc.bufs) == SetOf(lh)
    ensures |lh| == p && forall i :: 0 <= i < |lh| ==> lh[i] == 4000 + i
  {
    hide Pinned, Coherent, Recency, LruRing.Linked, InUse;
    bc := new Bcache(seq(10000, _ => ZeroBlock()));
    NothingPinned(bc.bufs);
    lh := [];
    while |lh| < p
      invariant |lh| <= p && fresh(bc) && Others(bc, {}) && |bc.disk| == |bc.flat| == 10000 && Pinned(bc.bufs) == SetOf(lh)
      invariant forall i :: 0 <= i < |lh| ==> lh[i] == 4000 + i
      decreases p - |lh|
    {
      SetOfSize(lh);
      PinBlock(bc, 4000 + |lh|);
      assert SetOf(lh + [4000 + |lh|]) == SetOf(lh) + {4000 + |lh|};
      lh := lh + [4000 + |lh|];
    }
  }

  /** m readers in the middle of readi, each with a buffer of its own. */
  method HoldBuffers(bc: Bcache, m: nat) returns (ghost held: set<nat>)
    requires Others(bc, {}) && |bc.disk| == |bc.flat| == 10000 && |Pinned(bc.bufs)| + m <= NBUF
    requires forall n :: n in Pinned(bc.bufs) ==> n < 5000
    modifies bc
    ensures Others(bc, held) && |held| == m && |bc.disk| == |bc.flat| == 10000 && Pinned(bc.bufs) == Pinned(old(bc.bufs))
    ensures forall i :: i in held ==> i < |bc.bufs| && 5000 <= bc.bufs[i].blockno
  {
    hide Pinned, Coherent, Recency, LruRing.Linked, InUse;
    held := {};
    var k := 0;
    while k < m
      invariant 0 <= k <= m && Others(bc, held) && |bc.disk| == |bc.flat| == 10000 && Pinned(bc.bufs) == Pinned(old(bc.bufs))
      invariant |held| == k && forall i :: i in held ==> i < |bc.bufs| && 5000 <= bc.bufs[i].blockno < 5000 + k
    {
      var ok, b := Take(bc, 5000 + k, held);
      held := held + {b};
      k := k + 1;
    }
  }

  /** From binit on: p blocks pinned by log_write, and all other buffers held by readers. */
  method FillCache(p: nat) returns (bc: Bcache, lh: seq<nat>, ghost held: set<nat>)
    requires 0 < p < NBUF
    ensures fresh(bc) && Others(bc, held) && OutOfTheWay(bc.bufs, held, LOGSTART, lh)
    ensures |bc.flat| == |bc.disk| && GoodList(lh, LOGSTART, |bc.disk|) && Pinned(bc.bufs) == SetOf(lh)
    ensures |lh| == p && |lh| + |held| == NBUF
  {
    hide Pinned, Coherent, Recency, LruRing.Linked, InUse;
    bc, lh := PinBlocks(p);
    SetOfSize(lh);
    held := HoldBuffers(bc, NBUF - p);
  }

  lemma NothingPinned(bufs: seq<Buf>)
    requires |bufs| == NBUF && forall i :: 0 <= i < NBUF ==> bufs[i].refcnt == 0 && !bufs[i].locked && !bufs[i].dirty
    ensures Pinned(bufs) == {} == SetOf([]) && InUse(bufs, {})
  {
  }

  lemma NoneFree(bufs: seq<Buf>, disk: seq<Block>, flat: seq<Block>, held: set<nat>, start: nat, lh: seq<nat>)
    requires Coherent(bufs, disk, flat) && InUse(bufs, held) && OutOfTheWay(bufs, held, start, lh) && GoodList(lh, start, |disk|)
    requires Pinned(bufs) == SetOf(lh) && |lh| + |held| == NBUF && lh != []
    ensures forall i :: 0 <= i < NBUF ==> !Recyclable(bufs[i]) && !Holds(bufs[i], start + 1)
  {
    SetOfSize(lh);
    RoomExactly(bufs, disk, flat, held);
    assert Elsewhere(bufs, held, start + 1);
    forall i | 0 <= i < NBUF && i !in held ensures bufs[i].blockno in SetOf(lh) {
      assert bufs[i].blockno in Pinned(bufs);
    }
  }

  /** However many blocks the transaction has, there is a run in which its commit meets
      "bget: no buffers": the bget of the first log block returns none. */
  method CommitPanics(p: nat, full: Block, empty: Block) returns (ok: bool, r: Option<nat>)
    requires 0 < p < NBUF
    ensures !ok && r.None?
  {
    hide Pinned, Coherent, Recency, LruRing.Linked, InUse, OutOfTheWay;
    var bc, lh;
    ghost var held, before;
    bc, lh, held := FillCache(p);
    ghost var bufs0 := bc.bufs;
    SetOfSize(lh);
    ok, before := Commit(bc, LOGSTART, lh, full, empty, held);
    StillOut(bufs0, bc.bufs, held, LOGSTART, lh);
    NoneFree(bc.bufs, bc.disk, bc.flat, held, LOGSTART, lh);
    r := bc.Bget(ROOTDEV, LOGSTART + 1);
  }
}
