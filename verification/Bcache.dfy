/** bio.c: the buffer cache. Any number of clients get, lock, change, write and release
    buffers; each method is one step under bcache.lock or under the buffer's own lock, so
    every sequence of calls is an interleaving. flat is the disk the clients see: what
    they last wrote with bwrite or log_write. */
module Bcache {
  import opened Blocks
  import opened LruRing

  const NBUF: nat := 30
  const ROOTDEV: nat := 1

  datatype Option<T> = None | Some(value: T)

  datatype Buf = Buf(dev: nat, blockno: nat, valid: bool, dirty: bool, refcnt: nat, locked: bool, data: Block)

  /** b holds block number n of the disk. */
  ghost predicate Holds(b: Buf, n: nat) { b.dev == ROOTDEV && b.blockno == n }

  ghost predicate DirtyAt(bufs: seq<Buf>, n: nat) {
    exists i :: 0 <= i < |bufs| && Holds(bufs[i], n) && bufs[i].dirty
  }

  /** At most one buffer per block of a device other than 0. */
  ghost predicate Unique(bufs: seq<Buf>) {
    forall i, j :: 0 <= i < j < |bufs| && bufs[i].dev != 0 ==> !(bufs[i].dev == bufs[j].dev && bufs[i].blockno == bufs[j].blockno)
  }

  /** A buffer nobody is changing shows the flat disk; only dirty ones are behind on disk. */
  ghost predicate BufOk(b: Buf, flat: seq<Block>) {
    && (b.locked ==> b.refcnt > 0)
    && (b.dirty ==> b.valid)
    && (b.valid ==> b.dev == ROOTDEV && b.blockno < |flat|)
    && (b.valid && !b.locked ==> b.data == flat[b.blockno])
  }

  ghost predicate Coherent(bufs: seq<Buf>, disk: seq<Block>, flat: seq<Block>) {
    && |bufs| == NBUF && |disk| == |flat| && Unique(bufs)
    && (forall i :: 0 <= i < NBUF ==> BufOk(bufs[i], flat))
    && (forall n: nat :: n < |disk| && !DirtyAt(bufs, n) ==> disk[n] == flat[n])
  }

  /** ring holds every buffer, most recently released first. */
  ghost predicate Recency(ring: seq<nat>, stamp: seq<nat>, clock: nat) {
    && |stamp| == NBUF && (forall i :: 0 <= i < NBUF ==> i in ring && stamp[i] < clock)
    && (forall a, b :: 0 <= a < b < |ring| && ring[a] < NBUF && ring[b] < NBUF ==> stamp[ring[a]] > stamp[ring[b]])
  }

  predicate Recyclable(b: Buf) { b.refcnt == 0 && !b.dirty }

  class Bcache {
    var bufs: seq<Buf>
    var links: seq<Node>           // prev and next of each buffer, and of bcache.head
    var disk: seq<Block>
    ghost var flat: seq<Block>
    ghost var ring: seq<nat>
    ghost var stamp: seq<nat>      // when each buffer was last released
    ghost var clock: nat

    ghost predicate Valid()
      reads this
    {
      Linked(links, ring, NBUF) && Recency(ring, stamp, clock) && Coherent(bufs, disk, flat)
    }

    /** binit: every buffer on the ring, none of them holding anything. */
    constructor (disk: seq<Block>)
      ensures Valid() && this.disk == disk && flat == disk
      ensures |bufs| == NBUF && forall i :: 0 <= i < NBUF ==> bufs[i].refcnt == 0 && !bufs[i].locked && !bufs[i].dirty
    {
      this.disk := disk;
      flat := disk;
      var empty := Buf(0, 0, false, false, 0, false, ZeroBlock());
      bufs := seq(NBUF, _ => empty);
      links := seq(NBUF + 1, _ => Node(NBUF, NBUF));
      stamp := seq(NBUF, i => i);
      ring := [];
      clock := NBUF;
      new;
      var b := 0;
      while b < NBUF
        invariant 0 <= b <= NBUF && Linked(links, ring, NBUF) && |ring| == b
        invariant forall i :: 0 <= i < b ==> ring[i] == b - 1 - i
        invariant bufs == seq(NBUF, _ => empty) && stamp == seq(NBUF, i => i) && clock == NBUF
        invariant this.disk == disk && flat == disk
      {
        PushFrontKeeps(links, ring, NBUF, b);
        links := PushFront(links, NBUF, b);
        ring := [b] + ring;
        b := b + 1;
      }
      forall i | 0 <= i < NBUF
        ensures i in ring
      {
        assert ring[NBUF - 1 - i] == i;
      }
    }

    /** bget up to acquiresleep: the buffer of the block if it is cached, else the least
        recently released of the buffers that are neither referenced nor dirty. */
    method Bget(dev: nat, blockno: nat) returns (r: Option<nat>)
      requires Valid()
      modifies this`bufs
      ensures Valid()
      ensures r.None? <==> (forall i :: 0 <= i < NBUF ==> !(old(bufs)[i].dev == dev && old(bufs)[i].blockno == blockno))
                           && (forall i :: 0 <= i < NBUF ==> !Recyclable(old(bufs)[i]))
      ensures r.None? ==> bufs == old(bufs)
      ensures r.Some? ==> r.value < NBUF && bufs[r.value].dev == dev && bufs[r.value].blockno == blockno && bufs[r.value].refcnt > 0
      ensures r.Some? ==> bufs == old(bufs)[r.value := bufs[r.value]]
      ensures r.Some? && old(bufs)[r.value].dev == dev && old(bufs)[r.value].blockno == blockno ==>
                bufs[r.value] == old(bufs)[r.value].(refcnt := old(bufs)[r.value].refcnt + 1)
      ensures r.Some? && !(old(bufs)[r.value].dev == dev && old(bufs)[r.value].blockno == blockno) ==>
                && Recyclable(old(bufs)[r.value])
                && bufs[r.value] == old(bufs)[r.value].(dev := dev, blockno := blockno, valid := false, dirty := false, refcnt := 1)
                && (forall j :: 0 <= j < NBUF && Recyclable(old(bufs)[j]) ==> stamp[r.value] <= stamp[j])
    {
      var b := FindCached(dev, blockno);
      if b < NBUF {
        OneBuf(bufs, disk, flat, b, bufs[b].(refcnt := bufs[b].refcnt + 1));
        bufs := bufs[b := bufs[b].(refcnt := bufs[b].refcnt + 1)];
        return Some(b);
      }
      b := FindOldest();
      if b < NBUF {
        RecycleKeeps(bufs, disk, flat, b, dev, blockno);
        bufs := bufs[b := bufs[b].(dev := dev, blockno := blockno, valid := false, dirty := false, refcnt := 1)];
        return Some(b);
      }
      return None;
    }

    /** The first loop of bget, along next. */
    method FindCached(dev: nat, blockno: nat) returns (b: nat)
      requires Valid()
      ensures b <= NBUF
      ensures b < NBUF ==> bufs[b].dev == dev && bufs[b].blockno == blockno
      ensures b == NBUF ==> forall i :: 0 <= i < NBUF ==> !(bufs[i].dev == dev && bufs[i].blockno == blockno)
    {
      hide Coherent, Recency, Linked;
      ghost var k := 1;
      Ahead(links, ring, NBUF, 0);
      CoherentSize(bufs, disk, flat);
      b := links[NBUF].next;
      while b != NBUF
        invariant 1 <= k <= |ring| + 1 && b == Walk(ring, NBUF, k)
        invariant forall j :: 0 <= j < k - 1 ==> !(bufs[ring[j]].dev == dev && bufs[ring[j]].blockno == blockno)
        decreases |ring| + 1 - k
      {
        if bufs[b].dev == dev && bufs[b].blockno == blockno {
          return;
        }
        Ahead(links, ring, NBUF, k);
        b := links[b].next;
        k := k + 1;
      }
      assert k == |ring| + 1;
      forall i | 0 <= i < NBUF
        ensures !(bufs[i].dev == dev && bufs[i].blockno == blockno)
      {
        var j := Position(ring, stamp, clock, i);
      }
    }

    /** The second loop of bget, along prev. */
    method FindOldest() returns (b: nat)
      requires Valid()
      ensures b <= NBUF
      ensures b < NBUF ==> Recyclable(bufs[b]) && forall j :: 0 <= j < NBUF && Recyclable(bufs[j]) ==> stamp[b] <= stamp[j]
      ensures b == NBUF ==> forall i :: 0 <= i < NBUF ==> !Recyclable(bufs[i])
    {
      hide Coherent, Recyclable, Recency, Linked;
      ghost var k := |ring|;
      Back(links, ring, NBUF, |ring| + 1);
      CoherentSize(bufs, disk, flat);
      b := links[NBUF].prev;
      while b != NBUF
        invariant 0 <= k <= |ring| && b == Walk(ring, NBUF, k)
        invariant forall j :: k <= j < |ring| ==> !Recyclable(bufs[ring[j]])
        decreases k
      {
        if Recyclable(bufs[b]) {
          OldestHere(ring, stamp, clock, bufs, k);
          return;
        }
        Back(links, ring, NBUF, k);
        b := links[b].prev;
        k := k - 1;
      }
      NoneLeft(ring, stamp, clock, bufs);
    }

    /** The end of bget: the caller of Bget takes the buffer's sleep lock once it is free. */
    method Acquire(b: nat) returns (ok: bool)
      requires Valid() && b < NBUF && bufs[b].refcnt > 0
      modifies this`bufs
      ensures Valid() && ok == !old(bufs)[b].locked
      ensures bufs == if ok then old(bufs)[b := old(bufs)[b].(locked := true)] else old(bufs)
      ensures ok && bufs[b].valid ==> bufs[b].blockno < |flat| && bufs[b].data == flat[bufs[b].blockno]
    {
      ok := !bufs[b].locked;
      if ok {
        OneBuf(bufs, disk, flat, b, bufs[b].(locked := true));
        bufs := bufs[b := bufs[b].(locked := true)];
      }
    }

    /** The rest of bread by the holder, who has not changed the buffer yet: it now has what
        the flat disk has. iderw panics for another device or a block off the disk. */
    method ReadIn(b: nat) returns (ok: bool)
      requires Valid() && b < NBUF && bufs[b].locked
      requires bufs[b].valid ==> bufs[b].data == flat[bufs[b].blockno]
      modifies this`bufs
      ensures Valid() && (ok <==> old(bufs)[b].valid || (old(bufs)[b].dev == ROOTDEV && old(bufs)[b].blockno < |disk|))
      ensures ok ==> bufs[b].valid && bufs[b].blockno == old(bufs)[b].blockno < |flat| && bufs[b].data == flat[bufs[b].blockno]
      ensures bufs == old(bufs)[b := old(bufs)[b].(valid := bufs[b].valid, data := bufs[b].data)]
    {
      if !bufs[b].valid {
        if bufs[b].dev != ROOTDEV || bufs[b].blockno >= |disk| {
          return false;
        }
        InvalidIsClean(bufs, disk, flat, b);
        OneBuf(bufs, disk, flat, b, bufs[b].(valid := true, data := disk[bufs[b].blockno]));
        bufs := bufs[b := bufs[b].(valid := true, data := disk[bufs[b].blockno])];
      }
      return true;
    }

    /** The holder changes the contents of the buffer. */
    method Change(b: nat, data: Block)
      requires Valid() && b < NBUF && bufs[b].locked && bufs[b].valid
      modifies this`bufs
      ensures Valid() && bufs == old(bufs)[b := old(bufs)[b].(data := data)]
    {
      OneBuf(bufs, disk, flat, b, bufs[b].(data := data));
      bufs := bufs[b := bufs[b].(data := data)];
    }

    /** bwrite: the block is on the disk, and a pinned buffer is no longer pinned. */
    method Bwrite(b: nat)
      requires Valid() && b < NBUF && bufs[b].locked && bufs[b].valid
      modifies this`bufs, this`disk, this`flat
      ensures Valid() && bufs == old(bufs)[b := old(bufs)[b].(dirty := false)]
      ensures bufs[b].blockno < |old(disk)| == |old(flat)|
      ensures disk == old(disk)[bufs[b].blockno := bufs[b].data] && flat == old(flat)[bufs[b].blockno := bufs[b].data]
    {
      Publish(bufs, disk, flat, b, true);
      disk := disk[bufs[b].blockno := bufs[b].data];
      flat := flat[bufs[b].blockno := bufs[b].data];
      bufs := bufs[b := bufs[b].(dirty := false)];
    }

    /** log_write's part in the cache: the contents count, and the buffer is pinned. */
    method Pin(b: nat)
      requires Valid() && b < NBUF && bufs[b].locked && bufs[b].valid
      modifies this`bufs, this`flat
      ensures Valid() && bufs == old(bufs)[b := old(bufs)[b].(dirty := true)]
      ensures bufs[b].blockno < |old(flat)| && flat == old(flat)[bufs[b].blockno := bufs[b].data]
    {
      Publish(bufs, disk, flat, b, false);
      flat := flat[bufs[b].blockno := bufs[b].data];
      bufs := bufs[b := bufs[b].(dirty := true)];
    }

    /** The six pointer updates of brelse. */
    method MoveToFront(b: nat, ghost k: nat)
      requires Linked(links, ring, NBUF) && Recency(ring, stamp, clock) && k < |ring| && ring[k] == b
      modifies this`links, this`ring, this`stamp, this`clock
      ensures Linked(links, ring, NBUF) && Recency(ring, stamp, clock)
      ensures ring == [b] + Without(old(ring), k) && stamp == old(stamp)[b := old(clock)] && clock == old(clock) + 1
    {
      UnlinkKeeps(links, ring, NBUF, k);
      TouchKeeps(ring, stamp, clock, k);
      ghost var rest := Without(ring, k);
      assert b !in rest;
      hide Recency, Linked, Without;
      var prev, next := links[b].prev, links[b].next;
      links := SetPrev(links, next, prev);
      links := SetNext(links, prev, next);
      PushFrontKeeps(links, rest, NBUF, b);
      links := PushFront(links, NBUF, b);
      ring, stamp, clock := [b] + rest, stamp[b := clock], clock + 1;
    }

    /** brelse, after any changes were written: the last user moves it to the front. */
    method Brelse(b: nat)
      requires Valid() && b < NBUF && bufs[b].locked
      requires bufs[b].valid ==> bufs[b].data == flat[bufs[b].blockno]
      modifies this`bufs, this`links, this`ring, this`stamp, this`clock
      ensures Valid() && bufs == old(bufs)[b := old(bufs)[b].(locked := false, refcnt := old(bufs)[b].refcnt - 1)]
      ensures bufs[b].refcnt > 0 ==> ring == old(ring) && stamp == old(stamp)
      ensures bufs[b].refcnt == 0 ==> ring != [] && ring[0] == b && forall j :: 0 <= j < NBUF && j != b ==> stamp[j] < stamp[b]
    {
      CoherentSize(bufs, disk, flat);
      ReleaseOk(bufs, disk, flat, b);
      OneBuf(bufs, disk, flat, b, bufs[b].(locked := false, refcnt := bufs[b].refcnt - 1));
      hide Coherent, Recency, Linked, BufOk, Without, PushFront;
      bufs := bufs[b := bufs[b].(locked := false, refcnt := bufs[b].refcnt - 1)];
      if bufs[b].refcnt == 0 {
        ghost var k := Position(ring, stamp, clock, b);
        MoveToFront(b, k);
      }
    }
  }

  /** Steps that change one buffer and keep which blocks are dirty. */
  lemma OneBuf(bufs: seq<Buf>, disk: seq<Block>, flat: seq<Block>, b: nat, x: Buf)
    requires Coherent(bufs, disk, flat) && b < NBUF && BufOk(x, flat)
    requires x.dev == bufs[b].dev && x.blockno == bufs[b].blockno && x.dirty == bufs[b].dirty
    ensures Coherent(bufs[b := x], disk, flat)
  {
    var bufs' := bufs[b := x];
    forall n: nat | DirtyAt(bufs, n)
      ensures DirtyAt(bufs', n)
    {
      var i :| 0 <= i < |bufs| && Holds(bufs[i], n) && bufs[i].dirty;
      assert Holds(bufs'[i], n) && bufs'[i].dirty;
    }
  }

  /** The holder of b publishes its contents, written through or not. */
  lemma Publish(bufs: seq<Buf>, disk: seq<Block>, flat: seq<Block>, b: nat, through: bool)
    requires Coherent(bufs, disk, flat) && b < NBUF && bufs[b].locked && bufs[b].valid
    ensures var n := bufs[b].blockno;
            && n < |flat|
            && Coherent(bufs[b := bufs[b].(dirty := !through)],
                        if through then disk[n := bufs[b].data] else disk, flat[n := bufs[b].data])
  {
    assert BufOk(bufs[b], flat);
    var n := bufs[b].blockno;
    var bufs' := bufs[b := bufs[b].(dirty := !through)];
    var disk' := if through then disk[n := bufs[b].data] else disk;
    var flat' := flat[n := bufs[b].data];
    forall i | 0 <= i < NBUF
      ensures BufOk(bufs'[i], flat')
    {
      assert BufOk(bufs[i], flat);
      assert i < b ==> !(bufs[i].dev == bufs[b].dev && bufs[i].blockno == bufs[b].blockno);
      assert b < i ==> !(bufs[b].dev == bufs[i].dev && bufs[b].blockno == bufs[i].blockno);
    }
    assert !through ==> DirtyAt(bufs', n) by {
      assert Holds(bufs'[b], n) && bufs'[b].dirty == !through;
    }
    forall m: nat | m != n && DirtyAt(bufs, m)
      ensures DirtyAt(bufs', m)
    {
      var i :| 0 <= i < |bufs| && Holds(bufs[i], m) && bufs[i].dirty;
      assert i != b && Holds(bufs'[i], m) && bufs'[i].dirty;
    }
  }

  /** A block whose buffer is not valid is on disk as the clients left it. */
  lemma InvalidIsClean(bufs: seq<Buf>, disk: seq<Block>, flat: seq<Block>, b: nat)
    requires Coherent(bufs, disk, flat) && b < NBUF && !bufs[b].valid && bufs[b].dev == ROOTDEV && bufs[b].blockno < |disk|
    ensures disk[bufs[b].blockno] == flat[bufs[b].blockno]
  {
    var n := bufs[b].blockno;
    forall i | 0 <= i < NBUF
      ensures !(Holds(bufs[i], n) && bufs[i].dirty)
    {
      assert BufOk(bufs[i], flat);
      assert i < b ==> !(bufs[i].dev == bufs[b].dev && bufs[i].blockno == bufs[b].blockno);
      assert b < i ==> !(bufs[b].dev == bufs[i].dev && bufs[b].blockno == bufs[i].blockno);
    }
  }

  lemma ReleaseOk(bufs: seq<Buf>, disk: seq<Block>, flat: seq<Block>, b: nat)
    requires Coherent(bufs, disk, flat) && b < NBUF && bufs[b].locked
    requires bufs[b].valid ==> bufs[b].blockno < |flat| && bufs[b].data == flat[bufs[b].blockno]
    ensures bufs[b].refcnt > 0 && BufOk(bufs[b].(locked := false, refcnt := bufs[b].refcnt - 1), flat)
  {
    assert BufOk(bufs[b], flat);
  }

  lemma TouchKeeps(ring: seq<nat>, stamp: seq<nat>, clock: nat, k: nat)
    requires Recency(ring, stamp, clock) && Nodes(ring, NBUF) && k < |ring|
    ensures Recency([ring[k]] + Without(ring, k), stamp[ring[k] := clock], clock + 1)
  {
    var b := ring[k];
    var ring', stamp' := [b] + Without(ring, k), stamp[b := clock];
    forall i | 0 <= i < NBUF
      ensures i in ring' && stamp'[i] < clock + 1
    {
      var j := Position(ring, stamp, clock, i);
      assert j < k ==> ring'[j + 1] == i;
      assert j > k ==> ring'[j] == i;
      assert j == k ==> ring'[0] == i;
    }
  }

  lemma Position(ring: seq<nat>, stamp: seq<nat>, clock: nat, i: nat) returns (k: nat)
    requires Recency(ring, stamp, clock) && i < NBUF
    ensures k < |ring| && ring[k] == i
  {
    assert i in ring && stamp[i] < clock;
    k :| k < |ring| && ring[k] == i;
  }

  /** Everything behind ring[k - 1] is in use, so it is the oldest that is not. */
  lemma OldestHere(ring: seq<nat>, stamp: seq<nat>, clock: nat, bufs: seq<Buf>, k: nat)
    requires Recency(ring, stamp, clock) && Nodes(ring, NBUF) && |bufs| == NBUF && 1 <= k <= |ring|
    requires forall j :: k <= j < |ring| ==> !Recyclable(bufs[ring[j]])
    ensures |stamp| == NBUF && forall j :: 0 <= j < NBUF && Recyclable(bufs[j]) ==> stamp[ring[k - 1]] <= stamp[j]
  {
    hide Recyclable;
    forall j: nat | j < NBUF && Recyclable(bufs[j]) ensures stamp[ring[k - 1]] <= stamp[j] {
      var m := Position(ring, stamp, clock, j);
      assert m <= k - 1;
    }
  }

  lemma NoneLeft(ring: seq<nat>, stamp: seq<nat>, clock: nat, bufs: seq<Buf>)
    requires Recency(ring, stamp, clock) && Nodes(ring, NBUF) && |bufs| == NBUF
    requires forall j :: 0 <= j < |ring| ==> !Recyclable(bufs[ring[j]])
    ensures forall i :: 0 <= i < NBUF ==> !Recyclable(bufs[i])
  {
    hide Recyclable;
    forall i: nat | i < NBUF ensures !Recyclable(bufs[i]) {
      var j := Position(ring, stamp, clock, i);
    }
  }

  lemma CoherentSize(bufs: seq<Buf>, disk: seq<Block>, flat: seq<Block>)
    requires Coherent(bufs, disk, flat)
    ensures |bufs| == NBUF && |disk| == |flat|
  {
  }

  /** A clean unreferenced buffer may be given to another block: the disk has its contents. */
  lemma RecycleKeeps(bufs: seq<Buf>, disk: seq<Block>, flat: seq<Block>, b: nat, dev: nat, blockno: nat)
    requires Coherent(bufs, disk, flat) && b < NBUF && Recyclable(bufs[b])
    requires forall i :: 0 <= i < NBUF ==> !(bufs[i].dev == dev && bufs[i].blockno == blockno)
    ensures Coherent(bufs[b := bufs[b].(dev := dev, blockno := blockno, valid := false, dirty := false, refcnt := 1)], disk, flat)
  {
    var bufs' := bufs[b := bufs[b].(dev := dev, blockno := blockno, valid := false, dirty := false, refcnt := 1)];
    forall n: nat | DirtyAt(bufs, n)
      ensures DirtyAt(bufs', n)
    {
      var i :| 0 <= i < |bufs| && Holds(bufs[i], n) && bufs[i].dirty;
      assert i != b && Holds(bufs'[i], n) && bufs'[i].dirty;
    }
  }
}
