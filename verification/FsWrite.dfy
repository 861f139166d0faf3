/** The rounds of writei, from one bmap to the next: what the file holds, which blocks are
    taken and exactly which blocks are given to log_write. */
module FsWrite {
  import opened Blocks
  import opened Bitmap
  import opened FsModel
  import opened FsInv
  import opened FsInode
  import opened FsContent
  import LogModel

  datatype Snap = Snap(disk: Disk, inodes: seq<Inode>, v: View, logged: set<nat>)

  ghost predicate Sized(s: Snap, i: nat) {
    i < |s.v.maps| == |s.v.inds| == |s.inodes|
  }

  /** Only file i is different, and only if it got blocks are its inode and the view; the
      blocks it got are the lowest that were free. */
  ghost predicate Moved(sb: Super, s: Snap, t: Snap, i: nat) {
    && Sized(s, i) && Sized(t, i) && |s.disk| == |s.v.owner|
    && Rel(sb, t.disk, t.inodes, t.v) && Grew(s.v, t.v, i) && OthersKept(s.v, s.disk, t.disk, i) && FrontKept(sb, s.disk, t.disk)
    && SameInodes(s.inodes, t.inodes, i) && Lowest(s.v, New(s.v, t.v))
    && (New(s.v, t.v) == {} ==> t.inodes == s.inodes && t.v == s.v)
  }

  // ------------------------------------------------------------------- bmap

  /** How many blocks bmap has to take from the free ones. */
  ghost function Need(v: View, i: nat, bn: nat): nat
    requires i < |v.inds|
  {
    (if MapEntry(v, i, bn) == 0 then 1 else 0) + (if bn >= NDIRECT && v.inds[i] == 0 then 1 else 0)
  }

  /** Block bn of file i is at addr; if it was not there before, it is new, and so is the
      indirect block if that was missing too. */
  ghost predicate Stepped(v: View, w: View, i: nat, bn: nat, addr: nat) {
    && i < |v.maps| == |v.inds| == |w.maps| == |w.inds|
    && bn < MAXFILE && MapEntry(w, i, bn) == addr != 0 && addr != w.inds[i]
    && (forall bm: nat :: bm != bn ==> MapEntry(w, i, bm) == MapEntry(v, i, bm))
    && (bn >= NDIRECT ==> w.inds[i] != 0)
    && (v.inds[i] != w.inds[i] ==> v.inds[i] == 0 && bn >= NDIRECT && MapEntry(v, i, bn) == 0)
    && New(v, w) == (if MapEntry(v, i, bn) == 0 then {addr} else {}) + (if v.inds[i] != w.inds[i] then {w.inds[i]} else {})
  }

  /** The indirect block, where bmap changes it. */
  ghost function Link(v: View, w: View, i: nat, bn: nat): set<nat>
    requires i < |w.inds|
  {
    if bn >= NDIRECT && MapEntry(v, i, bn) == 0 then {w.inds[i]} else {}
  }

  /** What bmap does: nothing if the block is there; otherwise it takes the lowest free
      blocks, and logs them, their bits and the indirect block it linked one into. */
  ghost predicate Mapped(sb: Super, s: Snap, t: Snap, i: nat, bn: nat, addr: nat) {
    && Moved(sb, s, t, i) && DataKept(sb, s.v.owner, s.disk, t.disk) && Stepped(s.v, t.v, i, bn, addr)
    && (MapEntry(s.v, i, bn) != 0 ==> t == s)
    && t.logged == s.logged + New(s.v, t.v) + Bits(sb, New(s.v, t.v)) + Link(s.v, t.v, i, bn)
  }

  lemma MappedFound(sb: Super, s: Snap, i: nat, bn: nat)
    requires Rel(sb, s.disk, s.inodes, s.v) && i < |s.inodes| && bn < MAXFILE && MapEntry(s.v, i, bn) != 0
    ensures Mapped(sb, s, s, i, bn, MapEntry(s.v, i, bn))
  {
    Sizes(sb, s.disk, s.inodes, s.v);
    EntryIs(sb, s.disk, s.inodes, s.v, i, bn);
    NothingNew(sb, s.v);
  }

  lemma MappedAdded(sb: Super, s: Snap, t: Snap, i: nat, bn: nat, b: nat)
    requires Rel(sb, s.disk, s.inodes, s.v) && i < |s.inodes| && bn < MAXFILE
    requires Added(s.v, t.v, i, bn, b) && forall c: nat :: c < |s.v.owner| && c < b ==> s.v.owner[c] != Free
    requires Rel(sb, t.disk, t.inodes, t.v) && DataKept(sb, s.v.owner, s.disk, t.disk) && SameInodes(s.inodes, t.inodes, i)
    requires |s.v.inds| == |s.v.maps| && (bn >= NDIRECT ==> s.v.inds[i] != 0)
    requires t.logged == s.logged + {BBlock(sb.bmapstart, b), b} + (if bn >= NDIRECT then {s.v.inds[i]} else {})
    ensures Mapped(sb, s, t, i, bn, b)
  {
    hide Shows, ViewOk, BitsOk, Lowest, Grew;
    Sizes(sb, s.disk, s.inodes, s.v);
    Sizes(sb, t.disk, t.inodes, t.v);
    AddedGrew(s.v, t.v, i, bn, b);
    AddedNew(s.v, t.v, i, bn, b);
    FreeIsPositive(sb, s.disk, s.inodes, s.v, b);
    EntryIs(sb, t.disk, t.inodes, t.v, i, bn);
    assert Bits(sb, {b}) == {BBlock(sb.bmapstart, b)};
  }

  /** The first half of bmap past the direct blocks. */
  ghost predicate IndirectMade(sb: Super, s: Snap, t: Snap, i: nat) {
    && Moved(sb, s, t, i) && DataKept(sb, s.v.owner, s.disk, t.disk)
    && t.v.maps == s.v.maps && t.v.inds[i] != 0 && (s.v.inds[i] != 0 ==> t == s)
    && New(s.v, t.v) == (if s.v.inds[i] == 0 then {t.v.inds[i]} else {})
    && t.logged == s.logged + New(s.v, t.v) + Bits(sb, New(s.v, t.v))
  }

  lemma IndirectThere(sb: Super, s: Snap, i: nat)
    requires Rel(sb, s.disk, s.inodes, s.v) && i < |s.inodes| && i < |s.v.inds| && s.v.inds[i] != 0
    ensures IndirectMade(sb, s, s, i)
  {
    Sizes(sb, s.disk, s.inodes, s.v);
    NothingNew(sb, s.v);
  }

  lemma IndirectAdded(sb: Super, s: Snap, t: Snap, i: nat, b: nat)
    requires Rel(sb, s.disk, s.inodes, s.v) && i < |s.inodes|
    requires AddedIndirect(s.v, t.v, i, b) && forall c: nat :: c < |s.v.owner| && c < b ==> s.v.owner[c] != Free
    requires Rel(sb, t.disk, t.inodes, t.v) && DataKept(sb, s.v.owner, s.disk, t.disk) && SameInodes(s.inodes, t.inodes, i)
    requires t.logged == s.logged + {BBlock(sb.bmapstart, b), b}
    ensures IndirectMade(sb, s, t, i) && |FreeSet(t.v)| == |FreeSet(s.v)| - 1
  {
    hide Shows, ViewOk, BitsOk, Lowest, Grew;
    Sizes(sb, s.disk, s.inodes, s.v);
    Sizes(sb, t.disk, t.inodes, t.v);
    AddedGrew(s.v, t.v, i, 0, b);
    AddedNew(s.v, t.v, i, 0, b);
    FreeIsPositive(sb, s.disk, s.inodes, s.v, b);
    assert Bits(sb, {b}) == {BBlock(sb.bmapstart, b)};
  }

  lemma MovedTwice(sb: Super, s: Snap, t: Snap, u: Snap, i: nat)
    requires Moved(sb, s, t, i) && Moved(sb, t, u, i)
    ensures Moved(sb, s, u, i) && New(s.v, u.v) == New(s.v, t.v) + New(t.v, u.v)
    ensures |New(s.v, u.v)| == |New(s.v, t.v)| + |New(t.v, u.v)|
  {
    hide Rel, SameInodes, OthersKept, Grew, Lowest, New;
    KeptTwice(s.v, t.v, u.v, s.disk, t.disk, u.disk, i);
    SameTwice(s.inodes, t.inodes, u.inodes, i);
    NewTwice(s.v, t.v, u.v, i);
  }

  /** Both halves of bmap past the direct blocks. */
  lemma MappedThrough(sb: Super, s: Snap, t: Snap, u: Snap, i: nat, bn: nat, addr: nat)
    requires Rel(sb, s.disk, s.inodes, s.v) && NDIRECT <= bn < MAXFILE
    requires IndirectMade(sb, s, t, i) && Mapped(sb, t, u, i, bn, addr)
    ensures Mapped(sb, s, u, i, bn, addr)
  {
    hide Rel, OthersKept, Grew, Lowest, New, Bits, DataKept, FrontKept, SameInodes;
    MovedTwice(sb, s, t, u, i);
    DataTwice(sb, s.v, t.v, s.disk, t.disk, u.disk, i);
    BitsUnion(sb, New(s.v, t.v), New(t.v, u.v));
    EntryIs(sb, s.disk, s.inodes, s.v, i, bn);
    assert forall bm: nat :: MapEntry(t.v, i, bm) == MapEntry(s.v, i, bm);
  }

  lemma FreeCount(v: View)
    ensures Free in v.owner <==> |FreeSet(v)| > 0
  {
    if Free in v.owner {
      var b :| 0 <= b < |v.owner| && v.owner[b] == Free;
      assert b in FreeSet(v);
    } else {
      assert FreeSet(v) == {};
    }
  }

  lemma MadeSays(sb: Super, s: Snap, t: Snap, i: nat, bn: nat)
    requires IndirectMade(sb, s, t, i)
    ensures Rel(sb, t.disk, t.inodes, t.v) && i < |t.inodes| && i < |t.v.inds| && t.v.inds[i] != 0
    ensures MapEntry(t.v, i, bn) == MapEntry(s.v, i, bn)
  {
  }

  lemma AddedIs(v: View, w: View, i: nat, bn: nat, b: nat)
    requires i < |v.maps| == |v.inds| && bn < |v.maps[i]| && v.maps[i][bn] == 0 && b < |v.owner| && v.owner[b] == Free
    requires w == AddData(v, i, bn, b)
    ensures Added(v, w, i, bn, b)
  {
  }

  /** bmap of a block that is there. */
  lemma MappedNothing(sb: Super, s: Snap, t: Snap, i: nat, bn: nat, addr: nat)
    requires Mapped(sb, s, t, i, bn, addr) && MapEntry(s.v, i, bn) != 0
    ensures t == s && addr == MapEntry(s.v, i, bn)
  {
  }

  // ----------------------------------------------------------------- one round

  /** All bytes the file has so far are in its blocks. */
  ghost predicate Backed(v: View, i: nat, n: nat) {
    n <= MAXFILE * BSIZE && forall bn: nat :: bn < Ceil(n) ==> MapEntry(v, i, bn) != 0
  }

  /** bmap found or made the block for offset off of file i, which had n bytes. */
  ghost predicate Fetched(sb: Super, s: Snap, t: Snap, i: nat, off: nat, n: nat, addr: nat) {
    Mapped(sb, s, t, i, off / BSIZE, addr) && Content(t.disk, t.v.maps[i], n) == Content(s.disk, s.v.maps[i], n)
  }

  lemma FetchedIs(sb: Super, s: Snap, t: Snap, i: nat, off: nat, n: nat, addr: nat)
    requires Rel(sb, s.disk, s.inodes, s.v) && Mapped(sb, s, t, i, off / BSIZE, addr) && Backed(s.v, i, n)
    ensures Fetched(sb, s, t, i, off, n, addr)
  {
    hide Rel, Content, Lowest, New, Bits, SameInodes, Stepped;
    GrewContent(sb, s.disk, s.inodes, s.v, t.disk, t.v, i, i, n);
  }

  lemma FetchedBlock(sb: Super, s: Snap, t: Snap, i: nat, off: nat, n: nat, addr: nat)
    requires Fetched(sb, s, t, i, off, n, addr)
    ensures i < |t.v.maps| && off / BSIZE < MAXFILE && off / BSIZE < |t.v.maps[i]| && addr != 0
    ensures t.v.maps[i][off / BSIZE] == MapEntry(t.v, i, off / BSIZE) == addr < |t.disk|
  {
    hide Content, Rel, Grew, OthersKept, SameInodes, Lowest, New, Bits, DataKept;
    MapInRange(sb, t.disk, t.inodes, t.v, i, off / BSIZE);
  }

  /** One round: d went to offset off of file i, which had n bytes. */
  ghost predicate Wrote(sb: Super, s: Snap, t: Snap, i: nat, off: nat, n: nat, d: seq<Byte>, addr: nat)
    requires off <= n
  {
    && Sized(s, i)
    && WroteBlock(sb, s, t, i, off / BSIZE, Overwrite(Content(s.disk, s.v.maps[i], n), off, d), Max(n, off + |d|), addr)
  }

  /** Block bn was written, after which the file's first n bytes are c. */
  ghost predicate WroteBlock(sb: Super, s: Snap, t: Snap, i: nat, bn: nat, c: seq<Byte>, n: nat, addr: nat) {
    && Moved(sb, s, t, i) && Stepped(s.v, t.v, i, bn, addr) && Content(t.disk, t.v.maps[i], n) == c
    && t.logged == s.logged + Bits(sb, New(s.v, t.v)) + Link(s.v, t.v, i, bn) + {addr}
  }

  lemma PieceStep(sb: Super, s: Snap, t: Snap, i: nat, off: nat, n: nat, addr: nat, d: seq<Byte>, blk: Block)
    requires Fetched(sb, s, t, i, off, n, addr) && off <= n && addr < |t.disk|
    requires Copied(t.disk[addr], blk, off % BSIZE, d)
    ensures Wrote(sb, s, Snap(t.disk[addr := blk], t.inodes, t.v, t.logged + {addr}), i, off, n, d, addr)
  {
    var u := Snap(t.disk[addr := blk], t.inodes, t.v, t.logged + {addr});
    hide Content, Copied, Overwrite, Rel, Grew, OthersKept, SameInodes, Lowest, New, Bits, DataKept, FrontKept, Stepped, Link;
    FetchedBlock(sb, s, t, i, off, n, addr);
    NewIsLogged(s.v, t.v, i, off / BSIZE, addr);
    Absorbed(s.logged, New(s.v, t.v), Bits(sb, New(s.v, t.v)), Link(s.v, t.v, i, off / BSIZE), {addr});
    PieceWritten(sb, t.disk, t.inodes, t.v, i, n, off, d, blk);
    OverwriteLength(Content(t.disk, t.v.maps[i], n), off, d);
    GrewSelf(t.v, i);
    KeptTwice(s.v, t.v, t.v, s.disk, t.disk, u.disk, i);
    FrontTwice(sb, s.disk, t.disk, u.disk);
  }

  lemma NewIsLogged(v: View, w: View, i: nat, bn: nat, addr: nat)
    requires Stepped(v, w, i, bn, addr)
    ensures New(v, w) <= {addr} + Link(v, w, i, bn)
  {
  }

  lemma FrontTwice(sb: Super, d0: Disk, d1: Disk, d2: Disk)
    requires FrontKept(sb, d0, d1) && FrontKept(sb, d1, d2)
    ensures FrontKept(sb, d0, d2)
  {
  }

  // ---------------------------------------------------------------- all rounds

  /** How many blocks n bytes at off touch. */
  function Span(off: nat, n: nat): nat {
    if n == 0 then 0 else (off + n - 1) / BSIZE - off / BSIZE + 1
  }

  /** Blocks lo, ..., lo + k - 1 of file i. */
  ghost function BlocksOf(v: View, i: nat, lo: nat, k: nat): set<nat> {
    set bn: nat | lo <= bn < lo + k :: MapEntry(v, i, bn)
  }

  /** The blocks that hold the n bytes at off. */
  ghost function Touched(v: View, i: nat, off: nat, n: nat): set<nat> { BlocksOf(v, i, off / BSIZE, Span(off, n)) }

  /** The indirect block of file i, if a block above the direct ones was added. */
  ghost function Linked(v: View, i: nat, nb0: nat, nb: nat): set<nat>
    requires i < |v.inds|
  {
    if nb > nb0 && nb > NDIRECT then {v.inds[i]} else {}
  }

  /** How many blocks a file takes to go from nb0 to nb blocks. */
  function Takes(nb0: nat, nb: nat, ind: nat): nat
    requires nb0 <= nb
  {
    nb - nb0 + (if ind == 0 && nb > nb0 && nb > NDIRECT then 1 else 0)
  }

  /** All rounds so far: d went to offset off of file i, which held c in nb0 blocks. */
  ghost predicate Progress(sb: Super, s: Snap, t: Snap, i: nat, off: nat, c: seq<Byte>, d: seq<Byte>, nb0: nat)
    requires off <= |c|
  {
    && Ceil(|c|) <= nb0
    && Reached(sb, s, t, i, Overwrite(c, off, d), Max(|c|, off + |d|), Touched(t.v, i, off, |d|), nb0, Max(nb0, Ceil(off + |d|)))
  }

  /** File i has gone from nb0 to nb blocks, holds c in its first n bytes, and the blocks in
      data have been written. */
  ghost predicate Reached(sb: Super, s: Snap, t: Snap, i: nat, c: seq<Byte>, n: nat, data: set<nat>, nb0: nat, nb: nat) {
    && Moved(sb, s, t, i) && nb0 <= nb && Dense(s.v.maps[i], nb0) && Dense(t.v.maps[i], nb)
    && Content(t.disk, t.v.maps[i], n) == c
    && t.logged == s.logged + Bits(sb, New(s.v, t.v)) + data + Linked(t.v, i, nb0, nb)
    && |New(s.v, t.v)| == Takes(nb0, nb, s.v.inds[i])
    && (s.v.inds[i] != t.v.inds[i] <==> s.v.inds[i] == 0 && nb > nb0 && nb > NDIRECT)
  }

  lemma ReachedNext(sb: Super, s: Snap, t: Snap, u: Snap, i: nat, c: seq<Byte>, n: nat, data: set<nat>, nb0: nat, nb: nat,
                    bn: nat, c': seq<Byte>, n': nat, addr: nat)
    requires Reached(sb, s, t, i, c, n, data, nb0, nb) && WroteBlock(sb, t, u, i, bn, c', n', addr) && bn <= nb
    ensures Reached(sb, s, u, i, c', n', data + {addr}, nb0, Max(nb, bn + 1))
  {
    hide Content, Rel, Grew, OthersKept, SameInodes, Lowest, New, Bits, FrontKept, Dense, Stepped, Link, Linked, Takes;
    MovedTwice(sb, s, t, u, i);
    DenseSize(sb, u, i);
    DenseNext(t.v, u.v, i, bn, addr, nb);
    BitsUnion(sb, New(s.v, t.v), New(t.v, u.v));
    TakesNext(sb, s, t, u, i, bn, addr, nb0, nb);
    Regroup(s.logged, Bits(sb, New(s.v, t.v)), data, Linked(t.v, i, nb0, nb), Bits(sb, New(t.v, u.v)), Link(t.v, u.v, i, bn), {addr});
  }

  lemma Regroup(l: set<nat>, b1: set<nat>, d1: set<nat>, k1: set<nat>, b2: set<nat>, k2: set<nat>, d2: set<nat>)
    ensures l + b1 + d1 + k1 + b2 + k2 + d2 == l + (b1 + b2) + (d1 + d2) + (k1 + k2)
  {
  }

  lemma Absorbed(l: set<nat>, n: set<nat>, b: set<nat>, k: set<nat>, d: set<nat>)
    requires n <= d + k
    ensures l + n + b + k + d == l + b + k + d
  {
  }

  lemma SpanNext(off: nat, tot: nat, m: nat)
    requires 0 < m && (off + tot) % BSIZE + m <= BSIZE && (tot == 0 || (off + tot) % BSIZE == 0)
    ensures Span(off, tot + m) == Span(off, tot) + 1 && (off + tot) / BSIZE == off / BSIZE + Span(off, tot)
  {
    if tot == 0 {
      InBlock(off, m - 1);
    } else {
      InBlock(off + tot, m - 1);
      assert (off + tot - 1) / BSIZE == (off + tot) / BSIZE - 1;
    }
  }

  lemma BlocksOfNext(v: View, w: View, i: nat, lo: nat, k: nat)
    requires forall bn: nat :: lo <= bn < lo + k ==> MapEntry(w, i, bn) == MapEntry(v, i, bn)
    ensures BlocksOf(w, i, lo, k + 1) == BlocksOf(v, i, lo, k) + {MapEntry(w, i, lo + k)}
  {
    var a, b := BlocksOf(w, i, lo, k + 1), BlocksOf(v, i, lo, k) + {MapEntry(w, i, lo + k)};
    forall x | x in a ensures x in b {
      var bn: nat :| lo <= bn < lo + k + 1 && x == MapEntry(w, i, bn);
      assert bn < lo + k ==> MapEntry(v, i, bn) == x;
    }
    forall x | x in b ensures x in a {
      if x in BlocksOf(v, i, lo, k) {
        var bn: nat :| lo <= bn < lo + k && x == MapEntry(v, i, bn);
        assert MapEntry(w, i, bn) == x;
      }
    }
  }

  lemma NoBlocks(v: View, i: nat, lo: nat)
    ensures BlocksOf(v, i, lo, 0) == {}
  {
  }

  /** The blocks of a file are as many as their numbers. */
  lemma {:induction false} BlocksOfSize(sb: Super, v: View, i: nat, lo: nat, k: nat)
    requires LayoutOk(sb) && ViewOk(sb, v) && i < |v.maps| && lo + k <= MAXFILE
    requires forall bn: nat :: lo <= bn < lo + k ==> MapEntry(v, i, bn) != 0
    ensures |BlocksOf(v, i, lo, k)| == k
    ensures forall x :: x in BlocksOf(v, i, lo, k) ==> sb.nmeta <= x < sb.size && v.owner[x].Data?
  {
    hide ViewOk, LayoutOk, BlocksOf;
    if k == 0 {
      NoBlocks(v, i, lo);
    } else {
      BlocksOfSize(sb, v, i, lo, k - 1);
      BlocksOfNext(v, v, i, lo, k - 1);
      var last := MapEntry(v, i, lo + k - 1);
      MapDistinct(sb, v, i, lo + k - 1, if lo + k - 1 == 0 then 1 else 0);
      LastApart(sb, v, i, lo, k - 1);
    }
  }

  lemma LastApart(sb: Super, v: View, i: nat, lo: nat, k: nat)
    requires LayoutOk(sb) && ViewOk(sb, v) && i < |v.maps| && lo + k < MAXFILE
    requires forall bn: nat :: lo <= bn < lo + k ==> MapEntry(v, i, bn) != 0
    ensures MapEntry(v, i, lo + k) !in BlocksOf(v, i, lo, k)
  {
    hide ViewOk, LayoutOk;
    forall bn: nat | lo <= bn < lo + k ensures MapEntry(v, i, bn) != MapEntry(v, i, lo + k) {
      MapDistinct(sb, v, i, bn, lo + k);
    }
  }

  lemma ProgressStarts(sb: Super, s: Snap, i: nat, off: nat)
    requires Rel(sb, s.disk, s.inodes, s.v) && i < |s.inodes| && off <= s.inodes[i].size && i < |s.v.maps|
    requires Dense(s.v.maps[i], Ceil(s.inodes[i].size))
    ensures Progress(sb, s, s, i, off, File(s.disk, s.inodes, s.v, i), [], Ceil(s.inodes[i].size))
  {
    hide Rel, Content, Ceil;
    Sizes(sb, s.disk, s.inodes, s.v);
    CeilMonotone(off, s.inodes[i].size);
    NothingNew(sb, s.v);
    var c := File(s.disk, s.inodes, s.v, i);
    assert Overwrite(c, off, []) == c;
    assert Touched(s.v, i, off, 0) == {};
  }

  lemma CeilMonotone(a: nat, b: nat)
    ensures a <= b ==> Ceil(a) <= Ceil(b)
  {
  }

  lemma NbNext(off: nat, len: nat, m: nat, n: nat, nb0: nat)
    requires 0 < m && (off + len) % BSIZE + m <= BSIZE && off <= n && Ceil(n) <= nb0
    ensures var nb, bn := Max(nb0, Ceil(off + len)), (off + len) / BSIZE;
      bn <= nb && Max(nb0, Ceil(off + len + m)) == Max(nb, bn + 1)
  {
    CeilMonotone(Max(n, off + len), Max(n, off + len));
    NextBlock(off + len, Max(n, off + len), Max(nb0, Ceil(off + len)));
    CeilAfter(off + len, m, Max(n, off + len), Max(nb0, Ceil(off + len)));
  }

  lemma DenseNext(v: View, w: View, i: nat, bn: nat, addr: nat, nb: nat)
    requires Stepped(v, w, i, bn, addr) && Dense(v.maps[i], nb) && bn <= nb && |w.maps[i]| == MAXFILE
    ensures Dense(w.maps[i], Max(nb, bn + 1)) && (MapEntry(v, i, bn) == 0 <==> bn == nb)
  {
    forall bm: nat | bm < MAXFILE ensures w.maps[i][bm] != 0 <==> bm < Max(nb, bn + 1) {
      assert MapEntry(w, i, bm) == w.maps[i][bm] && MapEntry(v, i, bm) == v.maps[i][bm];
    }
    assert MapEntry(v, i, bn) == v.maps[i][bn];
  }

  lemma TouchedNext(v: View, w: View, i: nat, off: nat, tot: nat, m: nat, addr: nat)
    requires 0 < m && (off + tot) % BSIZE + m <= BSIZE && (tot == 0 || (off + tot) % BSIZE == 0)
    requires Stepped(v, w, i, (off + tot) / BSIZE, addr)
    ensures Touched(w, i, off, tot + m) == Touched(v, i, off, tot) + {addr}
  {
    hide New;
    SpanNext(off, tot, m);
    BlocksOfNext(v, w, i, off / BSIZE, Span(off, tot));
  }

  lemma IndKept(sb: Super, s: Snap, t: Snap, i: nat, nb: nat)
    requires Moved(sb, s, t, i) && Dense(s.v.maps[i], nb) && nb > NDIRECT && Rel(sb, s.disk, s.inodes, s.v)
    ensures s.v.inds[i] != 0 && t.v.inds[i] == s.v.inds[i]
  {
    assert FileOk(s.v, i);
    assert s.v.maps[i][NDIRECT] != 0;
  }

  lemma ProgressNext(sb: Super, s: Snap, t: Snap, u: Snap, i: nat, off: nat, c: seq<Byte>, d: seq<Byte>, piece: seq<Byte>,
                     nb0: nat, addr: nat)
    requires off <= |c| && Progress(sb, s, t, i, off, c, d, nb0)
    requires Wrote(sb, t, u, i, off + |d|, Max(|c|, off + |d|), piece, addr)
    requires Sized(t, i) && Content(t.disk, t.v.maps[i], Max(|c|, off + |d|)) == Overwrite(c, off, d)
    requires 0 < |piece| && (off + |d|) % BSIZE + |piece| <= BSIZE && (d == [] || (off + |d|) % BSIZE == 0)
    ensures Progress(sb, s, u, i, off, c, d + piece, nb0)
  {
    hide Content, Overwrite, Ceil, Reached, WroteBlock, Touched;
    var nb, bn := Max(nb0, Ceil(off + |d|)), (off + |d|) / BSIZE;
    OverwriteMore(c, off, d, piece);
    NbNext(off, |d|, |piece|, |c|, nb0);
    WroteStep(sb, t, u, i, bn, Overwrite(c, off, d + piece), Max(|c|, off + |d| + |piece|), addr);
    TouchedNext(t.v, u.v, i, off, |d|, |piece|, addr);
    ReachedNext(sb, s, t, u, i, Overwrite(c, off, d), Max(|c|, off + |d|), Touched(t.v, i, off, |d|), nb0, nb,
                bn, Overwrite(c, off, d + piece), Max(|c|, off + |d| + |piece|), addr);
  }

  lemma WroteStep(sb: Super, s: Snap, t: Snap, i: nat, bn: nat, c: seq<Byte>, n: nat, addr: nat)
    requires WroteBlock(sb, s, t, i, bn, c, n, addr)
    ensures Stepped(s.v, t.v, i, bn, addr)
  {
  }

  lemma TakesNext(sb: Super, s: Snap, t: Snap, u: Snap, i: nat, bn: nat, addr: nat, nb0: nat, nb: nat)
    requires Moved(sb, s, t, i) && Moved(sb, t, u, i) && Stepped(t.v, u.v, i, bn, addr)
    requires Dense(t.v.maps[i], nb) && nb0 <= nb && bn <= nb && (MapEntry(t.v, i, bn) == 0 <==> bn == nb)
    requires |New(s.v, t.v)| == Takes(nb0, nb, s.v.inds[i])
    requires s.v.inds[i] != t.v.inds[i] <==> s.v.inds[i] == 0 && nb > nb0 && nb > NDIRECT
    ensures |New(s.v, t.v)| + |New(t.v, u.v)| == Takes(nb0, Max(nb, bn + 1), s.v.inds[i])
    ensures s.v.inds[i] != u.v.inds[i] <==> s.v.inds[i] == 0 && Max(nb, bn + 1) > nb0 && Max(nb, bn + 1) > NDIRECT
    ensures Linked(u.v, i, nb0, Max(nb, bn + 1)) == Linked(t.v, i, nb0, nb) + Link(t.v, u.v, i, bn)
  {
    hide Rel, Grew, OthersKept, SameInodes, Lowest, New, FrontKept, Dense, MapEntry;
    if nb > NDIRECT {
      IndKept(sb, t, u, i, nb);
    }
  }

  lemma DenseSize(sb: Super, t: Snap, i: nat)
    requires Rel(sb, t.disk, t.inodes, t.v) && i < |t.v.maps|
    ensures |t.v.maps[i]| == MAXFILE
  {
    assert FileOk(t.v, i);
  }

  /** How much of a block a round may fill. */
  lemma PieceSize(off: nat, left: nat, m: nat)
    requires 0 < left && m == Min(left, BSIZE - off % BSIZE)
    ensures 0 < m <= left && off % BSIZE + m <= BSIZE && (m < left ==> (off + m) % BSIZE == 0)
  {
  }

  /** What the next round may rely on. */
  lemma ProgressSays(sb: Super, s: Snap, t: Snap, i: nat, off: nat, c: seq<Byte>, d: seq<Byte>, nb0: nat)
    requires off <= |c| && Progress(sb, s, t, i, off, c, d, nb0) && Max(|c|, off + |d|) <= MAXFILE * BSIZE
    ensures Rel(sb, t.disk, t.inodes, t.v) && Sized(t, i) && Backed(t.v, i, Max(|c|, off + |d|))
    ensures Content(t.disk, t.v.maps[i], Max(|c|, off + |d|)) == Overwrite(c, off, d)
  {
    hide Content, Overwrite, Rel, Grew, OthersKept, SameInodes, Lowest, New, Bits, FrontKept, Touched, Linked, Ceil;
    CeilGrows(|c|, off + |d|);
  }

  lemma CeilGrows(a: nat, b: nat)
    ensures Ceil(Max(a, b)) == Max(Ceil(a), Ceil(b))
  {
    CeilMonotone(a, b);
    CeilMonotone(b, a);
  }

  /** Where the blocks run out: there were fewer free ones than the write takes. */
  lemma ProgressStuck(sb: Super, s: Snap, t: Snap, i: nat, off: nat, c: seq<Byte>, d: seq<Byte>, nb0: nat, n: nat)
    requires off <= |c| && Progress(sb, s, t, i, off, c, d, nb0) && |d| < n
    requires |FreeSet(t.v)| < Need(t.v, i, (off + |d|) / BSIZE)
    requires off + |d| < MAXFILE * BSIZE
    ensures |FreeSet(s.v)| < Takes(nb0, Max(nb0, Ceil(off + n)), s.v.inds[i])
  {
    hide Content, Overwrite, Rel, OthersKept, SameInodes, Lowest, Bits, FrontKept, Touched, Linked, Ceil, Grew, New;
    var nb, bn := Max(nb0, Ceil(off + |d|)), (off + |d|) / BSIZE;
    FreeParts(s.v, t.v, i);
    NbNext(off, |d|, 1, |c|, nb0);
    CeilMonotone(off + |d| + 1, off + n);
    assert bn < nb ==> MapEntry(t.v, i, bn) != 0;
    if nb > NDIRECT {
      IndThere(sb, t, i, nb);
    }
  }

  lemma IndThere(sb: Super, t: Snap, i: nat, nb: nat)
    requires Rel(sb, t.disk, t.inodes, t.v) && i < |t.v.maps| && Dense(t.v.maps[i], nb) && nb > NDIRECT
    ensures i < |t.v.inds| && t.v.inds[i] != 0
  {
    assert FileOk(t.v, i) && t.v.maps[i][NDIRECT] != 0;
  }

  lemma FreeParts(v: View, w: View, i: nat)
    requires Grew(v, w, i)
    ensures |FreeSet(v)| == |New(v, w)| + |FreeSet(w)|
  {
    assert FreeSet(v) == New(v, w) + FreeSet(w);
    assert New(v, w) !! FreeSet(w);
  }

  /** Sizes of everything, and what the file holds, once all rounds are done. */
  lemma ProgressEnds(sb: Super, s: Snap, t: Snap, i: nat, off: nat, c: seq<Byte>, d: seq<Byte>, nb0: nat)
    requires off <= |c| && Progress(sb, s, t, i, off, c, d, nb0)
    ensures i < |s.inodes| == |t.inodes| == |t.v.maps| == |s.v.maps| && t.inodes[i].size == s.inodes[i].size
    ensures Content(t.disk, t.v.maps[i], Max(|c|, off + |d|)) == Overwrite(c, off, d)
    ensures forall j: nat :: j < |s.inodes| && j != i ==> t.inodes[j] == s.inodes[j]
    ensures FrontKept(sb, s.disk, t.disk) && |FreeSet(s.v)| >= Takes(nb0, Max(nb0, Ceil(off + |d|)), s.v.inds[i])
  {
    hide Content, Overwrite, Rel, OthersKept, Lowest, Bits, FrontKept, Touched, Linked, Ceil, Grew, New, Dense;
    FreeParts(s.v, t.v, i);
    assert t.inodes[i].(addrs := []).size == s.inodes[i].(addrs := []).size;
  }

  // ----------------------------------------------------------- the whole write

  /** The inodes after a write, with the new size if the file grew. */
  ghost function Resized(inodes: seq<Inode>, i: nat, n: nat): seq<Inode>
    requires i < |inodes|
  {
    inodes[i := inodes[i].(size := Max(inodes[i].size, n))]
  }

  lemma RelIgnoresSize(sb: Super, t: Snap, i: nat, n: nat)
    requires Rel(sb, t.disk, t.inodes, t.v) && i < |t.inodes|
    ensures Rel(sb, t.disk, Resized(t.inodes, i, n), t.v)
  {
    var inodes := Resized(t.inodes, i, n);
    forall j: nat | j < |inodes| ensures Shows(t.disk, inodes[j], t.v.maps[j], t.v.inds[j]) {
      assert Shows(t.disk, t.inodes[j], t.v.maps[j], t.v.inds[j]);
    }
  }

  /** An iupdate leaves everything else in order. */
  lemma RelIgnoresFront(sb: Super, disk: Disk, disk': Disk, inodes: seq<Inode>, v: View)
    requires Rel(sb, disk, inodes, v) && |disk'| == |disk| && forall b: nat :: sb.bmapstart <= b < |disk| ==> disk'[b] == disk[b]
    ensures Rel(sb, disk', inodes, v)
  {
    hide Shows, ViewOk;
    Sizes(sb, disk, inodes, v);
    forall b: nat | b < |v.owner|
      ensures BBlock(sb.bmapstart, b) < |disk'| && (Marked(disk', sb.bmapstart, b) <==> v.owner[b] != Free)
    {
      BBlockIsMeta(sb, b);
    }
    forall j: nat | j < |inodes| ensures Shows(disk', inodes[j], v.maps[j], v.inds[j]) {
      IndirectIsData(sb, v, j);
      ShowsKept(disk, disk', inodes[j], v.maps[j], v.inds[j]);
    }
  }

  /** File data lies above the inode blocks. */
  lemma ContentAbove(sb: Super, disk: Disk, disk': Disk, inodes: seq<Inode>, v: View, j: nat, n: nat)
    requires Rel(sb, disk, inodes, v) && j < |v.maps| && Backed(v, j, n)
    requires |disk'| == |disk| && forall b: nat :: sb.bmapstart <= b < |disk| ==> disk'[b] == disk[b]
    ensures Content(disk', v.maps[j], n) == Content(disk, v.maps[j], n)
  {
    hide Content;
    assert FileOk(v, j);
    forall bn: nat | bn < Ceil(n) && bn < |v.maps[j]| && v.maps[j][bn] < |disk| ensures disk'[v.maps[j][bn]] == disk[v.maps[j][bn]] {
      assert MapEntry(v, j, bn) != 0;
      assert BlockOk(v, sb.nmeta, v.maps[j][bn]);
    }
    ContentKept(disk, disk', v.maps[j], n);
  }

  lemma StorableOf(sb: Super, disk: Disk, inodes: seq<Inode>, v: View, i: nat)
    requires Rel(sb, disk, inodes, v) && i < |inodes| && inodes[i].size < 0x1_0000_0000
    ensures Storable(inodes[i])
  {
    assert Shows(disk, inodes[i], v.maps[i], v.inds[i]) && FileOk(v, i);
    forall k | 0 <= k < |inodes[i].addrs| ensures inodes[i].addrs[k] < 0x1_0000_0000 {
      if k < NDIRECT {
        assert v.maps[i][k] == Entry(disk, inodes[i], k);
      }
    }
  }

  /** The inodes in memory and their blocks agree again once i is written back. */
  lemma UpdateSettles(sb: Super, disk: Disk, was: seq<Inode>, now: seq<Inode>, v: View, i: nat)
    requires Rel(sb, disk, now, v) && OnDisk(sb, disk, was) && i < |was| == |now| == |v.maps| == |v.inds| && now == was[i := now[i]]
    requires forall j: nat :: j < |now| ==> FileSettled(now[j], v.maps[j], v.inds[j])
    ensures IBlock(sb, i) < |disk| && Storable(now[i]) && Settled(sb, Updated(sb, disk, i, now[i]), now, v)
    ensures forall j: nat :: j < |now| ==>
      Content(Updated(sb, disk, i, now[i]), v.maps[j], now[j].size) == Content(disk, v.maps[j], now[j].size)
  {
    hide Rel, OnDisk, Content, Updated, Dense, Ceil, Storable;
    assert FileSettled(now[i], v.maps[i], v.inds[i]);
    StorableOf(sb, disk, now, v, i);
    UpdatedHolds(sb, disk, was, i, now[i]);
    UpdatedAbove(sb, disk, now, v, i, now[i]);
    RelIgnoresFront(sb, disk, Updated(sb, disk, i, now[i]), now, v);
    forall j: nat | j < |now|
      ensures Content(Updated(sb, disk, i, now[i]), v.maps[j], now[j].size) == Content(disk, v.maps[j], now[j].size)
    {
      FileBacked(now[j], v, j);
      ContentAbove(sb, disk, Updated(sb, disk, i, now[i]), now, v, j, now[j].size);
    }
  }

  lemma UpdatedAbove(sb: Super, disk: Disk, inodes: seq<Inode>, v: View, i: nat, ip: Inode)
    requires Rel(sb, disk, inodes, v) && i < |inodes| && Storable(ip) && IBlock(sb, i) < |disk|
    ensures |Updated(sb, disk, i, ip)| == |disk|
    ensures forall b: nat :: sb.bmapstart <= b < |disk| ==> Updated(sb, disk, i, ip)[b] == disk[b]
  {
    hide Encode;
    Sizes(sb, disk, inodes, v);
    IBlockIs(sb, i);
  }

  lemma FileBacked(ip: Inode, v: View, j: nat)
    requires j < |v.maps| && j < |v.inds| && FileSettled(ip, v.maps[j], v.inds[j])
    ensures Backed(v, j, ip.size)
  {
    hide Ceil;
  }

  /** Every file has the blocks its size needs once i has its new size. */
  lemma WriteSettles(sb: Super, s: Snap, t: Snap, i: nat, off: nat, src: seq<Byte>)
    requires Settled(sb, s.disk, s.inodes, s.v) && i < |s.inodes| && i < |s.v.maps| && off <= s.inodes[i].size
    requires Progress(sb, s, t, i, off, File(s.disk, s.inodes, s.v, i), src, Ceil(s.inodes[i].size)) && off + |src| <= MAXFILE * BSIZE
    ensures i < |t.inodes| && var inodes := Resized(t.inodes, i, off + |src|);
      && Rel(sb, t.disk, inodes, t.v) && |inodes| == |t.v.maps| == |t.v.inds|
      && (forall j: nat :: j < |inodes| ==> FileSettled(inodes[j], t.v.maps[j], t.v.inds[j]))
      && (off + |src| <= s.inodes[i].size ==> inodes == s.inodes && t.inodes == s.inodes && t.v == s.v)
  {
    hide OthersKept, Content, Overwrite, Span, Ceil, Dense, Bits, Touched, Lowest, FrontKept, Grew, New, Rel;
    SettledSizes(sb, s.disk, s.inodes, s.v);
    CeilGrows(s.inodes[i].size, off + |src|);
    RelIgnoresSize(sb, t, i, off + |src|);
    GrewOthers(s.v, t.v, i);
    CeilMonotone(off + |src|, s.inodes[i].size);
    var inodes := Resized(t.inodes, i, off + |src|);
    assert t.inodes[i].(addrs := []).size == s.inodes[i].(addrs := []).size;
    forall j: nat | j < |inodes| ensures FileSettled(inodes[j], t.v.maps[j], t.v.inds[j]) {
      assert FileSettled(s.inodes[j], s.v.maps[j], s.v.inds[j]);
    }
    if off + |src| <= s.inodes[i].size {
      assert New(s.v, t.v) == {};
    }
  }

  lemma GrewOthers(v: View, w: View, i: nat)
    requires Grew(v, w, i)
    ensures forall j: nat :: j < |v.maps| && j < |w.maps| && j != i ==> w.maps[j] == v.maps[j]
    ensures forall j: nat :: j < |v.inds| && j < |w.inds| && j != i ==> w.inds[j] == v.inds[j]
    ensures |w.maps| == |v.maps| && |w.inds| == |v.inds|
  {
  }

  /** Every file but i reads as before. */
  lemma WriteSpares(sb: Super, s: Snap, t: Snap, i: nat, off: nat, src: seq<Byte>, j: nat)
    requires Settled(sb, s.disk, s.inodes, s.v) && i < |s.inodes| && i < |s.v.maps| && off <= s.inodes[i].size
    requires Progress(sb, s, t, i, off, File(s.disk, s.inodes, s.v, i), src, Ceil(s.inodes[i].size))
    requires j < |s.inodes| && j != i
    ensures j < |t.v.maps| && j < |s.v.maps| && j < |t.inodes| && t.inodes[j] == s.inodes[j]
    ensures Content(t.disk, t.v.maps[j], s.inodes[j].size) == File(s.disk, s.inodes, s.v, j)
  {
    hide Content, Overwrite, Span, Ceil, Rel, Bits, Touched, Lowest, FrontKept, New;
    SettledSizes(sb, s.disk, s.inodes, s.v);
    SettledBacked(sb, s.disk, s.inodes, s.v, j);
    GrewContent(sb, s.disk, s.inodes, s.v, t.disk, t.v, i, j, s.inodes[j].size);
  }

  lemma SettledBacked(sb: Super, disk: Disk, inodes: seq<Inode>, v: View, j: nat)
    requires Settled(sb, disk, inodes, v) && j < |inodes|
    ensures inodes[j].size <= MAXFILE * BSIZE && Backed(v, j, inodes[j].size)
  {
    SettledSizes(sb, disk, inodes, v);
    assert FileSettled(inodes[j], v.maps[j], v.inds[j]);
    FileBacked(inodes[j], v, j);
  }

  lemma CeilFits(n: nat)
    ensures n <= MAXFILE * BSIZE ==> Ceil(n) <= MAXFILE
  {
  }

  lemma StoredSizes(sb: Super, disk: Disk, inodes: seq<Inode>)
    requires OnDisk(sb, disk, inodes)
    ensures LayoutOk(sb) && |disk| == sb.size && |inodes| == sb.ninodes
  {
  }

  lemma SettledAgain(sb: Super, disk: Disk, inodes: seq<Inode>, v: View)
    requires Rel(sb, disk, inodes, v) && OnDisk(sb, disk, inodes) && |inodes| == |v.maps| == |v.inds|
    requires forall j: nat :: j < |inodes| ==> FileSettled(inodes[j], v.maps[j], v.inds[j])
    ensures Settled(sb, disk, inodes, v)
  {
  }

  lemma SettledOwners(sb: Super, disk: Disk, inodes: seq<Inode>, v: View)
    requires Settled(sb, disk, inodes, v)
    ensures |v.owner| == sb.size
  {
  }

  // ------------------------------------------------------------- log budget

  const MAXOPBLOCKS: nat := LogModel.MAXOPBLOCKS
  const CHUNK: nat := (MAXOPBLOCKS - 1 - 1 - 2) / 2 * 512  // max in filewrite
  const CHUNKBLOCKS: nat := 9                              // what a chunk logs at most on mkfs's disk

  /** How many blocks a write of n bytes at off takes. */
  function Allocates(size: nat, off: nat, n: nat): nat {
    var nb := Max(Ceil(size), Ceil(off + n));
    nb - Ceil(size) + (if Ceil(size) <= NDIRECT < nb then 1 else 0)
  }

  /** Whether it links a block into the indirect block. */
  predicate Links(size: nat, off: nat, n: nat) { Max(Ceil(size), Ceil(off + n)) > Max(Ceil(size), NDIRECT) }

  /** Whether the file is longer afterwards. */
  predicate Grows(size: nat, off: nat, n: nat) { n > 0 && off + n > size }

  /** Exactly the blocks that writei logs: the bitmap blocks of the blocks it takes, the data
      blocks, the indirect block if it links one in, the inode's block if the file grows. */
  ghost function Logs(sb: Super, v: View, w: View, i: nat, size: nat, off: nat, n: nat): set<nat>
    requires i < |w.inds|
  {
    Bits(sb, New(v, w)) + Touched(w, i, off, n) + (if Links(size, off, n) then {w.inds[i]} else {})
    + (if Grows(size, off, n) then {IBlock(sb, i)} else {})
  }

  /** How many these are, for a given number of bitmap blocks. */
  function Cost(bits: nat, size: nat, off: nat, n: nat): nat {
    bits + Span(off, n) + (if Links(size, off, n) then 1 else 0) + (if Grows(size, off, n) then 1 else 0)
  }

  lemma TakesIs(sb: Super, s: Snap, i: nat, off: nat, n: nat)
    requires Settled(sb, s.disk, s.inodes, s.v) && i < |s.inodes| && i < |s.v.inds|
    ensures Takes(Ceil(s.inodes[i].size), Max(Ceil(s.inodes[i].size), Ceil(off + n)), s.v.inds[i]) == Allocates(s.inodes[i].size, off, n)
  {
    hide Ceil;
    SettledSizes(sb, s.disk, s.inodes, s.v);
    assert FileSettled(s.inodes[i], s.v.maps[i], s.v.inds[i]);
    if Ceil(s.inodes[i].size) > NDIRECT {
      IndThere(sb, s, i, Ceil(s.inodes[i].size));
    }
  }

  /** The exact set, and that the blocks taken are the lowest free ones. */
  lemma WriteLogs(sb: Super, s: Snap, t: Snap, i: nat, off: nat, src: seq<Byte>)
    requires Settled(sb, s.disk, s.inodes, s.v) && i < |s.inodes| && i < |s.v.maps| && off <= s.inodes[i].size
    requires Progress(sb, s, t, i, off, File(s.disk, s.inodes, s.v, i), src, Ceil(s.inodes[i].size))
    ensures i < |t.v.inds| && Lowest(s.v, New(s.v, t.v)) && |New(s.v, t.v)| == Allocates(s.inodes[i].size, off, |src|)
    ensures t.logged + (if Grows(s.inodes[i].size, off, |src|) then {IBlock(sb, i)} else {})
      == s.logged + Logs(sb, s.v, t.v, i, s.inodes[i].size, off, |src|)
  {
    hide Content, Overwrite, Span, Ceil, Rel, Grew, OthersKept, SameInodes, Lowest, New, Bits, FrontKept, Dense, Touched;
    SettledSizes(sb, s.disk, s.inodes, s.v);
    TakesIs(sb, s, i, off, |src|);
  }

  /** The parts of that set have no block in common. */
  lemma LogsSize(sb: Super, disk: Disk, inodes: seq<Inode>, v: View, w: View, i: nat, size: nat, off: nat, n: nat)
    requires Rel(sb, disk, inodes, w) && i < |w.maps| && |v.owner| == |w.owner|
    requires off <= size && off + n <= MAXFILE * BSIZE && Dense(w.maps[i], Max(Ceil(size), Ceil(off + n)))
    ensures i < |w.inds| && |Logs(sb, v, w, i, size, off, n)| == Cost(|Bits(sb, New(v, w))|, size, off, n)
  {
    hide Span, Ceil, Shows, BitsOk, Links, Grows, Dense, Touched, Bits, New, IBlock, Rel;
    Sizes(sb, disk, inodes, w);
    NewInRange(sb, disk, inodes, v, w);
    BitsBound(sb, New(v, w));
    TouchedSize(sb, disk, inodes, w, i, size, off, n);
    LinksThere(sb, disk, inodes, w, i, size, off, n);
    RelLayout(sb, disk, inodes, w);
    IBlockIs(sb, i);
    FourParts(sb, w.owner, Bits(sb, New(v, w)), Touched(w, i, off, n), if Links(size, off, n) then {w.inds[i]} else {},
              if Grows(size, off, n) then {IBlock(sb, i)} else {});
  }

  lemma RelLayout(sb: Super, disk: Disk, inodes: seq<Inode>, w: View)
    requires Rel(sb, disk, inodes, w)
    ensures LayoutOk(sb) && ViewOk(sb, w)
  {
  }

  lemma NewInRange(sb: Super, disk: Disk, inodes: seq<Inode>, v: View, w: View)
    requires Rel(sb, disk, inodes, w)
    ensures forall b :: b in New(v, w) ==> b < sb.size
  {
  }

  lemma FourParts(sb: Super, owner: seq<Owner>, a: set<nat>, t: set<nat>, l: set<nat>, g: set<nat>)
    requires LayoutOk(sb) && |owner| == sb.size
    requires forall x :: x in a ==> sb.bmapstart <= x <= sb.bmapstart + sb.size / BPB
    requires forall x :: x in t ==> sb.nmeta <= x < sb.size && owner[x].Data?
    requires forall x :: x in l ==> sb.nmeta <= x < sb.size && owner[x].Indirect?
    requires forall x :: x in g ==> x < sb.bmapstart
    ensures |a + t + l + g| == |a| + |t| + |l| + |g|
  {
    assert a !! t && (a + t) !! l && (a + t + l) !! g;
    assert |a + t| == |a| + |t|;
    assert |a + t + l| == |a + t| + |l|;
  }

  lemma TouchedSize(sb: Super, disk: Disk, inodes: seq<Inode>, w: View, i: nat, size: nat, off: nat, n: nat)
    requires Rel(sb, disk, inodes, w) && i < |w.maps| && |w.owner| == sb.size
    requires off <= size && off + n <= MAXFILE * BSIZE && Dense(w.maps[i], Max(Ceil(size), Ceil(off + n)))
    ensures |Touched(w, i, off, n)| == Span(off, n)
    ensures forall x :: x in Touched(w, i, off, n) ==> sb.nmeta <= x < sb.size && w.owner[x].Data?
  {
    hide LayoutOk, ViewOk;
    var lo, k := off / BSIZE, Span(off, n);
    if n > 0 {
      BlockOfByte(off + n - 1, off + n);
      assert lo + k - 1 == (off + n - 1) / BSIZE < Ceil(off + n);
    }
    forall bn: nat | lo <= bn < lo + k ensures MapEntry(w, i, bn) != 0 && lo + k <= MAXFILE {
      assert w.maps[i][bn] != 0;
    }
    if k == 0 {
      NoBlocks(w, i, lo);
    } else {
      assert MapEntry(w, i, lo) != 0;
      BlocksOfSize(sb, w, i, lo, k);
    }
  }

  lemma LinksThere(sb: Super, disk: Disk, inodes: seq<Inode>, w: View, i: nat, size: nat, off: nat, n: nat)
    requires Rel(sb, disk, inodes, w) && i < |w.maps| && |w.owner| == sb.size && Dense(w.maps[i], Max(Ceil(size), Ceil(off + n)))
    ensures i < |w.inds| && (Links(size, off, n) ==> sb.nmeta <= w.inds[i] < sb.size && w.owner[w.inds[i]].Indirect?)
  {
    hide Ceil;
    if Links(size, off, n) {
      assert FileOk(w, i) && w.maps[i][NDIRECT] != 0;
      IndirectIsData(sb, w, i);
    }
  }

  /** One chunk of filewrite stays within the reservation of one operation. An unaligned
      first block is one the file already has, which is what saves the eleventh block. */
  lemma ChunkFits(size: nat, off: nat, n: nat, bits: nat)
    requires off <= size && n <= CHUNK && bits <= Allocates(size, off, n)
    ensures Cost(bits, size, off, n) <= MAXOPBLOCKS
    ensures bits <= 3 ==> Cost(bits, size, off, n) <= CHUNKBLOCKS
  {
    ChunkSpan(off, n);
    ChunkAllocates(size, off, n);
  }

  /** The count of what a chunk logs. */
  lemma ChunkCounted(sb: Super, disk: Disk, inodes: seq<Inode>, v: View, w: View, i: nat, size: nat, off: nat, n: nat)
    requires Settled(sb, disk, inodes, w) && i < |inodes| && |v.owner| == sb.size && inodes[i].size == Max(size, off + n)
    requires off <= size && off + n <= MAXFILE * BSIZE && n <= CHUNK && |New(v, w)| == Allocates(size, off, n)
    ensures i < |w.inds| && |Logs(sb, v, w, i, size, off, n)| == Cost(|Bits(sb, New(v, w))|, size, off, n) <= MAXOPBLOCKS
    ensures sb.size / BPB + 1 <= 3 ==> |Logs(sb, v, w, i, size, off, n)| <= CHUNKBLOCKS
  {
    hide Ceil, Dense, Rel, OnDisk, New, Bits, Allocates, Cost, Logs;
    SettledSizes(sb, disk, inodes, w);
    SettledOwners(sb, disk, inodes, w);
    assert FileSettled(inodes[i], w.maps[i], w.inds[i]);
    CeilGrows(size, off + n);
    LogsSize(sb, disk, inodes, v, w, i, size, off, n);
    NewInRange(sb, disk, inodes, v, w);
    BitsBound(sb, New(v, w));
    ChunkFits(size, off, n, |Bits(sb, New(v, w))|);
  }

  /** The reservation is used up to the last block: a file whose twelfth block has just been
      started, where the four lowest free blocks have their bits in four different blocks. */
  lemma FullChunk(sb: Super, v: View, taken: set<nat>, low: set<nat>)
    requires taken <= FreeSet(v) && Lowest(v, taken) && |taken| == Allocates(11 * BSIZE + 1, 11 * BSIZE + 1, CHUNK)
    requires low <= FreeSet(v) && Lowest(v, low) && |low| == 4
    requires forall b, c :: b in low && c in low && b != c ==> BBlock(sb.bmapstart, b) != BBlock(sb.bmapstart, c)
    ensures Cost(|Bits(sb, taken)|, 11 * BSIZE + 1, 11 * BSIZE + 1, CHUNK) == MAXOPBLOCKS
  {
    LowestUnique(v, taken, low);
    BitsAllDifferent(sb, low);
  }

  lemma ChunkSpan(off: nat, n: nat)
    requires n <= CHUNK
    ensures Span(off, n) <= 4
  {
  }

  lemma ChunkAllocates(size: nat, off: nat, n: nat)
    requires off <= size && n <= CHUNK
    ensures Allocates(size, off, n) <= 4
  {
    assert Ceil(off) <= Ceil(size);
    assert Ceil(off + n) <= Ceil(off) + 3;
  }

  /** Every one of these transactions stays within its reservation. */
  ghost predicate Budgeted(sb: Super, txns: seq<set<nat>>) {
    forall k :: 0 <= k < |txns| ==> |txns[k]| <= MAXOPBLOCKS && (sb.size / BPB + 1 <= 3 ==> |txns[k]| <= CHUNKBLOCKS)
  }

  lemma NoBudget(sb: Super)
    ensures Budgeted(sb, [])
  {
  }

  lemma BudgetMore(sb: Super, txns: seq<set<nat>>, t: set<nat>)
    requires Budgeted(sb, txns) && |t| <= MAXOPBLOCKS && (sb.size / BPB + 1 <= 3 ==> |t| <= CHUNKBLOCKS)
    ensures Budgeted(sb, txns + [t])
  {
  }

  /** A write of n bytes at off to a file of that size is not refused. */
  predicate Fits(size: nat, off: nat, n: nat) { off <= size && off + n <= MAXFILE * BSIZE }

  lemma OverwriteNothing(c: seq<Byte>, off: nat)
    requires off <= |c|
    ensures Overwrite(c, off, []) == c
  {
  }

  /** How much of n bytes goes into whole chunks. */
  function WholeChunks(n: nat): nat { n / CHUNK * CHUNK }

  lemma WholeChunksAre(n: nat, k: nat)
    requires k % CHUNK == 0 && k <= n < k + CHUNK
    ensures WholeChunks(n) == k
  {
  }
}
