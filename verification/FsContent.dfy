/** What bmap changes, what the files hold, and how little of it each step disturbs. */
module FsContent {
  import opened Blocks
  import opened Bitmap
  import opened FsModel
  import opened FsInv
  import opened FsInode

  /** File data and inodes stay where they are while blocks are being handed out. */
  ghost predicate DataKept(sb: Super, owner: seq<Owner>, disk: Disk, disk': Disk) {
    && FrontKept(sb, disk, disk')
    && forall b: nat :: b < |owner| && b < |disk| && owner[b].Data? ==> disk'[b] == disk[b]
  }

  /** File i may have got more blocks; nothing else about any file is different. */
  ghost predicate Grew(v: View, w: View, i: nat) {
    && |w.maps| == |v.maps| && |w.inds| == |v.inds| && |w.owner| == |v.owner|
    && (forall j: nat :: j < |v.maps| && j != i ==> w.maps[j] == v.maps[j])
    && (forall j: nat :: j < |v.inds| && j != i ==> w.inds[j] == v.inds[j])
    && (i < |v.inds| && v.inds[i] != 0 ==> w.inds[i] == v.inds[i])
    && (i < |v.maps| ==> |w.maps[i]| == |v.maps[i]|)
    && (i < |v.maps| ==> forall bn: nat :: bn < |v.maps[i]| && v.maps[i][bn] != 0 ==> w.maps[i][bn] == v.maps[i][bn])
    && (forall b: nat :: b < |v.owner| && v.owner[b] != Free ==> w.owner[b] == v.owner[b])
  }

  ghost predicate Added(v: View, w: View, i: nat, bn: nat, b: nat) {
    && i < |v.maps| == |v.inds| && bn < |v.maps[i]| && v.maps[i][bn] == 0 && b < |v.owner| && v.owner[b] == Free
    && w == AddData(v, i, bn, b)
  }

  ghost predicate AddedIndirect(v: View, w: View, i: nat, b: nat) {
    && i < |v.maps| == |v.inds| && v.inds[i] == 0 && b < |v.owner| && v.owner[b] == Free
    && w == AddIndirect(v, i, b)
  }

  lemma AddedGrew(v: View, w: View, i: nat, bn: nat, b: nat)
    requires Added(v, w, i, bn, b) || AddedIndirect(v, w, i, b)
    ensures Grew(v, w, i)
  {
  }

  lemma AllocKeepsData(sb: Super, disk: Disk, inodes: seq<Inode>, v: View, b: nat)
    requires Rel(sb, disk, inodes, v) && b < sb.size && v.owner[b] == Free
    ensures BBlock(sb.bmapstart, b) < |disk| && DataKept(sb, v.owner, disk, AllocDisk(sb, disk, b))
  {
    hide BitsOk, Shows;
    Sizes(sb, disk, inodes, v);
    BBlockIsMeta(sb, b);
    assert BlockOk(v, sb.nmeta, BBlock(sb.bmapstart, b)) && BlockOk(v, sb.nmeta, b);
  }

  lemma LinkKeepsData(sb: Super, disk: Disk, inodes: seq<Inode>, v: View, i: nat, k: nat, b: nat)
    requires Rel(sb, disk, inodes, v) && b < sb.size && v.owner[b] == Free && i < |v.maps|
    requires k < NINDIRECT && v.inds[i] != 0
    ensures BBlock(sb.bmapstart, b) < |disk| && b < |disk| && v.inds[i] < |disk|
    ensures DataKept(sb, v.owner, disk, LinkDisk(sb, disk, v.inds[i], k, b))
  {
    hide PutWord, AllocDisk, ViewOk, BitsOk, Shows;
    Sizes(sb, disk, inodes, v);
    AllocKeepsData(sb, disk, inodes, v, b);
    IndirectBlock(sb, v, i);
  }

  lemma IndirectBlock(sb: Super, v: View, i: nat)
    requires LayoutOk(sb) && ViewOk(sb, v) && i < |v.inds| && v.inds[i] != 0
    ensures sb.bmapstart < sb.nmeta <= v.inds[i] < sb.size && v.owner[v.inds[i]] == Indirect(i)
  {
    IndirectIsData(sb, v, i);
    assert FileOk(v, i);
  }

  ghost function MapEntry(v: View, i: nat, bn: nat): nat {
    if i < |v.maps| && bn < |v.maps[i]| then v.maps[i][bn] else 0
  }

  /** Only the addresses in inode i may differ. */
  ghost predicate SameInodes(was: seq<Inode>, now: seq<Inode>, i: nat) {
    && |now| == |was|
    && (forall j: nat :: j < |was| && j != i ==> now[j] == was[j])
    && (i < |was| ==> now[i].(addrs := []) == was[i].(addrs := []))
  }

  lemma SameTwice(a: seq<Inode>, b: seq<Inode>, c: seq<Inode>, i: nat)
    requires SameInodes(a, b, i) && SameInodes(b, c, i)
    ensures SameInodes(a, c, i)
  {
  }

  lemma FreeIsPositive(sb: Super, disk: Disk, inodes: seq<Inode>, v: View, b: nat)
    requires Rel(sb, disk, inodes, v) && b < |v.owner| && v.owner[b] == Free
    ensures b > 0
  {
    assert BlockOk(v, sb.nmeta, b);
  }

  /** What the disk says about block bn is what the view says. */
  lemma EntryIs(sb: Super, disk: Disk, inodes: seq<Inode>, v: View, i: nat, bn: nat)
    requires Rel(sb, disk, inodes, v) && i < |inodes| && bn < MAXFILE
    ensures |inodes[i].addrs| == NDIRECT + 1 && inodes[i].addrs[NDIRECT] == v.inds[i] < |disk|
    ensures |v.maps[i]| == MAXFILE && Entry(disk, inodes[i], bn) == MapEntry(v, i, bn) == v.maps[i][bn] < |disk|
    ensures bn >= NDIRECT && MapEntry(v, i, bn) != 0 ==> v.inds[i] != 0
    ensures MapEntry(v, i, bn) != 0 ==> MapEntry(v, i, bn) != v.inds[i]
  {
    assert FileOk(v, i) && Shows(disk, inodes[i], v.maps[i], v.inds[i]);
  }

  /** The bit that balloc looks at belongs to block b + bi. */
  lemma BitOf(sb: Super, disk: Disk, owner: seq<Owner>, b: nat, bi: nat)
    requires LayoutOk(sb) && BitsOk(sb, disk, owner) && b % BPB == 0 && bi < BPB && b + bi < sb.size
    ensures |disk| == sb.size == |owner|
    ensures BBlock(sb.bmapstart, b) == BBlock(sb.bmapstart, b + bi) < |disk| && (b + bi) % BPB == bi
    ensures Test(disk[BBlock(sb.bmapstart, b)][bi / 8], bi % 8) <==> owner[b + bi] != Free
  {
    hide Test;
    BitParts(b + bi);
    assert b + bi == BPB * (b / BPB) + bi;
    assert Marked(disk, sb.bmapstart, b + bi) <==> owner[b + bi] != Free;
  }

  // --------------------------------------------------- which blocks are new

  ghost function FreeSet(v: View): set<nat> { set b: nat | b < |v.owner| && v.owner[b] == Free }

  /** The blocks that were free and are not any more. */
  ghost function New(v: View, w: View): set<nat> {
    set b: nat | b < |v.owner| && b < |w.owner| && v.owner[b] == Free && w.owner[b] != Free
  }

  /** The bitmap blocks of the blocks in s. */
  ghost function Bits(sb: Super, s: set<nat>): set<nat> { set b | b in s :: BBlock(sb.bmapstart, b) }

  /** No free block outside s is lower than one in s. */
  ghost predicate Lowest(v: View, s: set<nat>) {
    forall b, c :: b in s && c in FreeSet(v) && c !in s ==> b < c
  }

  lemma AddedNew(v: View, w: View, i: nat, bn: nat, b: nat)
    requires Added(v, w, i, bn, b) || AddedIndirect(v, w, i, b)
    requires forall c: nat :: c < |v.owner| && c < b ==> v.owner[c] != Free
    ensures New(v, w) == {b} && Lowest(v, {b}) && FreeSet(v) == FreeSet(w) + {b} && b !in FreeSet(w)
  {
  }

  lemma BitsUnion(sb: Super, s: set<nat>, t: set<nat>)
    ensures Bits(sb, s + t) == Bits(sb, s) + Bits(sb, t) && Bits(sb, {}) == {}
  {
  }

  lemma NothingNew(sb: Super, v: View)
    ensures New(v, v) == {} && Lowest(v, {}) && Bits(sb, {}) == {}
  {
  }

  lemma NewTwice(v0: View, v1: View, v2: View, i: nat)
    requires Grew(v0, v1, i) && Grew(v1, v2, i) && Lowest(v0, New(v0, v1)) && Lowest(v1, New(v1, v2))
    ensures New(v0, v2) == New(v0, v1) + New(v1, v2) && New(v0, v1) !! New(v1, v2)
    ensures |New(v0, v2)| == |New(v0, v1)| + |New(v1, v2)| && Lowest(v0, New(v0, v2))
  {
    var a, b := New(v0, v1), New(v1, v2);
    assert New(v0, v2) == a + b;
    forall x, c | x in a + b && c in FreeSet(v0) && c !in a + b ensures x < c {
      assert c in FreeSet(v1);
    }
  }

  /** A set of free blocks below all others is determined by its size. */
  lemma LowestUnique(v: View, s: set<nat>, t: set<nat>)
    requires s <= FreeSet(v) && t <= FreeSet(v) && Lowest(v, s) && Lowest(v, t) && |s| == |t|
    ensures s == t
  {
    assert forall x, y :: x in s && x !in t && y in t && y !in s ==> x < y < x;
    assert s - t == {} || t - s == {};
    assert |s - t| == |s| - |s * t| && |t - s| == |t| - |s * t|;
  }

  lemma BitsBound(sb: Super, s: set<nat>)
    requires forall b :: b in s ==> b < sb.size
    ensures |Bits(sb, s)| <= Min(|s|, sb.size / BPB + 1)
    ensures forall x :: x in Bits(sb, s) ==> sb.bmapstart <= x <= sb.bmapstart + sb.size / BPB
  {
    BitsFewer(sb, s);
    forall x | x in Bits(sb, s) ensures sb.bmapstart <= x <= sb.bmapstart + sb.size / BPB {
      var b :| b in s && x == BBlock(sb.bmapstart, b);
      assert b / BPB <= sb.size / BPB;
    }
    InInterval(Bits(sb, s), sb.bmapstart, sb.size / BPB + 1);
  }

  lemma {:induction false} BitsFewer(sb: Super, s: set<nat>)
    ensures |Bits(sb, s)| <= |s|
    decreases |s|
  {
    if s != {} {
      var b :| b in s;
      BitsFewer(sb, s - {b});
      BitsUnion(sb, s - {b}, {b});
      assert s == (s - {b}) + {b} && Bits(sb, {b}) == {BBlock(sb.bmapstart, b)};
    } else {
      assert Bits(sb, s) == {};
    }
  }

  /** As many bitmap blocks as blocks, if no two of them share one. */
  lemma {:induction false} BitsAllDifferent(sb: Super, s: set<nat>)
    requires forall b, c :: b in s && c in s && b != c ==> BBlock(sb.bmapstart, b) != BBlock(sb.bmapstart, c)
    ensures |Bits(sb, s)| == |s|
    decreases |s|
  {
    if s != {} {
      var b :| b in s;
      BitsAllDifferent(sb, s - {b});
      BitsUnion(sb, s - {b}, {b});
      assert s == (s - {b}) + {b} && Bits(sb, {b}) == {BBlock(sb.bmapstart, b)};
    } else {
      assert Bits(sb, s) == {};
    }
  }

  lemma {:induction false} InInterval(s: set<nat>, lo: nat, len: nat)
    requires forall x :: x in s ==> lo <= x < lo + len
    ensures |s| <= len
    decreases len
  {
    if len > 0 {
      var last := lo + len - 1;
      InInterval(s - {last}, lo, len - 1);
      assert s <= (s - {last}) + {last};
    } else {
      assert s == {};
    }
  }

  lemma {:induction false} Smaller(a: set<nat>, b: set<nat>)
    requires a <= b
    ensures |a| <= |b|
    decreases |a|
  {
    if a != {} {
      var x :| x in a;
      Smaller(a - {x}, b - {x});
    }
  }

  // ------------------------------------------------------------ whole files

  /** The map has the blocks 0 to nb - 1 and no others. */
  ghost predicate Dense(m: seq<nat>, nb: nat) {
    |m| == MAXFILE && nb <= MAXFILE && forall bn: nat :: bn < MAXFILE ==> (m[bn] != 0 <==> bn < nb)
  }

  /** Between operations: a file has exactly the blocks its size needs. */
  ghost predicate FileSettled(ip: Inode, m: seq<nat>, ind: nat) {
    ip.size <= MAXFILE * BSIZE && Dense(m, Ceil(ip.size)) && (ind != 0 ==> Ceil(ip.size) > NDIRECT)
  }

  ghost predicate Settled(sb: Super, disk: Disk, inodes: seq<Inode>, v: View) {
    && Rel(sb, disk, inodes, v) && OnDisk(sb, disk, inodes)
    && forall i: nat :: i < |inodes| && i < |v.maps| && i < |v.inds| ==> FileSettled(inodes[i], v.maps[i], v.inds[i])
  }

  lemma SettledSizes(sb: Super, disk: Disk, inodes: seq<Inode>, v: View)
    requires Settled(sb, disk, inodes, v)
    ensures |inodes| == |v.maps| == |v.inds| && |disk| == |v.owner| && Rel(sb, disk, inodes, v) && OnDisk(sb, disk, inodes)
    ensures forall i: nat :: i < |inodes| ==> FileSettled(inodes[i], v.maps[i], v.inds[i])
  {
    Sizes(sb, disk, inodes, v);
  }

  /** The bytes of file i. */
  ghost function File(disk: Disk, inodes: seq<Inode>, v: View, i: nat): seq<Byte>
    requires i < |inodes| && i < |v.maps|
  {
    Content(disk, v.maps[i], inodes[i].size)
  }

  /** The data of files other than i is where it was. */
  ghost predicate OthersKept(v: View, disk: Disk, disk': Disk, i: nat) {
    && |disk| == |disk'|
    && forall b: nat :: b < |v.owner| && b < |disk| && v.owner[b].Data? && v.owner[b].i != i ==> disk'[b] == disk[b]
  }

  lemma MapDistinct(sb: Super, v: View, i: nat, bn: nat, bm: nat)
    requires ViewOk(sb, v) && LayoutOk(sb) && i < |v.maps| && bn < MAXFILE && bm < MAXFILE && bm != bn && MapEntry(v, i, bn) != 0
    ensures |v.maps[i]| == MAXFILE && v.maps[i][bn] != v.maps[i][bm]
    ensures sb.nmeta <= v.maps[i][bn] < sb.size && v.owner[v.maps[i][bn]] == Data(i, bn)
  {
    assert FileOk(v, i) && BlockOk(v, sb.nmeta, v.maps[i][bn]);
  }

  lemma MapInRange(sb: Super, disk: Disk, inodes: seq<Inode>, v: View, i: nat, bn: nat)
    requires Rel(sb, disk, inodes, v) && i < |v.maps| && bn < MAXFILE
    ensures bn < |v.maps[i]| && v.maps[i][bn] < |disk| && MapEntry(v, i, bn) == v.maps[i][bn]
  {
    assert FileOk(v, i);
    assert |disk| > 0;
  }

  /** Handing out blocks changes no byte that a file already has. */
  lemma GrewContent(sb: Super, disk: Disk, inodes: seq<Inode>, v: View, disk': Disk, w: View, i: nat, j: nat, n: nat)
    requires Rel(sb, disk, inodes, v) && j < |v.maps| && n <= MAXFILE * BSIZE
    requires forall bn: nat :: bn < Ceil(n) ==> MapEntry(v, j, bn) != 0
    requires Grew(v, w, i) && j < |w.maps| && |w.maps[j]| == |v.maps[j]| && |disk'| == |disk|
    requires forall b: nat :: b < |v.owner| && b < |disk| && v.owner[b].Data? && v.owner[b].i == j ==> disk'[b] == disk[b]
    ensures Content(disk', w.maps[j], n) == Content(disk, v.maps[j], n)
  {
    Sizes(sb, disk, inodes, v);
    assert FileOk(v, j);
    forall k: nat | k < n ensures ByteAt(disk', w.maps[j], k) == ByteAt(disk, v.maps[j], k) {
      BlockOfByte(k, n);
      assert MapEntry(v, j, k / BSIZE) != 0;
    }
  }

  lemma KeptTwice(v0: View, v1: View, v2: View, d0: Disk, d1: Disk, d2: Disk, i: nat)
    requires Grew(v0, v1, i) && Grew(v1, v2, i) && |d0| == |v0.owner|
    requires OthersKept(v0, d0, d1, i) && OthersKept(v1, d1, d2, i)
    ensures Grew(v0, v2, i) && OthersKept(v0, d0, d2, i)
  {
  }

  lemma DataTwice(sb: Super, v0: View, v1: View, d0: Disk, d1: Disk, d2: Disk, i: nat)
    requires Grew(v0, v1, i) && |d0| == |v0.owner| && DataKept(sb, v0.owner, d0, d1) && DataKept(sb, v1.owner, d1, d2)
    ensures DataKept(sb, v0.owner, d0, d2)
  {
  }

  /** Writing a block of file i leaves the other files and the inodes alone. */
  lemma WriteOthers(sb: Super, v: View, disk: Disk, i: nat, bn: nat, blk: Block)
    requires ViewOk(sb, v) && LayoutOk(sb) && |disk| == sb.size && i < |v.maps| && bn < MAXFILE && MapEntry(v, i, bn) != 0
    ensures bn < |v.maps[i]| && v.maps[i][bn] < |disk| && OthersKept(v, disk, disk[v.maps[i][bn] := blk], i)
    ensures FrontKept(sb, disk, disk[v.maps[i][bn] := blk])
  {
    assert FileOk(v, i) && BlockOk(v, sb.nmeta, v.maps[i][bn]);
  }

  /** The write of one piece, as file i sees it: n bytes before, off within them. */
  lemma PieceWritten(sb: Super, disk: Disk, inodes: seq<Inode>, v: View, i: nat, n: nat, off: nat, d: seq<Byte>, blk: Block)
    requires Rel(sb, disk, inodes, v) && i < |v.maps| && off <= n && off / BSIZE < MAXFILE && MapEntry(v, i, off / BSIZE) != 0
    requires off / BSIZE < |v.maps[i]| && v.maps[i][off / BSIZE] < |disk|
    requires Copied(disk[v.maps[i][off / BSIZE]], blk, off % BSIZE, d)
    ensures var c := Overwrite(Content(disk, v.maps[i], n), off, d);
      Content(disk[v.maps[i][off / BSIZE] := blk], v.maps[i], |c|) == c
    ensures Rel(sb, disk[v.maps[i][off / BSIZE] := blk], inodes, v)
    ensures OthersKept(v, disk, disk[v.maps[i][off / BSIZE] := blk], i) && FrontKept(sb, disk, disk[v.maps[i][off / BSIZE] := blk])
  {
    hide Content, Copied, Overwrite;
    var m, bn := v.maps[i], off / BSIZE;
    Sizes(sb, disk, inodes, v);
    FileOf(sb, v, i);
    forall bm: nat | bm < |m| && bm != bn ensures m[bm] != m[bn] {
      MapDistinct(sb, v, i, bn, bm);
    }
    WriteContent(disk, m, n, off, d, blk);
    WriteKeeps(sb, disk, inodes, v, i, bn, blk);
    WriteOthers(sb, v, disk, i, bn, blk);
  }

  lemma GrewSelf(v: View, i: nat)
    ensures Grew(v, v, i)
  {
  }

  lemma OverwriteLength(c: seq<Byte>, off: nat, d: seq<Byte>)
    requires off <= |c|
    ensures |Overwrite(c, off, d)| == Max(|c|, off + |d|)
  {
  }

  /** Where the next byte of a file goes: a block it has, or the one after its last. */
  lemma NextBlock(off: nat, n: nat, nb: nat)
    requires off <= n && Ceil(n) <= nb
    ensures off / BSIZE <= nb && (off < n ==> off / BSIZE < nb) && (off / BSIZE == nb ==> off == n)
  {
    if off < n {
      BlockOfByte(off, n);
    }
  }

  lemma CeilAfter(off: nat, len: nat, n: nat, nb: nat)
    requires off <= n && Ceil(n) <= nb && 0 < len && off % BSIZE + len <= BSIZE
    ensures Ceil(off + len) == off / BSIZE + 1
    ensures Ceil(if off + len < n then n else off + len) <= if off / BSIZE < nb then nb else off / BSIZE + 1
  {
  }

  /** One round of the loop of readi. */
  lemma PieceOf(disk: Disk, m: seq<nat>, n: nat, off: nat, len: nat)
    requires off + len <= n && off % BSIZE + len <= BSIZE && off / BSIZE < |m| && m[off / BSIZE] < |disk|
    ensures disk[m[off / BSIZE]][off % BSIZE..off % BSIZE + len] == Content(disk, m, n)[off..off + len]
  {
    var piece := disk[m[off / BSIZE]][off % BSIZE..off % BSIZE + len];
    forall k: nat | k < len ensures piece[k] == Content(disk, m, n)[off + k] {
      InBlock(off, k);
    }
  }

  lemma InBlock(off: nat, k: nat)
    requires off % BSIZE + k < BSIZE
    ensures (off + k) / BSIZE == off / BSIZE && (off + k) % BSIZE == off % BSIZE + k
  {
  }

  function Max(a: nat, b: nat): nat { if a < b then b else a }
  function Min(a: nat, b: nat): nat { if a < b then a else b }
}
