/** What balloc, bmap, the copy loop of writei and bfree do to the disk, and why the view
    of who owns which block stays right. */
module FsInv {
  import opened Blocks
  import opened Bitmap
  import opened FsModel

  // ---------------------------------------------------------------- balloc

  /** Mark block b and zero it. */
  function AllocDisk(sb: Super, disk: Disk, b: nat): Disk
    requires BBlock(sb.bmapstart, b) < |disk| && b < |disk|
  {
    var k := BBlock(sb.bmapstart, b);
    disk[k := MarkIn(disk[k], b % BPB)][b := ZeroBlock()]
  }

  lemma AllocBits(sb: Super, disk: Disk, owner: seq<Owner>, b: nat, o: Owner)
    requires LayoutOk(sb) && BitsOk(sb, disk, owner) && sb.nmeta <= b < sb.size && o != Free
    ensures BBlock(sb.bmapstart, b) < |disk| && BitsOk(sb, AllocDisk(sb, disk, b), owner[b := o])
  {
    BBlockIsMeta(sb, b);
    var k := BBlock(sb.bmapstart, b);
    var marked := disk[k := MarkIn(disk[k], b % BPB)];
    var disk' := AllocDisk(sb, disk, b);
    forall c: nat | c < |owner|
      ensures BBlock(sb.bmapstart, c) < |disk'| && (Marked(disk', sb.bmapstart, c) <==> owner[b := o][c] != Free)
    {
      BBlockIsMeta(sb, c);
      MarkOne(disk, sb.bmapstart, b, c);
      assert disk'[BBlock(sb.bmapstart, c)] == marked[BBlock(sb.bmapstart, c)];
    }
  }

  /** A free block is neither metadata nor anyone's indirect block. */
  lemma FreeBlockApart(sb: Super, v: View, b: nat, j: nat)
    requires LayoutOk(sb) && ViewOk(sb, v) && b < sb.size && v.owner[b] == Free && j < |v.inds|
    ensures sb.nmeta <= b && v.inds[j] != b && (v.inds[j] != 0 ==> sb.nmeta <= v.inds[j] < sb.size)
  {
    assert BlockOk(v, sb.nmeta, b) && FileOk(v, j);
    if v.inds[j] != 0 {
      assert BlockOk(v, sb.nmeta, v.inds[j]);
    } else {
      assert BlockOk(v, sb.nmeta, 0);
    }
  }

  lemma ShowsKept(disk: Disk, disk': Disk, ip: Inode, m: seq<nat>, ind: nat)
    requires Shows(disk, ip, m, ind) && |disk'| == |disk| && (ind != 0 ==> disk'[ind] == disk[ind])
    ensures Shows(disk', ip, m, ind)
  {
  }

  lemma AllocShows(sb: Super, disk: Disk, inodes: seq<Inode>, v: View, b: nat, j: nat)
    requires Rel(sb, disk, inodes, v) && b < sb.size && v.owner[b] == Free && j < |inodes|
    ensures BBlock(sb.bmapstart, b) < |disk| && Shows(AllocDisk(sb, disk, b), inodes[j], v.maps[j], v.inds[j])
  {
    hide Shows, ViewOk, BitsOk;
    Sizes(sb, disk, inodes, v);
    FreeBlockApart(sb, v, b, j);
    BBlockIsMeta(sb, b);
    ShowsKept(disk, AllocDisk(sb, disk, b), inodes[j], v.maps[j], v.inds[j]);
  }

  lemma Sizes(sb: Super, disk: Disk, inodes: seq<Inode>, v: View)
    requires Rel(sb, disk, inodes, v)
    ensures |disk| == sb.size == |v.owner| && |inodes| == sb.ninodes == |v.maps| == |v.inds|
  {
  }

  // ------------------------------------------------------------------ bmap

  function SetAddr(ip: Inode, k: nat, b: nat): Inode
    requires k < |ip.addrs|
  {
    ip.(addrs := ip.addrs[k := b])
  }

  /** bmap gives a direct block to file i. */
  lemma DirectKeeps(sb: Super, disk: Disk, inodes: seq<Inode>, v: View, i: nat, bn: nat, b: nat)
    requires Rel(sb, disk, inodes, v) && i < |inodes| && b < sb.size && v.owner[b] == Free
    requires bn < NDIRECT && |inodes[i].addrs| == NDIRECT + 1 && |v.maps[i]| == MAXFILE && v.maps[i][bn] == 0
    ensures BBlock(sb.bmapstart, b) < |disk|
    ensures Rel(sb, AllocDisk(sb, disk, b), inodes[i := SetAddr(inodes[i], bn, b)], AddData(v, i, bn, b))
  {
    hide Shows, ViewOk, BitsOk, AllocDisk;
    Sizes(sb, disk, inodes, v);
    FreeBlockApart(sb, v, b, i);
    AllocShows(sb, disk, inodes, v, b, i);
    AllocBits(sb, disk, v.owner, b, Data(i, bn));
    AddDataKeeps(sb, v, i, bn, b);
    var disk', w := AllocDisk(sb, disk, b), AddData(v, i, bn, b);
    var inodes' := inodes[i := SetAddr(inodes[i], bn, b)];
    forall j: nat | j < |inodes'| ensures Shows(disk', inodes'[j], w.maps[j], w.inds[j]) {
      AllocShows(sb, disk, inodes, v, b, j);
      if j == i {
        DirectShows(disk', inodes[i], v.maps[i], v.inds[i], bn, b);
      }
    }
  }

  lemma DirectShows(disk: Disk, ip: Inode, m: seq<nat>, ind: nat, k: nat, b: nat)
    requires Shows(disk, ip, m, ind) && k < NDIRECT
    ensures Shows(disk, SetAddr(ip, k, b), m[k := b], ind)
  {
  }

  /** bmap gives file i its indirect block, full of zeros. */
  lemma IndirectKeeps(sb: Super, disk: Disk, inodes: seq<Inode>, v: View, i: nat, b: nat)
    requires Rel(sb, disk, inodes, v) && i < |inodes| && b < sb.size && v.owner[b] == Free
    requires v.inds[i] == 0 && |inodes[i].addrs| == NDIRECT + 1
    ensures BBlock(sb.bmapstart, b) < |disk|
    ensures Rel(sb, AllocDisk(sb, disk, b), inodes[i := SetAddr(inodes[i], NDIRECT, b)], AddIndirect(v, i, b))
  {
    hide Shows, ViewOk, BitsOk;
    Sizes(sb, disk, inodes, v);
    FreeBlockApart(sb, v, b, i);
    AllocShows(sb, disk, inodes, v, b, i);
    AllocBits(sb, disk, v.owner, b, Indirect(i));
    AddIndirectKeeps(sb, v, i, b);
    var disk', w := AllocDisk(sb, disk, b), AddIndirect(v, i, b);
    var inodes' := inodes[i := SetAddr(inodes[i], NDIRECT, b)];
    forall j: nat | j < |inodes'| ensures Shows(disk', inodes'[j], w.maps[j], w.inds[j]) {
      AllocShows(sb, disk, inodes, v, b, j);
      if j == i {
        assert FileOk(v, i) by { FileOf(sb, v, i); }
        IndirectShows(disk', inodes[i], v.maps[i], b);
      }
    }
  }

  lemma FileOf(sb: Super, v: View, i: nat)
    requires ViewOk(sb, v) && i < |v.maps|
    ensures FileOk(v, i)
  {
  }

  lemma ZeroWord(k: nat)
    requires k < NWORDS
    ensures Word(ZeroBlock(), k) == 0
  {
  }

  lemma IndirectShows(disk: Disk, ip: Inode, m: seq<nat>, b: nat)
    requires Shows(disk, ip, m, 0) && b < |disk| && b != 0 && disk[b] == ZeroBlock()
    ensures Shows(disk, SetAddr(ip, NDIRECT, b), m, b)
  {
    hide Word, ZeroBlock;
    var ip' := SetAddr(ip, NDIRECT, b);
    forall bn: nat | bn < MAXFILE ensures m[bn] == Entry(disk, ip', bn) {
      assert m[bn] == Entry(disk, ip, bn);
      if bn >= NDIRECT {
        ZeroWord(bn - NDIRECT);
      }
    }
  }

  /** The disk after bmap has put b into slot k of the indirect block. */
  function LinkDisk(sb: Super, disk: Disk, ind: nat, k: nat, b: nat): Disk
    requires BBlock(sb.bmapstart, b) < |disk| && b < |disk| && ind < |disk| && k < NINDIRECT && b < 0x1_0000_0000
  {
    AllocDisk(sb, disk, b)[ind := PutWord(disk[ind], k, b)]
  }

  /** bmap gives file i a block through its indirect block. */
  lemma LinkKeeps(sb: Super, disk: Disk, inodes: seq<Inode>, v: View, i: nat, bn: nat, b: nat)
    requires Rel(sb, disk, inodes, v) && i < |inodes| && b < sb.size && v.owner[b] == Free
    requires NDIRECT <= bn < MAXFILE && v.inds[i] != 0 && |v.maps[i]| == MAXFILE && v.maps[i][bn] == 0
    ensures BBlock(sb.bmapstart, b) < |disk| && v.inds[i] < |disk| && b < |disk|
    ensures Rel(sb, LinkDisk(sb, disk, v.inds[i], bn - NDIRECT, b), inodes, AddData(v, i, bn, b))
  {
    hide Shows, ViewOk, BitsOk, AllocDisk, PutWord;
    Sizes(sb, disk, inodes, v);
    FreeBlockApart(sb, v, b, i);
    var ind, k := v.inds[i], bn - NDIRECT;
    AllocShows(sb, disk, inodes, v, b, i);
    AllocBits(sb, disk, v.owner, b, Data(i, bn));
    AddDataKeeps(sb, v, i, bn, b);
    var alloc, w := AllocDisk(sb, disk, b), AddData(v, i, bn, b);
    var disk' := LinkDisk(sb, disk, ind, k, b);
    AllocLeaves(sb, disk, b, ind);
    BitsKept(sb, alloc, w.owner, ind, disk'[ind]);
    forall j: nat | j < |inodes| ensures Shows(disk', inodes[j], w.maps[j], w.inds[j]) {
      AllocShows(sb, disk, inodes, v, b, j);
      if j == i {
        LinkShows(alloc, inodes[i], v.maps[i], ind, k, b);
      } else {
        IndirectsApart(sb, v, i, j);
        FreeBlockApart(sb, v, b, j);
        ShowsKept(alloc, disk', inodes[j], v.maps[j], v.inds[j]);
      }
    }
  }

  lemma AllocLeaves(sb: Super, disk: Disk, b: nat, c: nat)
    requires LayoutOk(sb) && |disk| == sb.size && b < sb.size && sb.nmeta <= c < sb.size && c != b
    ensures BBlock(sb.bmapstart, b) < |disk| && |AllocDisk(sb, disk, b)| == |disk|
    ensures AllocDisk(sb, disk, b)[c] == disk[c]
  {
    BBlockIsMeta(sb, b);
  }

  lemma IndirectIsData(sb: Super, v: View, j: nat)
    requires ViewOk(sb, v) && j < |v.maps|
    ensures v.inds[j] != 0 ==> sb.nmeta <= v.inds[j] < sb.size
  {
    assert FileOk(v, j);
    if v.inds[j] != 0 {
      assert BlockOk(v, sb.nmeta, v.inds[j]);
    }
  }

  lemma IndirectsApart(sb: Super, v: View, i: nat, j: nat)
    requires ViewOk(sb, v) && i < |v.maps| && j < |v.maps| && i != j && v.inds[i] != 0
    ensures v.inds[j] != v.inds[i]
  {
    assert FileOk(v, i) && FileOk(v, j);
  }

  lemma BitsKept(sb: Super, disk: Disk, owner: seq<Owner>, b: nat, blk: Block)
    requires LayoutOk(sb) && BitsOk(sb, disk, owner) && sb.nmeta <= b < sb.size
    ensures BitsOk(sb, disk[b := blk], owner)
  {
    var disk' := disk[b := blk];
    forall c: nat | c < |owner|
      ensures BBlock(sb.bmapstart, c) < |disk'| && (Marked(disk', sb.bmapstart, c) <==> owner[c] != Free)
    {
      BBlockIsMeta(sb, c);
      assert disk'[BBlock(sb.bmapstart, c)] == disk[BBlock(sb.bmapstart, c)];
    }
  }

  lemma LinkShows(disk: Disk, ip: Inode, m: seq<nat>, ind: nat, k: nat, b: nat)
    requires Shows(disk, ip, m, ind) && ind != 0 && k < NINDIRECT && b < 0x1_0000_0000
    ensures Shows(disk[ind := PutWord(disk[ind], k, b)], ip, m[NDIRECT + k := b], ind)
  {
    var disk' := disk[ind := PutWord(disk[ind], k, b)];
    forall bn: nat | bn < MAXFILE ensures m[NDIRECT + k := b][bn] == Entry(disk', ip, bn) {
      assert m[bn] == Entry(disk, ip, bn);
    }
  }

  // ------------------------------------------------------- writing file data

  /** A data block may hold anything. */
  lemma WriteKeeps(sb: Super, disk: Disk, inodes: seq<Inode>, v: View, i: nat, bn: nat, blk: Block)
    requires Rel(sb, disk, inodes, v) && i < |inodes| && bn < MAXFILE && |v.maps[i]| == MAXFILE
    requires 0 < v.maps[i][bn] < |disk|
    ensures Rel(sb, disk[v.maps[i][bn] := blk], inodes, v)
  {
    hide Shows, BitsOk;
    Sizes(sb, disk, inodes, v);
    var b := v.maps[i][bn];
    assert FileOk(v, i) && BlockOk(v, sb.nmeta, b);
    BitsKept(sb, disk, v.owner, b, blk);
    forall j: nat | j < |inodes| ensures Shows(disk[b := blk], inodes[j], v.maps[j], v.inds[j]) {
      assert FileOk(v, j);
      ShowsKept(disk, disk[b := blk], inodes[j], v.maps[j], v.inds[j]);
    }
  }

  // ------------------------------------------------------------ file content

  /** Byte k of the file that the map m describes. */
  ghost function ByteAt(disk: Disk, m: seq<nat>, k: nat): Byte {
    if k / BSIZE < |m| && m[k / BSIZE] < |disk| then disk[m[k / BSIZE]][k % BSIZE] else 0
  }

  ghost function Content(disk: Disk, m: seq<nat>, n: nat): (c: seq<Byte>)
    ensures |c| == n
  {
    seq(n, k requires k >= 0 => ByteAt(disk, m, k))
  }

  /** How many blocks n bytes need. */
  function Ceil(n: nat): nat { (n + BSIZE - 1) / BSIZE }

  /** c with d put at off, growing it if d reaches past its end. */
  function Overwrite(c: seq<Byte>, off: nat, d: seq<Byte>): seq<Byte>
    requires off <= |c|
  {
    c[..off] + d + (if off + |d| < |c| then c[off + |d|..] else [])
  }

  lemma OverwriteAt(c: seq<Byte>, off: nat, d: seq<Byte>, k: nat)
    requires off <= |c| && k < |Overwrite(c, off, d)|
    ensures |Overwrite(c, off, d)| == if off + |d| < |c| then |c| else off + |d|
    ensures Overwrite(c, off, d)[k] == if off <= k < off + |d| then d[k - off] else if k < |c| then c[k] else 0
  {
  }

  lemma OverwriteMore(c: seq<Byte>, off: nat, a: seq<Byte>, d: seq<Byte>)
    requires off <= |c|
    ensures off + |a| <= |Overwrite(c, off, a)|
    ensures Overwrite(Overwrite(c, off, a), off + |a|, d) == Overwrite(c, off, a + d)
  {
    var left := Overwrite(Overwrite(c, off, a), off + |a|, d);
    var right := Overwrite(c, off, a + d);
    assert |left| == |right|;
    forall k | 0 <= k < |left| ensures left[k] == right[k] {
      OverwriteAt(Overwrite(c, off, a), off + |a|, d, k);
      OverwriteAt(c, off, a + d, k);
      if k < |Overwrite(c, off, a)| {
        OverwriteAt(c, off, a, k);
      }
    }
  }

  /** The blocks of a file that hold its first n bytes are the same on both disks. */
  ghost predicate SameBlocks(disk: Disk, disk': Disk, m: seq<nat>, n: nat) {
    |disk| == |disk'| && forall bn: nat :: bn < Ceil(n) && bn < |m| && m[bn] < |disk| ==> disk'[m[bn]] == disk[m[bn]]
  }

  lemma ContentKept(disk: Disk, disk': Disk, m: seq<nat>, n: nat)
    requires SameBlocks(disk, disk', m, n)
    ensures Content(disk', m, n) == Content(disk, m, n)
  {
    forall k: nat | k < n ensures ByteAt(disk', m, k) == ByteAt(disk, m, k) {
      BlockOfByte(k, n);
    }
  }

  lemma BlockOfByte(k: nat, n: nat)
    requires k < n
    ensures k / BSIZE < Ceil(n)
  {
    assert k <= n - 1;
    assert k / BSIZE <= (n - 1) / BSIZE;
  }

  /** One piece of the copy loop: blk is block off / BSIZE with d copied over its bytes
      from off % BSIZE on. */
  predicate Copied(was: Block, blk: Block, at: nat, d: seq<Byte>) {
    at + |d| <= BSIZE && blk == was[..at] + d + was[at + |d|..]
  }

  lemma WriteContent(disk: Disk, m: seq<nat>, n: nat, off: nat, d: seq<Byte>, blk: Block)
    requires off <= n && off / BSIZE < |m| && m[off / BSIZE] < |disk|
    requires Copied(disk[m[off / BSIZE]], blk, off % BSIZE, d)
    requires forall bn: nat :: bn < |m| && bn != off / BSIZE ==> m[bn] != m[off / BSIZE] || m[bn] >= |disk|
    ensures Content(disk[m[off / BSIZE] := blk], m, |Overwrite(Content(disk, m, n), off, d)|)
      == Overwrite(Content(disk, m, n), off, d)
  {
    var b := m[off / BSIZE];
    var c := Content(disk, m, n);
    var c' := Overwrite(c, off, d);
    forall k: nat | k < |c'| ensures ByteAt(disk[b := blk], m, k) == c'[k] {
      OverwriteAt(c, off, d, k);
      WriteByte(disk, m, off, d, blk, k);
    }
  }

  lemma WriteByte(disk: Disk, m: seq<nat>, off: nat, d: seq<Byte>, blk: Block, k: nat)
    requires off / BSIZE < |m| && m[off / BSIZE] < |disk|
    requires Copied(disk[m[off / BSIZE]], blk, off % BSIZE, d)
    requires forall bn: nat :: bn < |m| && bn != off / BSIZE ==> m[bn] != m[off / BSIZE] || m[bn] >= |disk|
    ensures ByteAt(disk[m[off / BSIZE] := blk], m, k)
      == if off <= k < off + |d| then d[k - off] else ByteAt(disk, m, k)
  {
    SameBlockAs(off, k);
  }

  lemma SameBlockAs(off: nat, k: nat)
    ensures k / BSIZE == off / BSIZE ==> k - off == k % BSIZE - off % BSIZE
    ensures k / BSIZE != off / BSIZE ==> k < off || k >= off - off % BSIZE + BSIZE
  {
  }

  // -------------------------------------------------------- what it all means

  /** Where inode i keeps a block number: its block k, or for k == MAXFILE its indirect block. */
  ghost predicate Names(disk: Disk, inodes: seq<Inode>, i: nat, k: nat, b: nat) {
    && i < |inodes| && k <= MAXFILE && b != 0
    && |inodes[i].addrs| == NDIRECT + 1 && inodes[i].addrs[NDIRECT] < |disk|
    && (if k == MAXFILE then inodes[i].addrs[NDIRECT] else Entry(disk, inodes[i], k)) == b
  }

  lemma NamesOwner(sb: Super, disk: Disk, inodes: seq<Inode>, v: View, i: nat, k: nat, b: nat)
    requires Rel(sb, disk, inodes, v) && Names(disk, inodes, i, k, b)
    ensures sb.nmeta <= b < sb.size && v.owner[b] == if k == MAXFILE then Indirect(i) else Data(i, k)
  {
    hide BitsOk;
    assert FileOk(v, i) && Shows(disk, inodes[i], v.maps[i], v.inds[i]);
    assert BlockOk(v, sb.nmeta, b);
  }

  /** A block number stands in at most one place of one inode, and it is a data block. */
  lemma OnePlace(sb: Super, disk: Disk, inodes: seq<Inode>, v: View, i: nat, k: nat, j: nat, l: nat, b: nat)
    requires Rel(sb, disk, inodes, v) && Names(disk, inodes, i, k, b) && Names(disk, inodes, j, l, b)
    ensures i == j && k == l && sb.nmeta <= b < sb.size
  {
    NamesOwner(sb, disk, inodes, v, i, k, b);
    NamesOwner(sb, disk, inodes, v, j, l, b);
  }

  /** A bit of the map is set exactly for metadata and for blocks that some inode names. */
  lemma BitmapExact(sb: Super, disk: Disk, inodes: seq<Inode>, v: View, b: nat)
    requires Rel(sb, disk, inodes, v) && b < sb.size
    ensures BBlock(sb.bmapstart, b) < |disk|
    ensures Marked(disk, sb.bmapstart, b) <==> b < sb.nmeta || exists i: nat, k: nat :: Names(disk, inodes, i, k, b)
  {
    hide Marked;
    assert BlockOk(v, sb.nmeta, b) && BlockOk(v, sb.nmeta, 0);
    if i: nat, k: nat :| Names(disk, inodes, i, k, b) {
      NamesOwner(sb, disk, inodes, v, i, k, b);
    } else {
      match v.owner[b]
      case Data(i, k) =>
        assert FileOk(v, i) && Shows(disk, inodes[i], v.maps[i], v.inds[i]);
        assert Names(disk, inodes, i, k, b);
      case Indirect(i) =>
        assert FileOk(v, i) && Shows(disk, inodes[i], v.maps[i], v.inds[i]);
        assert Names(disk, inodes, i, MAXFILE, b);
      case _ =>
    }
  }
}
