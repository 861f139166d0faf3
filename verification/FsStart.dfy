/** The file system mkfs starts from: no file has blocks, and the bitmap marks the metadata. */
module FsStart {
  import opened Blocks
  import opened Bitmap
  import opened FsModel
  import opened FsInv
  import opened FsInode
  import opened FsContent
  import opened FsTrunc

  lemma {:induction false} NoBits(k: nat)
    ensures !Test(0, k)
  {
    if k > 0 {
      NoBits(k - 1);
    }
  }

  /** Bit bi of a bitmap block. */
  predicate BitIn(blk: Block, bi: nat)
    requires bi < BPB
  {
    Test(blk[bi / 8], bi % 8)
  }

  lemma MarkBit(blk: Block, b: nat, c: nat)
    requires b < BPB && c < BPB
    ensures BitIn(MarkIn(blk, b), c) <==> c == b || BitIn(blk, c)
  {
    MarkOne([blk], 0, b, c);
    assert b % BPB == b && c % BPB == c && b / BPB == 0 && c / BPB == 0;
    BitParts(c);
  }

  /** balloc of mkfs: the bitmap block that marks the first used blocks. */
  method InitialBitmap(used: nat) returns (buf: Block)
    requires used < BPB
    ensures forall c :: 0 <= c < BPB ==> (BitIn(buf, c) <==> c < used)
  {
    hide BitIn, MarkIn;
    buf := ZeroBlock();
    forall c | 0 <= c < BPB ensures !BitIn(buf, c) {
      ZeroBit(c);
    }
    var i := 0;
    while i < used
      invariant i <= used && forall c :: 0 <= c < BPB ==> (BitIn(buf, c) <==> c < i)
    {
      forall c | 0 <= c < BPB ensures BitIn(MarkIn(buf, i), c) <==> c == i || BitIn(buf, c) {
        MarkBit(buf, i, c);
      }
      buf := MarkIn(buf, i);
      i := i + 1;
    }
  }

  lemma ZeroBit(c: nat)
    requires c < BPB
    ensures !BitIn(ZeroBlock(), c)
  {
    NoBits(c % 8);
  }

  /** Nobody owns anything but the metadata. */
  ghost function EmptyView(sb: Super): View {
    View(seq(sb.ninodes, _ => Zeros(MAXFILE)), seq(sb.ninodes, _ => 0),
         seq(sb.size, b => if b < sb.nmeta then Meta else Free))
  }

  ghost predicate FreshBitmap(sb: Super, disk: Disk)
    requires LayoutOk(sb) && |disk| == sb.size
  {
    && (forall c :: 0 <= c < BPB ==> (BitIn(disk[sb.bmapstart], c) <==> c < sb.nmeta))
    && forall k :: sb.bmapstart < k < sb.nmeta ==> disk[k] == ZeroBlock()
  }

  lemma FreshBits(sb: Super, disk: Disk)
    requires LayoutOk(sb) && |disk| == sb.size && sb.nmeta < BPB && FreshBitmap(sb, disk)
    ensures BitsOk(sb, disk, EmptyView(sb).owner)
  {
    hide Test, ZeroBlock;
    var owner := EmptyView(sb).owner;
    forall b: nat | b < |owner|
      ensures BBlock(sb.bmapstart, b) < |disk| && (Marked(disk, sb.bmapstart, b) <==> owner[b] != Free)
    {
      BBlockIsMeta(sb, b);
      BitParts(b);
      assert Marked(disk, sb.bmapstart, b) <==> BitIn(disk[BBlock(sb.bmapstart, b)], b % BPB);
      if b >= BPB {
        ZeroBit(b % BPB);
      }
    }
  }

  function NoInode(): Inode { Inode(0, 0, 0, 0, 0, Zeros(NDIRECT + 1)) }

  lemma NoInodeStored(k: nat)
    requires k < IPB
    ensures Dinode(ZeroBlock(), k) == NoInode()
  {
    hide Word, ZeroBlock;
    forall j: nat | j < DWORDS ensures DWord(ZeroBlock(), k, j) == 0 {
      ZeroWord(DWORDS * k + j);
    }
    assert Dinode(ZeroBlock(), k).addrs == Zeros(NDIRECT + 1);
  }

  /** The invariants of the inode layer hold of a disk with an empty bitmap and empty inodes. */
  lemma FreshDisk(sb: Super, disk: Disk)
    requires LayoutOk(sb) && |disk| == sb.size && sb.nmeta < BPB && FreshBitmap(sb, disk)
    requires forall k :: sb.inodestart <= k < sb.bmapstart ==> disk[k] == ZeroBlock()
    ensures var inodes := seq(sb.ninodes, _ => NoInode());
      Settled(sb, disk, inodes, EmptyView(sb)) && Rel(sb, disk, inodes, EmptyView(sb))
  {
    hide FreshBitmap, BitsOk, Shows, Dinode, ZeroBlock, IBlock;
    FreshBits(sb, disk);
    var inodes, v := seq(sb.ninodes, _ => NoInode()), EmptyView(sb);
    forall i: nat | i < |inodes| ensures FileOk(v, i) && Shows(disk, inodes[i], v.maps[i], v.inds[i]) {
      ZeroShows(disk, NoInode());
    }
    forall i: nat | i < |inodes| ensures IBlock(sb, i) < |disk| && Dinode(disk[IBlock(sb, i)], i % IPB) == inodes[i] {
      IBlockIs(sb, i);
      NoInodeStored(i % IPB);
    }
    forall b: nat | b < |v.owner| ensures BlockOk(v, sb.nmeta, b) {
    }
  }

  // ------------------------------------------------------ the root directory

  /** What mkfs makes of the size of the root directory in the end. */
  function RoundedUp(size: nat): nat { (size / BSIZE + 1) * BSIZE }

  const DIRENTSIZE: nat := 16

  /** The root directory then has the blocks its size needs exactly if its entries did not
      fill whole blocks; if they did, its last block is one that a read asks bmap for and
      that is not there. */
  lemma RootRounded(ip: Inode, m: seq<nat>, ind: nat)
    requires FileSettled(ip, m, ind) && RoundedUp(ip.size) <= MAXFILE * BSIZE
    ensures FileSettled(ip.(size := RoundedUp(ip.size)), m, ind) <==> ip.size % BSIZE != 0
    ensures ip.size % BSIZE == 0 ==> ip.size / BSIZE < Ceil(RoundedUp(ip.size)) <= MAXFILE && m[ip.size / BSIZE] == 0
  {
    RoundedBlocks(ip.size);
    if ip.size % BSIZE == 0 {
      assert m[ip.size / BSIZE] == 0;
    }
  }

  lemma RoundedBlocks(size: nat)
    ensures Ceil(RoundedUp(size)) == size / BSIZE + 1
    ensures Ceil(size) == if size % BSIZE == 0 then size / BSIZE else size / BSIZE + 1
  {
  }

  /** With n entries that is a number of entries that is no multiple of 32. */
  lemma RootEntries(n: nat)
    ensures n * DIRENTSIZE % BSIZE != 0 <==> n % 32 != 0
  {
  }
}
