/** struct dinode as it lies in the inode blocks: sixteen words, eight inodes to a block. */
module FsInode {
  import opened Blocks
  import opened Bitmap
  import opened FsModel

  const DWORDS: nat := 16  // sizeof(struct dinode) / sizeof(uint)

  ghost predicate Storable(ip: Inode) {
    && |ip.addrs| == NDIRECT + 1 && ip.size < 0x1_0000_0000
    && forall j :: 0 <= j < |ip.addrs| ==> ip.addrs[j] < 0x1_0000_0000
  }

  /** The words of the structure; the four shorts are two to a word. */
  function Fields(ip: Inode): seq<nat> {
    [ip.kind + 0x1_0000 * ip.major, ip.minor + 0x1_0000 * ip.nlink, ip.size] + ip.addrs
  }

  lemma FieldsFit(ip: Inode)
    requires Storable(ip)
    ensures |Fields(ip)| == DWORDS && forall j :: 0 <= j < DWORDS ==> Fields(ip)[j] < 0x1_0000_0000
  {
  }

  function LowShort(w: nat): Short { w % 0x1_0000 }
  function HighShort(w: nat): Short { w / 0x1_0000 % 0x1_0000 }

  /** Word j of the inode at place k. */
  function DWord(blk: Block, k: nat, j: nat): nat
    requires k < IPB && j < DWORDS
  {
    Word(blk, DWORDS * k + j)
  }

  /** The inode at place k of a block, as ilock reads it. */
  function Dinode(blk: Block, k: nat): (ip: Inode)
    requires k < IPB
    ensures |ip.addrs| == NDIRECT + 1
  {
    var w0, w1 := DWord(blk, k, 0), DWord(blk, k, 1);
    var addrs: seq<nat> := seq(NDIRECT + 1, j requires 0 <= j < NDIRECT + 1 => DWord(blk, k, 3 + j));
    Inode(LowShort(w0), HighShort(w0), LowShort(w1), HighShort(w1), DWord(blk, k, 2), addrs)
  }

  /** ws stored from word at on. */
  function PutWords(blk: Block, at: nat, ws: seq<nat>): (r: Block)
    requires at + |ws| <= NWORDS && forall j :: 0 <= j < |ws| ==> ws[j] < 0x1_0000_0000
    ensures forall j {:trigger Word(r, j)} :: 0 <= j < NWORDS ==> Word(r, j) == if at <= j < at + |ws| then ws[j - at] else Word(blk, j)
    decreases |ws|
  {
    if ws == [] then blk else PutWords(PutWord(blk, at, ws[0]), at + 1, ws[1..])
  }

  /** The block with ip at place k, as iupdate writes it. */
  function Encode(blk: Block, k: nat, ip: Inode): Block
    requires k < IPB && Storable(ip)
  {
    FieldsFit(ip);
    PutWords(blk, DWORDS * k, Fields(ip))
  }

  lemma Shorts(a: Short, b: Short)
    ensures LowShort(a + 0x1_0000 * b) == a && HighShort(a + 0x1_0000 * b) == b
  {
  }

  lemma EncodedWord(blk: Block, k: nat, ip: Inode, l: nat, j: nat)
    requires k < IPB && l < IPB && j < DWORDS && Storable(ip)
    ensures |Fields(ip)| == DWORDS && DWord(Encode(blk, k, ip), l, j) == if l == k then Fields(ip)[j] else DWord(blk, l, j)
  {
    hide Word, PutWords;
    FieldsFit(ip);
    assert DWORDS * k <= DWORDS * l + j < DWORDS * k + DWORDS <==> l == k;
  }

  /** What iupdate wrote is what ilock reads. */
  lemma DinodeBack(blk: Block, k: nat, ip: Inode)
    requires k < IPB && Storable(ip)
    ensures Dinode(Encode(blk, k, ip), k) == ip
  {
    hide DWord, LowShort, HighShort, Encode;
    forall j: nat | j < DWORDS ensures DWord(Encode(blk, k, ip), k, j) == Fields(ip)[j] {
      EncodedWord(blk, k, ip, k, j);
    }
    Shorts(ip.kind, ip.major);
    Shorts(ip.minor, ip.nlink);
    assert Dinode(Encode(blk, k, ip), k).addrs == ip.addrs;
  }

  /** And it spares the other inodes of the block. */
  lemma DinodeSpared(blk: Block, k: nat, ip: Inode, l: nat)
    requires k < IPB && l < IPB && l != k && Storable(ip)
    ensures Dinode(Encode(blk, k, ip), l) == Dinode(blk, l)
  {
    hide DWord, LowShort, HighShort, Encode;
    forall j: nat | j < DWORDS ensures DWord(Encode(blk, k, ip), l, j) == DWord(blk, l, j) {
      EncodedWord(blk, k, ip, l, j);
    }
    assert Dinode(Encode(blk, k, ip), l).addrs == Dinode(blk, l).addrs;
  }

  /** The inode blocks hold exactly these inodes. */
  ghost predicate OnDisk(sb: Super, disk: Disk, inodes: seq<Inode>) {
    && LayoutOk(sb) && |disk| == sb.size && |inodes| == sb.ninodes
    && forall i: nat :: i < |inodes| ==> IBlock(sb, i) < |disk| && Dinode(disk[IBlock(sb, i)], i % IPB) == inodes[i]
  }

  /** The disk after iupdate of inode i. */
  function Updated(sb: Super, disk: Disk, i: nat, ip: Inode): Disk
    requires IBlock(sb, i) < |disk| && Storable(ip)
  {
    disk[IBlock(sb, i) := Encode(disk[IBlock(sb, i)], i % IPB, ip)]
  }

  lemma SamePlace(sb: Super, i: nat, j: nat)
    ensures IBlock(sb, i) == IBlock(sb, j) && i % IPB == j % IPB ==> i == j
  {
  }

  /** iupdate brings the disk up to date with inode i, and only with inode i. */
  lemma UpdatedHolds(sb: Super, disk: Disk, inodes: seq<Inode>, i: nat, ip: Inode)
    requires OnDisk(sb, disk, inodes) && i < |inodes| && Storable(ip)
    ensures IBlock(sb, i) < |disk| && OnDisk(sb, Updated(sb, disk, i, ip), inodes[i := ip])
  {
    hide Dinode, Encode, IBlock;
    var blk := disk[IBlock(sb, i)];
    forall j: nat | j < |inodes|
      ensures IBlock(sb, j) < |disk| && Dinode(Updated(sb, disk, i, ip)[IBlock(sb, j)], j % IPB) == inodes[i := ip][j]
    {
      if j == i {
        DinodeBack(blk, i % IPB, ip);
      } else if IBlock(sb, j) == IBlock(sb, i) {
        SamePlace(sb, i, j);
        DinodeSpared(blk, i % IPB, ip, j % IPB);
      }
    }
  }

  /** What lies below the bitmap is the same. */
  ghost predicate FrontKept(sb: Super, disk: Disk, disk': Disk) {
    |disk'| == |disk| && forall b: nat :: b < sb.bmapstart && b < |disk| ==> disk'[b] == disk[b]
  }

  lemma OnDiskKept(sb: Super, disk: Disk, disk': Disk, inodes: seq<Inode>)
    requires OnDisk(sb, disk, inodes) && FrontKept(sb, disk, disk')
    ensures OnDisk(sb, disk', inodes)
  {
    hide Dinode, IBlock;
    forall i: nat | i < |inodes| ensures IBlock(sb, i) < |disk'| && Dinode(disk'[IBlock(sb, i)], i % IPB) == inodes[i] {
      IBlockIs(sb, i);
    }
  }
}
