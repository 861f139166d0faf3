/** Inodes, their block maps and who owns each disk block (fs.h, fs.c). */
module FsModel {
  import opened Blocks
  import opened Bitmap

  const NDIRECT: nat := 12
  const NINDIRECT: nat := NWORDS
  const MAXFILE: nat := NDIRECT + NINDIRECT
  const IPB: nat := 8  // BSIZE / sizeof(struct dinode)

  type Short = x: nat | x < 0x1_0000

  /** The superblock; nmeta is the first data block. */
  datatype Super = Super(size: nat, swapstart: nat, nswap: nat, logstart: nat, nlog: nat,
                         inodestart: nat, ninodes: nat, bmapstart: nat, nmeta: nat)

  /** The areas of the disk in their order, none running into the next. */
  ghost predicate LayoutOk(sb: Super) {
    && 2 <= sb.swapstart && sb.swapstart + sb.nswap <= sb.logstart && sb.logstart + sb.nlog <= sb.inodestart
    && sb.inodestart + sb.ninodes / IPB < sb.bmapstart
    && sb.bmapstart + sb.size / BPB < sb.nmeta <= sb.size < 0x1_0000_0000
  }

  datatype Area = Boot | SuperBlock | Swap | Log | Inodes | FreeMap | FileData

  /** Block b may be used as part of the area. */
  ghost predicate In(sb: Super, area: Area, b: nat) {
    match area
    case Boot => b == 0
    case SuperBlock => b == 1
    case Swap => sb.swapstart <= b < sb.swapstart + sb.nswap
    case Log => sb.logstart <= b < sb.logstart + sb.nlog
    case Inodes => exists i: nat :: i < sb.ninodes && b == IBlock(sb, i)
    case FreeMap => exists c: nat :: c < sb.size && b == BBlock(sb.bmapstart, c)
    case FileData => sb.nmeta <= b < sb.size
  }

  /** IBLOCK(i) */
  function IBlock(sb: Super, i: nat): nat { sb.inodestart + i / IPB }

  lemma IBlockIs(sb: Super, i: nat)
    requires LayoutOk(sb) && i < sb.ninodes
    ensures sb.inodestart <= IBlock(sb, i) < sb.bmapstart < sb.nmeta <= sb.size
  {
    assert i / IPB <= sb.ninodes / IPB;
  }

  lemma BBlockIsMeta(sb: Super, b: nat)
    requires LayoutOk(sb) && b < sb.size
    ensures sb.bmapstart <= BBlock(sb.bmapstart, b) < sb.nmeta
  {
    assert b / BPB <= sb.size / BPB;
  }

  /** No block serves two purposes. */
  lemma OneArea(sb: Super, x: Area, y: Area, b: nat)
    requires LayoutOk(sb) && In(sb, x, b) && In(sb, y, b)
    ensures x == y
  {
    hide IBlock, BBlock;
    forall i: nat | i < sb.ninodes ensures sb.inodestart <= IBlock(sb, i) < sb.bmapstart {
      IBlockIs(sb, i);
    }
    forall c: nat | c < sb.size ensures sb.bmapstart <= BBlock(sb.bmapstart, c) < sb.nmeta {
      BBlockIsMeta(sb, c);
    }
  }

  /** What mkfs writes for FSSIZE, NINODES, LOGSIZE and SWAPBLOCKS. */
  function MkfsSuper(): Super {
    var nlog, nswap := 30, 400 * 8;
    var ninodeblocks, nbitmap := 200 / IPB + 1, 10000 / BPB + 1;
    Super(10000, 2, nswap, 2 + nswap, nlog, 2 + nlog + nswap, 200, 2 + nlog + ninodeblocks + nswap,
          2 + nlog + ninodeblocks + nbitmap + nswap)
  }

  /** The layout of mkfs is one of these, and the last block of each area is followed by the
      first of the next; only the last inode block is none. */
  lemma MkfsLayout(b: nat)
    requires b < MkfsSuper().size
    ensures LayoutOk(MkfsSuper())
    ensures (exists area :: In(MkfsSuper(), area, b)) <==> b != 3257
  {
    var sb := MkfsSuper();
    assert sb.inodestart == 3232 && sb.bmapstart == 3258 && sb.nmeta == 3261;
    if b == 0 {
      assert In(sb, Boot, b);
    } else if b == 1 {
      assert In(sb, SuperBlock, b);
    } else if b < 3202 {
      assert In(sb, Swap, b);
    } else if b < 3232 {
      assert In(sb, Log, b);
    } else if b < 3257 {
      assert b == IBlock(sb, 8 * (b - 3232));
      assert In(sb, Inodes, b);
    } else if b == 3257 {
      forall area ensures !In(sb, area, b) {
        if area.FreeMap? {
          forall c: nat | c < sb.size ensures b != BBlock(sb.bmapstart, c) {
          }
        }
      }
    } else if b < 3261 {
      assert b == BBlock(sb.bmapstart, 4096 * (b - 3258));
      assert In(sb, FreeMap, b);
    } else {
      assert In(sb, FileData, b);
    }
  }

  /** What ilock copies from struct dinode. */
  datatype Inode = Inode(kind: Short, major: Short, minor: Short, nlink: Short, size: nat, addrs: seq<nat>)

  /** The block number that bmap finds for block bn, 0 if there is none. */
  function Entry(disk: Disk, ip: Inode, bn: nat): nat
    requires |ip.addrs| == NDIRECT + 1 && ip.addrs[NDIRECT] < |disk| && bn < MAXFILE
  {
    if bn < NDIRECT then ip.addrs[bn]
    else if ip.addrs[NDIRECT] == 0 then 0
    else Word(disk[ip.addrs[NDIRECT]], bn - NDIRECT)
  }

  // --------------------------------------------------------- who owns a block

  datatype Owner = Free | Meta | Data(i: nat, bn: nat) | Indirect(i: nat)

  /** maps[i][bn] is block bn of file i or 0, inds[i] its indirect block or 0. */
  datatype View = View(maps: seq<seq<nat>>, inds: seq<nat>, owner: seq<Owner>)

  ghost predicate FileOk(v: View, i: nat)
    requires i < |v.maps| == |v.inds|
  {
    var m, ind := v.maps[i], v.inds[i];
    && |m| == MAXFILE
    && (forall bn: nat :: bn < MAXFILE && m[bn] != 0 ==> m[bn] < |v.owner| && v.owner[m[bn]] == Data(i, bn))
    && (forall bn: nat :: NDIRECT <= bn < MAXFILE && m[bn] != 0 ==> ind != 0)
    && (ind != 0 ==> ind < |v.owner| && v.owner[ind] == Indirect(i))
  }

  ghost predicate BlockOk(v: View, nmeta: nat, b: nat)
    requires b < |v.owner| && |v.maps| == |v.inds|
  {
    && (v.owner[b] == Meta <==> b < nmeta)
    && match v.owner[b]
       case Data(i, bn) => i < |v.maps| && bn < |v.maps[i]| && v.maps[i][bn] == b
       case Indirect(i) => i < |v.maps| && v.inds[i] == b
       case _ => true
  }

  /** Every block is free, metadata, or owned by exactly one file in exactly one place. */
  ghost predicate ViewOk(sb: Super, v: View) {
    && |v.maps| == |v.inds| == sb.ninodes && |v.owner| == sb.size
    && (forall i: nat :: i < |v.maps| ==> FileOk(v, i))
    && (forall b: nat :: b < |v.owner| ==> BlockOk(v, sb.nmeta, b))
  }

  /** The inode and the disk spell out the map m and the indirect block ind. */
  ghost predicate Shows(disk: Disk, ip: Inode, m: seq<nat>, ind: nat) {
    && |ip.addrs| == NDIRECT + 1 && ip.addrs[NDIRECT] == ind < |disk|
    && |m| == MAXFILE
    && forall bn: nat :: bn < MAXFILE ==> m[bn] == Entry(disk, ip, bn)
  }

  /** The bitmap marks exactly the blocks that are not free. */
  ghost predicate BitsOk(sb: Super, disk: Disk, owner: seq<Owner>)
    requires LayoutOk(sb)
  {
    && |disk| == sb.size == |owner|
    && forall b: nat :: b < |owner| ==> BBlock(sb.bmapstart, b) < |disk| && (Marked(disk, sb.bmapstart, b) <==> owner[b] != Free)
  }

  ghost predicate Rel(sb: Super, disk: Disk, inodes: seq<Inode>, v: View) {
    && LayoutOk(sb) && ViewOk(sb, v) && BitsOk(sb, disk, v.owner)
    && |inodes| == |v.maps|
    && forall i: nat :: i < |inodes| ==> Shows(disk, inodes[i], v.maps[i], v.inds[i])
  }

  // ------------------------------------------------------------------- steps

  /** Block b becomes block bn of file i. */
  function AddData(v: View, i: nat, bn: nat, b: nat): View
    requires i < |v.maps| == |v.inds| && bn < |v.maps[i]| && b < |v.owner|
  {
    var m: seq<nat> := v.maps[i][bn := b];
    v.(maps := v.maps[i := m], owner := v.owner[b := Data(i, bn)])
  }

  function AddIndirect(v: View, i: nat, b: nat): View
    requires i < |v.inds| && b < |v.owner|
  {
    v.(inds := v.inds[i := b], owner := v.owner[b := Indirect(i)])
  }

  lemma AddDataFile(v: View, i: nat, bn: nat, b: nat, j: nat)
    requires i < |v.maps| == |v.inds| && j < |v.maps| && FileOk(v, i) && FileOk(v, j)
    requires b < |v.owner| && v.owner[b] == Free && b != 0
    requires bn < MAXFILE && v.maps[i][bn] == 0 && (bn >= NDIRECT ==> v.inds[i] != 0)
    ensures FileOk(AddData(v, i, bn, b), j)
  {
  }

  lemma AddDataBlock(v: View, nmeta: nat, i: nat, bn: nat, b: nat, c: nat)
    requires i < |v.maps| == |v.inds| && FileOk(v, i) && bn < MAXFILE && v.maps[i][bn] == 0 && nmeta > 0
    requires b < |v.owner| && v.owner[b] == Free && b >= nmeta && c < |v.owner| && BlockOk(v, nmeta, c)
    ensures BlockOk(AddData(v, i, bn, b), nmeta, c)
  {
  }

  lemma AddDataKeeps(sb: Super, v: View, i: nat, bn: nat, b: nat)
    requires ViewOk(sb, v) && LayoutOk(sb) && i < |v.maps| && b < |v.owner| && v.owner[b] == Free
    requires bn < MAXFILE && bn < |v.maps[i]| && v.maps[i][bn] == 0 && (bn >= NDIRECT ==> v.inds[i] != 0)
    ensures ViewOk(sb, AddData(v, i, bn, b))
  {
    assert FileOk(v, i) && BlockOk(v, sb.nmeta, b);
    var w := AddData(v, i, bn, b);
    hide FileOk, BlockOk;
    forall j: nat | j < |w.maps| ensures FileOk(w, j) {
      AddDataFile(v, i, bn, b, j);
    }
    forall c: nat | c < |w.owner| ensures BlockOk(w, sb.nmeta, c) {
      AddDataBlock(v, sb.nmeta, i, bn, b, c);
    }
  }

  lemma AddIndirectFile(v: View, i: nat, b: nat, j: nat)
    requires i < |v.maps| == |v.inds| && j < |v.maps| && FileOk(v, j)
    requires b < |v.owner| && v.owner[b] == Free && b != 0 && v.inds[i] == 0
    ensures FileOk(AddIndirect(v, i, b), j)
  {
  }

  lemma AddIndirectKeeps(sb: Super, v: View, i: nat, b: nat)
    requires ViewOk(sb, v) && LayoutOk(sb) && i < |v.maps| && b < |v.owner| && v.owner[b] == Free
    requires v.inds[i] == 0
    ensures ViewOk(sb, AddIndirect(v, i, b))
  {
    hide FileOk;
    var w := AddIndirect(v, i, b);
    assert BlockOk(v, sb.nmeta, b);
    forall j: nat | j < |w.maps| ensures FileOk(w, j) {
      AddIndirectFile(v, i, b, j);
    }
    forall c: nat | c < |w.owner| ensures BlockOk(w, sb.nmeta, c) {
      assert BlockOk(v, sb.nmeta, c);
    }
  }
}
