/** The inode layer of fs.c and the chunked write of file.c. Blocks are read and written
    through the log, so here they are one array; logged holds the blocks that log_write has
    been given since begin_op. */
module Fs {
  import opened Blocks
  import opened Bitmap
  import opened FsModel
  import opened FsInv
  import opened FsInode
  import opened FsContent
  import opened FsWrite
  import opened FsTrunc

  datatype Got = Got(addr: nat) | Panic(why: string)

  /** What readi and writei return: a count, -1, or not at all. */
  datatype Io = Done(n: nat) | Error | Panicked

  const U32: nat := 0x1_0000_0000

  class Fs {
    const sb: Super
    var disk: Disk
    var inodes: seq<Inode>   // the copies in memory
    var logged: set<nat>
    ghost var v: View

    constructor (sb: Super, disk: Disk, inodes: seq<Inode>, ghost v: View)
      requires Rel(sb, disk, inodes, v)
      ensures this.sb == sb && this.disk == disk && this.inodes == inodes && this.v == v && logged == {}
    {
      this.sb, this.disk, this.inodes, this.v := sb, disk, inodes, v;
      logged := {};
    }

    ghost function Now(): Snap
      reads this
    {
      Snap(disk, inodes, v, logged)
    }

    method LogWrite(b: nat, blk: Block)
      requires b < |disk|
      modifies `disk, `logged
      ensures disk == old(disk)[b := blk] && logged == old(logged) + {b}
    {
      disk := disk[b := blk];
      logged := logged + {b};
    }

    /** The inner loop of balloc, over one block of the bitmap. */
    method FindFree(b: nat) returns (bi: nat, found: bool)
      requires LayoutOk(sb) && BitsOk(sb, disk, v.owner) && b % BPB == 0 && b < sb.size
      ensures found ==> bi < BPB && b + bi < sb.size && v.owner[b + bi] == Free
      ensures forall c: nat :: b <= c < sb.size && c < b + (if found then bi else BPB) ==> v.owner[c] != Free
    {
      hide LayoutOk, BitsOk, Test;
      BitOf(sb, disk, v.owner, b, 0);
      var bp := disk[BBlock(sb.bmapstart, b)];
      bi := 0;
      while bi < BPB && b + bi < sb.size
        invariant bi <= BPB
        invariant forall c: nat :: b <= c < sb.size && c < b + bi ==> v.owner[c] != Free
      {
        BitOf(sb, disk, v.owner, b, bi);
        if !Test(bp[bi / 8], bi % 8) {
          return bi, true;
        }
        bi := bi + 1;
      }
      return bi, false;
    }

    /** balloc; false is panic("balloc: out of blocks"). */
    method Balloc() returns (b: nat, ok: bool)
      requires LayoutOk(sb) && BitsOk(sb, disk, v.owner)
      modifies `disk, `logged
      ensures ok ==> b < sb.size && v.owner[b] == Free && BBlock(sb.bmapstart, b) < |old(disk)|
      ensures ok ==> disk == AllocDisk(sb, old(disk), b) && logged == old(logged) + {BBlock(sb.bmapstart, b), b}
      ensures ok <==> Free in v.owner
      ensures |disk| == |old(disk)|
      ensures forall c: nat :: c < sb.size && (ok ==> c < b) ==> v.owner[c] != Free
      ensures !ok ==> disk == old(disk) && logged == old(logged)
    {
      hide Marked, Test, MarkIn, LayoutOk;
      b := 0;
      while b < sb.size
        invariant b % BPB == 0 && disk == old(disk) && logged == old(logged)
        invariant forall c: nat :: c < b && c < sb.size ==> v.owner[c] != Free
      {
        var bi, found := FindFree(b);
        if found {
          BitOf(sb, disk, v.owner, b, bi);
          assert v.owner[b + bi] in v.owner;
          LogWrite(BBlock(sb.bmapstart, b), MarkIn(disk[BBlock(sb.bmapstart, b)], bi));
          LogWrite(b + bi, ZeroBlock());
          return b + bi, true;
        }
        b := b + BPB;
      }
      return 0, false;
    }

    /** bmap for a direct block the file does not have yet. */
    method GiveDirect(i: nat, bn: nat) returns (r: Got)
      requires Rel(sb, disk, inodes, v) && i < |inodes| && bn < NDIRECT && MapEntry(v, i, bn) == 0
      modifies `disk, `logged, `inodes, `v
      ensures r.Got? ==> Mapped(sb, old(Now()), Now(), i, bn, r.addr)
      ensures r.Panic? <==> Free !in old(v.owner)
      ensures r.Panic? ==> v == old(v)
    {
      hide ViewOk, BitsOk, AllocDisk, Mapped, DataKept, Added, Entry;
      Sizes(sb, disk, inodes, v);
      EntryIs(sb, disk, inodes, v, i, bn);
      ghost var s := Now();
      var b, ok := Balloc();
      if !ok {
        return Panic("balloc: out of blocks");
      }
      DirectKeeps(sb, s.disk, inodes, v, i, bn, b);
      AllocKeepsData(sb, s.disk, inodes, v, b);
      inodes := inodes[i := SetAddr(inodes[i], bn, b)];
      v := AddData(v, i, bn, b);
      AddedIs(s.v, v, i, bn, b);
      MappedAdded(sb, s, Now(), i, bn, b);
      return Got(b);
    }

    /** bmap for an indirect block the file does not have yet. */
    method GiveIndirect(i: nat) returns (r: Got)
      requires Rel(sb, disk, inodes, v) && i < |inodes| && i < |v.inds| && v.inds[i] == 0
      modifies `disk, `logged, `inodes, `v
      ensures r.Got? ==> IndirectMade(sb, old(Now()), Now(), i) && r.addr == v.inds[i] && |FreeSet(v)| == |FreeSet(old(v))| - 1
      ensures r.Panic? <==> Free !in old(v.owner)
      ensures r.Panic? ==> v == old(v)
    {
      hide ViewOk, BitsOk, AllocDisk, IndirectMade, DataKept, Entry;
      Sizes(sb, disk, inodes, v);
      EntryIs(sb, disk, inodes, v, i, 0);
      ghost var s := Now();
      var b, ok := Balloc();
      if !ok {
        return Panic("balloc: out of blocks");
      }
      IndirectKeeps(sb, s.disk, inodes, v, i, b);
      AllocKeepsData(sb, s.disk, inodes, v, b);
      inodes := inodes[i := SetAddr(inodes[i], NDIRECT, b)];
      v := AddIndirect(v, i, b);
      IndirectAdded(sb, s, Now(), i, b);
      return Got(b);
    }

    /** bmap for a block the indirect block does not list yet. */
    method GiveLinked(i: nat, bn: nat) returns (r: Got)
      requires Rel(sb, disk, inodes, v) && i < |inodes| && NDIRECT <= bn < MAXFILE && MapEntry(v, i, bn) == 0
      requires i < |v.inds| && v.inds[i] != 0
      modifies `disk, `logged, `v
      ensures r.Got? ==> Mapped(sb, old(Now()), Now(), i, bn, r.addr)
      ensures r.Panic? <==> Free !in old(v.owner)
      ensures r.Panic? ==> v == old(v)
    {
      hide ViewOk, BitsOk, Shows, LayoutOk, AllocDisk, PutWord, DataKept, Entry, Mapped, Added;
      Sizes(sb, disk, inodes, v);
      EntryIs(sb, disk, inodes, v, i, bn);
      ghost var s := Now();
      var ind := inodes[i].addrs[NDIRECT];
      var bp := disk[ind];
      var b, ok := Balloc();
      if !ok {
        return Panic("balloc: out of blocks");
      }
      LinkKeeps(sb, s.disk, inodes, v, i, bn, b);
      LinkKeepsData(sb, s.disk, inodes, v, i, bn - NDIRECT, b);
      LogWrite(ind, PutWord(bp, bn - NDIRECT, b));
      v := AddData(v, i, bn, b);
      AddedIs(s.v, v, i, bn, b);
      MappedAdded(sb, s, Now(), i, bn, b);
      return Got(b);
    }

    /** The half of bmap for bn < NDIRECT. */
    method BmapDirect(i: nat, bn: nat) returns (r: Got)
      requires Rel(sb, disk, inodes, v) && i < |inodes| && i < |v.inds| && bn < NDIRECT
      modifies `disk, `logged, `inodes, `v
      ensures r.Got? ==> Mapped(sb, old(Now()), Now(), i, bn, r.addr)
      ensures r.Panic? <==> |FreeSet(old(v))| < Need(old(v), i, bn)
      ensures r.Panic? ==> Free !in v.owner
    {
      hide Rel, Mapped, FreeSet;
      EntryIs(sb, disk, inodes, v, i, bn);
      FreeCount(v);
      var addr := inodes[i].addrs[bn];
      if addr != 0 {
        MappedFound(sb, Now(), i, bn);
        return Got(addr);
      }
      r := GiveDirect(i, bn);
    }

    /** bmap's first step past the direct blocks: have an indirect block. */
    method HaveIndirect(i: nat) returns (r: Got)
      requires Rel(sb, disk, inodes, v) && i < |inodes| && i < |v.inds|
      modifies `disk, `logged, `inodes, `v
      ensures r.Got? ==> IndirectMade(sb, old(Now()), Now(), i)
      ensures r.Got? ==> |FreeSet(v)| == |FreeSet(old(v))| - (if old(v.inds)[i] == 0 then 1 else 0)
      ensures r.Panic? <==> old(v.inds)[i] == 0 && |FreeSet(old(v))| == 0
      ensures r.Panic? ==> Free !in v.owner
    {
      hide Rel, IndirectMade, FreeSet;
      EntryIs(sb, disk, inodes, v, i, 0);
      FreeCount(v);
      r := Got(inodes[i].addrs[NDIRECT]);
      if r.addr == 0 {
        r := GiveIndirect(i);
      } else {
        IndirectThere(sb, Now(), i);
      }
    }

    /** bmap's second step: the slot of the indirect block. */
    method HaveLinked(i: nat, bn: nat) returns (r: Got)
      requires Rel(sb, disk, inodes, v) && i < |inodes| && NDIRECT <= bn < MAXFILE && i < |v.inds| && v.inds[i] != 0
      modifies `disk, `logged, `v
      ensures r.Got? ==> Mapped(sb, old(Now()), Now(), i, bn, r.addr)
      ensures r.Panic? <==> MapEntry(old(v), i, bn) == 0 && |FreeSet(old(v))| == 0
      ensures r.Panic? ==> Free !in v.owner
    {
      hide Rel, Mapped, FreeSet, Word;
      EntryIs(sb, disk, inodes, v, i, bn);
      FreeCount(v);
      var addr := Word(disk[inodes[i].addrs[NDIRECT]], bn - NDIRECT);
      if addr != 0 {
        MappedFound(sb, Now(), i, bn);
        return Got(addr);
      }
      r := GiveLinked(i, bn);
    }

    /** The half of bmap that goes through the indirect block. */
    method BmapIndirect(i: nat, bn: nat) returns (r: Got)
      requires Rel(sb, disk, inodes, v) && i < |inodes| && i < |v.inds| && NDIRECT <= bn < MAXFILE
      modifies `disk, `logged, `inodes, `v
      ensures r.Got? ==> Mapped(sb, old(Now()), Now(), i, bn, r.addr)
      ensures r.Panic? <==> |FreeSet(old(v))| < Need(old(v), i, bn)
      ensures r.Panic? ==> Free !in v.owner
    {
      hide Rel, Mapped, IndirectMade, FreeSet, MapEntry;
      EntryIs(sb, disk, inodes, v, i, bn);
      ghost var s := Now();
      r := HaveIndirect(i);
      if r.Panic? {
        return;
      }
      ghost var t := Now();
      MadeSays(sb, s, t, i, bn);
      r := HaveLinked(i, bn);
      if r.Got? {
        MappedThrough(sb, s, t, Now(), i, bn, r.addr);
      }
    }

    /** bmap, for any block number. It panics exactly for want of free blocks, or of room in
        the map. */
    method Bmap(i: nat, bn: nat) returns (r: Got)
      requires Rel(sb, disk, inodes, v) && i < |inodes| && i < |v.inds|
      modifies `disk, `logged, `inodes, `v
      ensures r.Got? ==> Mapped(sb, old(Now()), Now(), i, bn, r.addr)
      ensures r.Panic? <==> bn >= MAXFILE || |FreeSet(old(v))| < Need(old(v), i, bn)
      ensures r.Panic? ==> bn >= MAXFILE || Free !in v.owner
    {
      hide Rel, Mapped;
      if bn < NDIRECT {
        r := BmapDirect(i, bn);
      } else if bn < MAXFILE {
        r := BmapIndirect(i, bn);
      } else {
        r := Panic("bmap: out of range");
      }
    }

    /** One round of readi: up to m bytes of one block. */
    method ReadPiece(i: nat, off: nat, m: nat) returns (piece: seq<Byte>)
      requires Settled(sb, disk, inodes, v) && i < |inodes|
      requires 0 < m && off + m <= inodes[i].size && off % BSIZE + m <= BSIZE
      modifies `disk, `logged, `inodes, `v
      ensures disk == old(disk) && logged == old(logged) && inodes == old(inodes) && v == old(v)
      ensures i < |v.maps| && piece == File(disk, inodes, v, i)[off..off + m]
    {
      hide Rel, Settled, Content, FreeSet, Ceil;
      SettledSizes(sb, disk, inodes, v);
      SettledBacked(sb, disk, inodes, v, i);
      BlockOfByte(off, inodes[i].size);
      CeilFits(inodes[i].size);
      ghost var s := Now();
      assert MapEntry(v, i, off / BSIZE) != 0;
      EntryIs(sb, disk, inodes, v, i, off / BSIZE);
      var bp := Bmap(i, off / BSIZE);
      MappedNothing(sb, s, Now(), i, off / BSIZE, bp.addr);
      MapInRange(sb, disk, inodes, v, i, off / BSIZE);
      PieceOf(disk, v.maps[i], inodes[i].size, off, m);
      return disk[bp.addr][off % BSIZE..off % BSIZE + m];
    }

    /** readi on a file: the bytes from off, as many of n as there are. It allocates nothing
        and changes nothing. */
    method Readi(i: nat, off: nat, n: nat) returns (r: Io, dst: seq<Byte>)
      requires Settled(sb, disk, inodes, v) && i < |inodes| && off < U32 && n < U32
      modifies `disk, `logged, `inodes, `v
      ensures disk == old(disk) && logged == old(logged) && inodes == old(inodes) && v == old(v)
      ensures r == if off > inodes[i].size || (off + n) % U32 < off then Error else Done(Min(n, inodes[i].size - off))
      ensures r.Done? ==> i < |v.maps| && dst == File(disk, inodes, v, i)[off..off + r.n]
    {
      hide Settled, Content;
      dst := [];
      if off > inodes[i].size || (off + n) % U32 < off {
        return Error, [];
      }
      assert i < |v.maps| by { SettledSizes(sb, disk, inodes, v); }
      var len := if off + n > inodes[i].size then inodes[i].size - off else n;
      var tot := 0;
      while tot < len
        invariant tot <= len && disk == old(disk) && logged == old(logged) && inodes == old(inodes) && v == old(v)
        invariant dst == File(disk, inodes, v, i)[off..off + tot]
      {
        var m := Min(len - tot, BSIZE - (off + tot) % BSIZE);
        var piece := ReadPiece(i, off + tot, m);
        dst := dst + piece;
        tot := tot + m;
      }
      return Done(len), dst;
    }

    /** bmap as writei uses it. The file has n bytes so far, all of them in blocks; false is
        a panic in bmap. */
    method FetchBlock(i: nat, off: nat, ghost n: nat) returns (ok: bool, addr: nat)
      requires Rel(sb, disk, inodes, v) && i < |inodes| && i < |v.inds| && Backed(v, i, n) && off < MAXFILE * BSIZE
      modifies `disk, `logged, `inodes, `v
      ensures ok ==> Fetched(sb, old(Now()), Now(), i, off, n, addr)
      ensures !ok ==> Free !in v.owner && |FreeSet(old(v))| < Need(old(v), i, off / BSIZE)
    {
      hide Rel, Mapped, Fetched, Content, FreeSet, Need;
      ghost var s := Now();
      var bp := Bmap(i, off / BSIZE);
      ok, addr := bp.Got?, 0;
      if ok {
        addr := bp.addr;
        FetchedIs(sb, s, Now(), i, off, n, addr);
      }
    }

    /** One round of writei: d into one block. */
    method WritePiece(i: nat, off: nat, d: seq<Byte>, ghost n: nat) returns (ok: bool, ghost addr: nat)
      requires Rel(sb, disk, inodes, v) && i < |inodes| && i < |v.inds| && off <= n && Backed(v, i, n)
      requires 0 < |d| && off % BSIZE + |d| <= BSIZE && off + |d| <= MAXFILE * BSIZE
      modifies `disk, `logged, `inodes, `v
      ensures ok ==> Wrote(sb, old(Now()), Now(), i, off, n, d, addr)
      ensures !ok ==> Free !in v.owner && |FreeSet(old(v))| < Need(old(v), i, off / BSIZE)
    {
      hide Rel, Fetched, Wrote, FreeSet, Need;
      ghost var s := Now();
      var b;
      ok, b := FetchBlock(i, off, n);
      addr := b;
      if ok {
        ghost var t := Now();
        FetchedBlock(sb, s, t, i, off, n, b);
        var was, at := disk[b], off % BSIZE;
        var blk: Block := was[..at] + d + was[at + |d|..];
        PieceStep(sb, s, t, i, off, n, b, d, blk);
        LogWrite(b, blk);
      }
    }

    /** The m bytes of one round of writei, after tot bytes of a write that began in state s. */
    method CopyRound(i: nat, off: nat, src: seq<Byte>, tot: nat, ghost s: Snap, ghost c: seq<Byte>, ghost nb0: nat) returns (ok: bool, m: nat)
      requires off <= |c| && tot < |src| && off + |src| <= MAXFILE * BSIZE && |c| <= MAXFILE * BSIZE
      requires tot == 0 || (off + tot) % BSIZE == 0
      requires Sized(s, i) && Progress(sb, s, Now(), i, off, c, src[..tot], nb0)
      modifies `disk, `logged, `inodes, `v
      ensures 0 < m <= |src| - tot && (m < |src| - tot ==> (off + tot + m) % BSIZE == 0)
      ensures ok ==> Progress(sb, s, Now(), i, off, c, src[..tot + m], nb0)
      ensures !ok ==> Free !in v.owner && |FreeSet(s.v)| < Takes(nb0, Max(nb0, Ceil(off + |src|)), s.v.inds[i])
    {
      hide Rel, Wrote, Content, Progress, Ceil, FreeSet, Need, Takes, Backed, Overwrite;
      ProgressSays(sb, s, Now(), i, off, c, src[..tot], nb0);
      m := Min(|src| - tot, BSIZE - (off + tot) % BSIZE);
      PieceSize(off + tot, |src| - tot, m);
      var piece := src[tot..tot + m];
      ghost var t := Now();
      ghost var addr;
      ok, addr := WritePiece(i, off + tot, piece, Max(|c|, off + tot));
      if ok {
        ProgressNext(sb, s, t, Now(), i, off, c, src[..tot], piece, nb0, addr);
        assert src[..tot] + piece == src[..tot + m];
      } else {
        ProgressStuck(sb, s, t, i, off, c, src[..tot], nb0, |src|);
      }
    }

    /** The loop of writei. */
    method CopyIn(i: nat, off: nat, src: seq<Byte>) returns (ok: bool)
      requires Settled(sb, disk, inodes, v) && i < |inodes| && off <= inodes[i].size && i < |v.maps| && i < |v.inds|
      requires off + |src| <= MAXFILE * BSIZE
      modifies `disk, `logged, `inodes, `v
      ensures ok ==> Progress(sb, old(Now()), Now(), i, off, old(File(disk, inodes, v, i)), src, Ceil(old(inodes[i].size)))
      ensures !ok ==> Free !in v.owner
      ensures !ok ==> |FreeSet(old(v))| < Takes(Ceil(old(inodes)[i].size), Max(Ceil(old(inodes)[i].size), Ceil(off + |src|)), old(v.inds)[i])
    {
      hide Rel, Content, Progress, Ceil, Settled, FreeSet, Takes, Dense;
      SettledSizes(sb, disk, inodes, v);
      assert FileSettled(inodes[i], v.maps[i], v.inds[i]);
      ghost var s, c, nb0 := Now(), File(disk, inodes, v, i), Ceil(inodes[i].size);
      var tot := 0;
      ProgressStarts(sb, s, i, off);
      assert src[..0] == [];
      while tot < |src|
        invariant tot <= |src| && (0 < tot < |src| ==> (off + tot) % BSIZE == 0)
        invariant Progress(sb, s, Now(), i, off, c, src[..tot], nb0)
      {
        var m;
        ok, m := CopyRound(i, off, src, tot, s, c, nb0);
        if !ok {
          return;
        }
        tot := tot + m;
      }
      assert src[..tot] == src;
      ok := true;
    }

    /** iupdate: ilock would read inode i back as it is in memory, and every other inode as
        before. */
    method Iupdate(i: nat)
      requires LayoutOk(sb) && |disk| == sb.size && i < |inodes| == sb.ninodes && Storable(inodes[i])
      modifies `disk, `logged
      ensures IBlock(sb, i) < |old(disk)| && disk == Updated(sb, old(disk), i, inodes[i])
      ensures Dinode(disk[IBlock(sb, i)], i % IPB) == inodes[i]
      ensures forall j: nat :: j < sb.ninodes && j != i ==>
                IBlock(sb, j) < |disk| && Dinode(disk[IBlock(sb, j)], j % IPB) == Dinode(old(disk)[IBlock(sb, j)], j % IPB)
      ensures logged == old(logged) + {IBlock(sb, i)}
    {
      hide Dinode, Encode, IBlock;
      IBlockIs(sb, i);
      DinodeBack(disk[IBlock(sb, i)], i % IPB, inodes[i]);
      forall j: nat | j < sb.ninodes && j != i
        ensures IBlock(sb, j) < |disk|
        ensures IBlock(sb, j) == IBlock(sb, i) ==>
          Dinode(Encode(disk[IBlock(sb, i)], i % IPB, inodes[i]), j % IPB) == Dinode(disk[IBlock(sb, i)], j % IPB)
      {
        IBlockIs(sb, j);
        SamePlace(sb, i, j);
        if j % IPB != i % IPB {
          DinodeSpared(disk[IBlock(sb, i)], i % IPB, inodes[i], j % IPB);
        }
      }
      LogWrite(IBlock(sb, i), Encode(disk[IBlock(sb, i)], i % IPB, inodes[i]));
    }

    /** ilock, once it has the sleep lock. A slot that is not valid is filled: whatever was in
        it, what is there now is what the last iupdate stored. Panics for a slot without
        references and for a stored inode without a type. */
    method Ilock(i: nat, refs: int, valid: bool, ghost stored: seq<Inode>) returns (ok: bool)
      requires OnDisk(sb, disk, stored) && i < |inodes| == |stored|
      requires !valid ==> inodes == stored[i := inodes[i]]
      modifies `inodes
      ensures ok <==> refs >= 1 && (valid || stored[i].kind != 0)
      ensures inodes == if refs >= 1 && !valid then stored else old(inodes)
    {
      hide Dinode, IBlock;
      if refs < 1 {
        return false;
      }
      if valid {
        return true;
      }
      var ip := Dinode(disk[IBlock(sb, i)], i % IPB);
      inodes := inodes[i := ip];
      return ip.kind != 0;
    }

    /** writei on a file: the new content, exactly the blocks it logs, and that it panics
        exactly when there are fewer free blocks than it takes. */
    method Writei(i: nat, off: nat, src: seq<Byte>) returns (r: Io)
      requires Settled(sb, disk, inodes, v) && i < |inodes| && i < |v.maps| && off < U32 && |src| < U32
      modifies `disk, `logged, `inodes, `v
      ensures r.Error? <==>
        off > old(inodes[i].size) || (off + |src|) % U32 < off || off + |src| > MAXFILE * BSIZE
      ensures r.Error? ==> Now() == old(Now())
      ensures r.Panicked? <==> !r.Error? && |FreeSet(old(v))| < Allocates(old(inodes[i].size), off, |src|)
      ensures r.Panicked? ==> Free !in v.owner
      ensures r.Done? ==> r.n == |src| && Settled(sb, disk, inodes, v) && |inodes| == |v.maps| == |old(inodes)| == |old(v.maps)|
      ensures r.Done? ==> File(disk, inodes, v, i) == Overwrite(old(File(disk, inodes, v, i)), off, src)
      ensures r.Done? ==> forall j: nat :: j < |inodes| && j != i ==>
        File(disk, inodes, v, j) == File(old(disk), old(inodes), old(v), j)
      ensures r.Done? && off + |src| <= old(inodes[i].size) ==> v == old(v) && inodes == old(inodes)
      ensures r.Done? ==> i < |v.inds| && logged == old(logged) + Logs(sb, old(v), v, i, old(inodes[i].size), off, |src|)
      ensures r.Done? ==> Lowest(old(v), New(old(v), v)) && |New(old(v), v)| == Allocates(old(inodes[i].size), off, |src|)
    {
      hide Settled, Content, Progress, Overwrite, FileSettled, Ceil, FreeSet, Takes, Lowest, New, Rel, OnDisk, Updated, Logs;
      SettledSizes(sb, disk, inodes, v);
      SettledBacked(sb, disk, inodes, v, i);
      if off > inodes[i].size || (off + |src|) % U32 < off {
        return Error;
      }
      if off + |src| > MAXFILE * BSIZE {
        return Error;
      }
      ghost var s := Now();
      TakesIs(sb, s, i, off, |src|);
      var ok := CopyIn(i, off, src);
      if !ok {
        return Panicked;
      }
      ghost var t := Now();
      ProgressEnds(sb, s, t, i, off, File(s.disk, s.inodes, s.v, i), src, Ceil(s.inodes[i].size));
      WriteSettles(sb, s, t, i, off, src);
      WriteLogs(sb, s, t, i, off, src);
      OnDiskKept(sb, s.disk, t.disk, s.inodes);
      forall j: nat | j < |s.inodes| && j != i
        ensures Content(t.disk, t.v.maps[j], s.inodes[j].size) == File(s.disk, s.inodes, s.v, j)
      {
        WriteSpares(sb, s, t, i, off, src, j);
      }
      if |src| > 0 && off + |src| > inodes[i].size {
        inodes := inodes[i := inodes[i].(size := off + |src|)];
        UpdateSettles(sb, disk, s.inodes, inodes, v, i);
        StoredSizes(sb, disk, s.inodes);
        Iupdate(i);
      } else {
        SettledAgain(sb, disk, inodes, v);
      }
      return Done(|src|);
    }

    // -------------------------------------------------------------- itrunc

    /** bfree; false is panic("freeing free block"). */
    method Bfree(b: nat) returns (ok: bool)
      requires LayoutOk(sb) && |disk| == sb.size && b < sb.size
      modifies `disk, `logged
      ensures BBlock(sb.bmapstart, b) < |old(disk)| && (ok <==> Marked(old(disk), sb.bmapstart, b))
      ensures ok ==> disk == FreeDisk(sb, old(disk), b) && logged == old(logged) + {BBlock(sb.bmapstart, b)}
      ensures !ok ==> disk == old(disk) && logged == old(logged)
    {
      hide Test, UnmarkIn;
      BBlockIsMeta(sb, b);
      BitParts(b);
      var k := BBlock(sb.bmapstart, b);
      var bi := b % BPB;
      if !Test(disk[k][bi / 8], bi % 8) {
        return false;
      }
      LogWrite(k, UnmarkIn(disk[k], bi));
      return true;
    }

    /** The loop of itrunc over the direct blocks. */
    method FreeDirect(i: nat)
      requires Rel(sb, disk, inodes, v) && i < |inodes|
      modifies `disk, `logged, `inodes
      ensures Freeing(sb, old(disk), disk, v.owner, i, NDIRECT)
      ensures |inodes| == |old(inodes)| && Cleared(old(inodes)[i], inodes[i], NDIRECT)
      ensures inodes == old(inodes)[i := inodes[i]]
    {
      hide Rel, Freeing, FreeDisk, Marked;
      ghost var disk0, inodes0 := disk, inodes;
      EntryIs(sb, disk, inodes, v, i, 0);
      FreeingStarts(sb, disk, inodes, v, i);
      var k := 0;
      while k < NDIRECT
        invariant k <= NDIRECT && Freeing(sb, disk0, disk, v.owner, i, k)
        invariant |inodes| == |inodes0| && Cleared(inodes0[i], inodes[i], k) && inodes == inodes0[i := inodes[i]]
      {
        DirectEntry(sb, disk0, inodes0, disk, v, i, k);
        FreeingNext(sb, disk0, disk, v, i, k);
        var addr := inodes[i].addrs[k];
        if addr != 0 {
          var ok := Bfree(addr);
          assert ok;
          inodes := inodes[i := SetAddr(inodes[i], k, 0)];
        }
        k := k + 1;
      }
    }

    /** The loop of itrunc over what the indirect block lists. */
    method FreeListed(i: nat, ind: nat, ghost disk0: Disk, ghost inodes0: seq<Inode>)
      requires Rel(sb, disk0, inodes0, v) && i < |inodes0| && i < |v.inds| && v.inds[i] == ind != 0 && ind < |disk|
      requires Freeing(sb, disk0, disk, v.owner, i, NDIRECT)
      modifies `disk, `logged
      ensures Freeing(sb, disk0, disk, v.owner, i, MAXFILE)
    {
      hide Rel, Freeing, FreeDisk, Marked, Word;
      var bp := disk[ind];
      var j := 0;
      while j < NINDIRECT
        invariant j <= NINDIRECT && Freeing(sb, disk0, disk, v.owner, i, NDIRECT + j)
      {
        IndirectEntry(sb, disk0, inodes0, disk, v, i, j);
        SameIndirect(sb, disk0, inodes0, old(disk), disk, v, i, j);
        FreeingNext(sb, disk0, disk, v, i, NDIRECT + j);
        if Word(bp, j) != 0 {
          var ok := Bfree(Word(bp, j));
          assert ok;
        }
        j := j + 1;
      }
    }

    /** The rest of itrunc's frees: what the indirect block lists, and the block itself. */
    method FreeIndirect(i: nat, ghost disk0: Disk, ghost inodes0: seq<Inode>)
      requires Rel(sb, disk0, inodes0, v) && i < |inodes| == |inodes0| && Cleared(inodes0[i], inodes[i], NDIRECT)
      requires Freeing(sb, disk0, disk, v.owner, i, NDIRECT)
      modifies `disk, `logged, `inodes
      ensures i < |v.maps| == |v.inds| && Gone(sb, disk0, disk, v, i)
      ensures |inodes| == |inodes0| && Cleared(inodes0[i], inodes[i], NDIRECT + 1) && inodes == old(inodes)[i := inodes[i]]
    {
      hide Rel, ViewOk, Freeing, FreeDisk, Marked, Gone;
      IndirectEntry0(sb, disk0, inodes0, disk, v, i);
      var ind := inodes[i].addrs[NDIRECT];
      if ind == 0 {
        GoneDirect(sb, disk0, disk, v, i);
        return;
      }
      FreeListed(i, ind, disk0, inodes0);
      GoneIndirect(sb, disk0, disk, v, i);
      SizeOfDisk(sb, disk0, disk, v.owner, i, MAXFILE);
      var ok := Bfree(ind);
      assert ok;
      inodes := inodes[i := SetAddr(inodes[i], NDIRECT, 0)];
    }

    /** itrunc: the file is empty, its blocks are free, nothing else has changed. */
    method Itrunc(i: nat)
      requires Settled(sb, disk, inodes, v) && i < |inodes| && |inodes| == |v.maps|
      modifies `disk, `logged, `inodes, `v
      ensures |old(v.maps)| == |old(v.inds)| && v == Dropped(old(v), i)
      ensures Settled(sb, disk, inodes, v) && inodes == old(inodes)[i := Emptied(old(inodes)[i])] && |inodes| == |v.maps|
      ensures File(disk, inodes, v, i) == []
      ensures forall j: nat :: j < |inodes| && j != i ==>
        File(disk, inodes, v, j) == File(old(disk), old(inodes), old(v), j)
    {
      hide Settled, Rel, Gone, Content, Freeing, OnDisk, Updated, FileSettled;
      SettledSizes(sb, disk, inodes, v);
      ghost var disk0, inodes0 := disk, inodes;
      FreeDirect(i);
      FreeIndirect(i, disk0, inodes0);
      ClearedAll(inodes0[i], inodes[i]);
      GoneSettles(sb, disk0, disk, inodes0, v, i);
      forall j: nat | j < |inodes| && j != i
        ensures Content(disk, v.maps[j], inodes0[j].size) == Content(disk0, v.maps[j], inodes0[j].size)
      {
        GoneSpares(sb, disk0, disk, inodes0, v, i, j);
      }
      inodes := inodes[i := inodes[i].(size := 0)];
      assert inodes == inodes0[i := Emptied(inodes0[i])];
      UpdateSettles(sb, disk, inodes0, inodes, Dropped(v, i), i);
      StoredSizes(sb, disk, inodes0);
      Iupdate(i);
      v := Dropped(v, i);
    }

    // ------------------------------------------------------------- file.c

    /** One transaction of filewrite: begin_op, writei, end_op. */
    method WriteChunk(i: nat, off: nat, src: seq<Byte>) returns (r: Io)
      requires Settled(sb, disk, inodes, v) && i < |inodes| == |v.maps| && off < U32 && |src| <= CHUNK
      modifies `disk, `logged, `inodes, `v
      ensures r.Error? <==> !Fits(old(inodes[i].size), off, |src|)
      ensures r.Panicked? <==> !r.Error? && |FreeSet(old(v))| < Allocates(old(inodes[i].size), off, |src|)
      ensures r.Panicked? ==> Free !in v.owner
      ensures !r.Panicked? ==> |logged| <= MAXOPBLOCKS && (sb.size / BPB + 1 <= 3 ==> |logged| <= CHUNKBLOCKS)
      ensures r.Done? ==> |logged| == Cost(|Bits(sb, New(old(v), v))|, old(inodes[i].size), off, |src|)
      ensures r.Done? ==> Lowest(old(v), New(old(v), v)) && |New(old(v), v)| == Allocates(old(inodes[i].size), off, |src|)
      ensures !r.Panicked? ==> Settled(sb, disk, inodes, v) && |inodes| == |v.maps| == |old(inodes)|
      ensures r.Done? ==> r.n == |src| && inodes[i].size == Max(old(inodes[i].size), off + |src|)
      ensures r.Done? ==> File(disk, inodes, v, i) == Overwrite(old(File(disk, inodes, v, i)), off, src)
      ensures r.Error? ==> File(disk, inodes, v, i) == old(File(disk, inodes, v, i)) && inodes == old(inodes)
      ensures !r.Panicked? ==> forall j: nat :: j < |inodes| && j != i ==>
        File(disk, inodes, v, j) == File(old(disk), old(inodes), old(v), j)
    {
      hide Settled, Overwrite, Cost, Allocates, FreeSet, New, Bits, Lowest, Logs;
      SettledBacked(sb, disk, inodes, v, i);
      ghost var size, v0 := inodes[i].size, v;
      SettledOwners(sb, disk, inodes, v);
      logged := {};
      r := Writei(i, off, src);
      if r.Done? {
        OverwriteLength(old(File(disk, inodes, v, i)), off, src);
        assert {} + Logs(sb, v0, v, i, size, off, |src|) == Logs(sb, v0, v, i, size, off, |src|);
        ChunkCounted(sb, disk, inodes, v0, v, i, size, off, |src|);
      }
    }

    /** filewrite on a file, from f->off on. at is the new f->off; -1 is the source's -1. A
        failing write keeps the chunks before the one that failed. txns holds what each transaction logged. */
    method Filewrite(i: nat, off: nat, src: seq<Byte>, n: int) returns (r: int, at: nat, panicked: bool, ghost txns: seq<set<nat>>)
      requires Settled(sb, disk, inodes, v) && i < |inodes| == |v.maps| && off < U32 && n <= |src|
      modifies `disk, `logged, `inodes, `v
      ensures panicked ==> Free !in v.owner
      ensures Budgeted(sb, txns)
      ensures !panicked ==> Settled(sb, disk, inodes, v) && |inodes| == |v.maps| == |old(inodes)|
      ensures !panicked ==> r == if n == 0 || (n > 0 && Fits(old(inodes[i].size), off, n)) then n else -1
      ensures !panicked ==> off <= at <= off + Max(0, if n < 0 then 0 else n) && (r == n > 0 ==> at == off + n)
      ensures !panicked && n > 0 && r == -1 ==>
        at == off + if off <= old(inodes[i].size) <= MAXFILE * BSIZE then WholeChunks(MAXFILE * BSIZE - off) else 0
      ensures !panicked && at > off ==> off <= old(inodes[i].size)
      ensures !panicked && at > off ==>
        File(disk, inodes, v, i) == Overwrite(old(File(disk, inodes, v, i)), off, src[..at - off])
      ensures !panicked && at == off ==> File(disk, inodes, v, i) == old(File(disk, inodes, v, i))
      ensures !panicked ==> forall j: nat :: j < |inodes| && j != i ==>
        File(disk, inodes, v, j) == File(old(disk), old(inodes), old(v), j)
    {
      hide Settled, Overwrite, FreeSet, Allocates, Cost, Bits, New, Lowest, Content, Budgeted;
      ghost var c, size := File(disk, inodes, v, i), inodes[i].size;
      assert size <= MAXFILE * BSIZE by { SettledBacked(sb, disk, inodes, v, i); }
      var k := 0;
      txns := [];
      NoBudget(sb);
      at := off;
      while k < n
        invariant 0 <= k && (n >= 0 ==> k <= n) && (n < 0 ==> k == 0) && at == off + k && (k < n ==> k % CHUNK == 0)
        invariant Budgeted(sb, txns)
        invariant Settled(sb, disk, inodes, v) && i < |inodes| == |v.maps| == |old(inodes)|
        invariant k > 0 ==> Fits(size, off, k) && inodes[i].size == Max(size, off + k)
        invariant k > 0 ==> File(disk, inodes, v, i) == Overwrite(c, off, src[..k])
        invariant k == 0 ==> File(disk, inodes, v, i) == c && inodes[i].size == size
        invariant forall j: nat :: j < |inodes| && j != i ==>
          File(disk, inodes, v, j) == File(old(disk), old(inodes), old(v), j)
      {
        var n1 := if n - k > CHUNK then CHUNK else n - k;
        var w := WriteChunk(i, at, src[k..k + n1]);
        if w.Panicked? {
          return -1, at, true, txns;
        }
        BudgetMore(sb, txns, logged);
        txns := txns + [logged];
        if w.Error? {
          if off <= size {
            WholeChunksAre(MAXFILE * BSIZE - off, k);
          }
          return -1, at, false, txns;
        }
        if off <= size {
          OverwriteMore(c, off, src[..k], src[k..k + n1]);
          OverwriteNothing(c, off);
          assert src[..k] + src[k..k + n1] == src[..k + n1];
        }
        at := at + n1;
        k := k + n1;
      }
      return if k == n then n else -1, at, false, txns;
    }
  }
}
