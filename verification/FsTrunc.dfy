/** What bfree and itrunc do to the disk and to the view of who owns which block. */
module FsTrunc {
  import opened Blocks
  import opened Bitmap
  import opened FsModel
  import opened FsInv
  import opened FsInode
  import opened FsContent
  import opened FsWrite

  function FreeDisk(sb: Super, disk: Disk, b: nat): Disk
    requires BBlock(sb.bmapstart, b) < |disk|
  {
    var k := BBlock(sb.bmapstart, b);
    disk[k := UnmarkIn(disk[k], b % BPB)]
  }

  /** Only the bitmap differs. */
  ghost predicate Spared(sb: Super, disk: Disk, disk': Disk) {
    |disk'| == |disk| && forall c: nat :: c < |disk| && (c < sb.bmapstart || sb.nmeta <= c) ==> disk'[c] == disk[c]
  }

  lemma FreeBits(sb: Super, disk: Disk, owner: seq<Owner>, b: nat)
    requires LayoutOk(sb) && BitsOk(sb, disk, owner) && b < sb.size
    ensures BBlock(sb.bmapstart, b) < sb.nmeta <= |disk|
    ensures BitsOk(sb, FreeDisk(sb, disk, b), owner[b := Free])
    ensures Spared(sb, disk, FreeDisk(sb, disk, b))
  {
    BBlockIsMeta(sb, b);
    var disk' := FreeDisk(sb, disk, b);
    forall c: nat | c < |owner|
      ensures BBlock(sb.bmapstart, c) < |disk'| && (Marked(disk', sb.bmapstart, c) <==> owner[b := Free][c] != Free)
    {
      BBlockIsMeta(sb, c);
      UnmarkOne(disk, sb.bmapstart, b, c);
    }
  }

  /** Blocks 0 to k - 1 of file i have been freed. */
  ghost function FreedTo(owner: seq<Owner>, i: nat, k: nat): (r: seq<Owner>)
    ensures |r| == |owner|
  {
    seq(|owner|, b requires 0 <= b < |owner| =>
      if owner[b].Data? && owner[b].i == i && owner[b].bn < k then Free else owner[b])
  }

  /** How far itrunc has got: the bitmap is ahead of everything else. */
  ghost predicate Freeing(sb: Super, disk0: Disk, disk: Disk, owner: seq<Owner>, i: nat, k: nat) {
    LayoutOk(sb) && |disk0| == |disk| == sb.size && BitsOk(sb, disk, FreedTo(owner, i, k)) && Spared(sb, disk0, disk)
  }

  lemma FreeingStarts(sb: Super, disk: Disk, inodes: seq<Inode>, v: View, i: nat)
    requires Rel(sb, disk, inodes, v)
    ensures Freeing(sb, disk, disk, v.owner, i, 0)
  {
    assert FreedTo(v.owner, i, 0) == v.owner;
  }

  lemma FreedNext(sb: Super, v: View, i: nat, k: nat)
    requires LayoutOk(sb) && ViewOk(sb, v) && i < |v.maps| && k < MAXFILE
    ensures |v.maps[i]| == MAXFILE
    ensures v.maps[i][k] == 0 ==> FreedTo(v.owner, i, k + 1) == FreedTo(v.owner, i, k)
    ensures v.maps[i][k] != 0 ==> v.maps[i][k] < sb.size && FreedTo(v.owner, i, k)[v.maps[i][k]] != Free
    ensures v.maps[i][k] != 0 ==> FreedTo(v.owner, i, k + 1) == FreedTo(v.owner, i, k)[v.maps[i][k] := Free]
  {
    assert FileOk(v, i);
    forall b: nat | b < |v.owner| && v.owner[b] == Data(i, k) ensures v.maps[i][k] == b != 0 {
      assert BlockOk(v, sb.nmeta, b);
    }
  }

  /** Freeing block k of the file never meets a block that is free already. */
  lemma FreeingNext(sb: Super, disk0: Disk, disk: Disk, v: View, i: nat, k: nat)
    requires ViewOk(sb, v) && i < |v.maps| && k < MAXFILE && Freeing(sb, disk0, disk, v.owner, i, k)
    ensures |v.maps[i]| == MAXFILE
    ensures v.maps[i][k] == 0 ==> Freeing(sb, disk0, disk, v.owner, i, k + 1)
    ensures v.maps[i][k] != 0 ==> v.maps[i][k] < sb.size && BBlock(sb.bmapstart, v.maps[i][k]) < |disk|
    ensures v.maps[i][k] != 0 ==> Marked(disk, sb.bmapstart, v.maps[i][k])
    ensures v.maps[i][k] != 0 ==> Freeing(sb, disk0, FreeDisk(sb, disk, v.maps[i][k]), v.owner, i, k + 1)
  {
    hide ViewOk, FreedTo, LayoutOk, Marked, UnmarkIn;
    FreedNext(sb, v, i, k);
    if v.maps[i][k] != 0 {
      FreeBits(sb, disk, FreedTo(v.owner, i, k), v.maps[i][k]);
    }
  }

  // ------------------------------------------------------------ the whole file

  function Zeros(n: nat): seq<nat> { seq(n, _ => 0) }

  function Emptied(ip: Inode): Inode { ip.(size := 0, addrs := Zeros(NDIRECT + 1)) }

  ghost predicate Owns(o: Owner, i: nat) { (o.Data? || o.Indirect?) && o.i == i }

  /** File i owns nothing; nothing else is different. */
  ghost function Dropped(v: View, i: nat): View
    requires i < |v.maps| == |v.inds|
  {
    v.(maps := v.maps[i := Zeros(MAXFILE)], inds := v.inds[i := 0],
       owner := seq(|v.owner|, b requires 0 <= b < |v.owner| => if Owns(v.owner[b], i) then Free else v.owner[b]))
  }

  lemma DroppedKeeps(sb: Super, v: View, i: nat)
    requires ViewOk(sb, v) && i < |v.maps|
    ensures ViewOk(sb, Dropped(v, i))
  {
    var w := Dropped(v, i);
    forall j: nat | j < |w.maps| ensures FileOk(w, j) {
      assert FileOk(v, j);
    }
    forall b: nat | b < |w.owner| ensures BlockOk(w, sb.nmeta, b) {
      assert BlockOk(v, sb.nmeta, b);
    }
  }

  /** Once the data blocks are freed only the indirect block is left to free. */
  lemma AllFreed(sb: Super, v: View, i: nat)
    requires LayoutOk(sb) && ViewOk(sb, v) && i < |v.maps|
    ensures v.inds[i] == 0 ==> FreedTo(v.owner, i, NDIRECT) == Dropped(v, i).owner
    ensures v.inds[i] != 0 ==> v.inds[i] < sb.size && FreedTo(v.owner, i, MAXFILE)[v.inds[i]] != Free
    ensures v.inds[i] != 0 ==> FreedTo(v.owner, i, MAXFILE)[v.inds[i] := Free] == Dropped(v, i).owner
  {
    assert FileOk(v, i);
    forall b: nat | b < |v.owner| && Owns(v.owner[b], i)
      ensures v.owner[b].Data? ==> v.owner[b].bn < MAXFILE && (v.owner[b].bn >= NDIRECT ==> v.inds[i] != 0)
      ensures v.owner[b].Indirect? ==> b == v.inds[i] && b != 0
    {
      assert BlockOk(v, sb.nmeta, b);
    }
  }

  /** The bitmap and the disk when nothing of file i is left. */
  ghost predicate Gone(sb: Super, disk0: Disk, disk: Disk, v: View, i: nat)
    requires i < |v.maps| == |v.inds|
  {
    LayoutOk(sb) && |disk0| == |disk| == sb.size && BitsOk(sb, disk, Dropped(v, i).owner) && Spared(sb, disk0, disk)
  }

  lemma GoneDirect(sb: Super, disk0: Disk, disk: Disk, v: View, i: nat)
    requires ViewOk(sb, v) && i < |v.maps| && v.inds[i] == 0 && Freeing(sb, disk0, disk, v.owner, i, NDIRECT)
    ensures Gone(sb, disk0, disk, v, i)
  {
    hide ViewOk, Dropped, FreedTo, BitsOk;
    AllFreed(sb, v, i);
  }

  lemma GoneIndirect(sb: Super, disk0: Disk, disk: Disk, v: View, i: nat)
    requires ViewOk(sb, v) && i < |v.maps| && v.inds[i] != 0 && Freeing(sb, disk0, disk, v.owner, i, MAXFILE)
    ensures v.inds[i] < sb.size && BBlock(sb.bmapstart, v.inds[i]) < |disk| && Marked(disk, sb.bmapstart, v.inds[i])
    ensures Gone(sb, disk0, FreeDisk(sb, disk, v.inds[i]), v, i)
  {
    hide Dropped, FreedTo, LayoutOk, Marked, UnmarkIn, FileOk, BlockOk;
    AllFreed(sb, v, i);
    FreeBits(sb, disk, FreedTo(v.owner, i, MAXFILE), v.inds[i]);
  }

  lemma ZeroShows(disk: Disk, ip: Inode)
    requires |disk| > 0
    ensures Shows(disk, Emptied(ip), Zeros(MAXFILE), 0)
  {
  }

  /** itrunc puts everything back in order, but for the inode's block. */
  lemma GoneSettles(sb: Super, disk0: Disk, disk: Disk, inodes: seq<Inode>, v: View, i: nat)
    requires Settled(sb, disk0, inodes, v) && i < |inodes| && i < |v.maps| == |v.inds|
    requires Gone(sb, disk0, disk, v, i)
    ensures var now, w := inodes[i := Emptied(inodes[i])], Dropped(v, i);
      && Rel(sb, disk, now, w) && |now| == |w.maps| == |w.inds| && OnDisk(sb, disk, inodes)
      && forall j: nat :: j < |now| ==> FileSettled(now[j], w.maps[j], w.inds[j])
  {
    hide BitsOk, Shows, LayoutOk, OnDisk;
    Sizes(sb, disk0, inodes, v);
    DroppedKeeps(sb, v, i);
    OnDiskKept(sb, disk0, disk, inodes);
    var now, w := inodes[i := Emptied(inodes[i])], Dropped(v, i);
    assert |disk| > 0 by { Positive(sb); }
    forall j: nat | j < |now| ensures Shows(disk, now[j], w.maps[j], w.inds[j]) {
      if j == i {
        ZeroShows(disk, inodes[i]);
      } else {
        IndirectIsData(sb, v, j);
        ShowsKept(disk0, disk, inodes[j], v.maps[j], v.inds[j]);
      }
    }
    forall j: nat | j < |now| ensures FileSettled(now[j], w.maps[j], w.inds[j]) {
      assert FileSettled(inodes[j], v.maps[j], v.inds[j]);
    }
  }

  lemma Positive(sb: Super)
    requires LayoutOk(sb)
    ensures sb.nmeta > 0 && sb.size > 0
  {
  }

  /** The other files read as before. */
  lemma GoneSpares(sb: Super, disk0: Disk, disk: Disk, inodes: seq<Inode>, v: View, i: nat, j: nat)
    requires Settled(sb, disk0, inodes, v) && j < |inodes| && j != i && i < |v.maps| == |v.inds|
    requires Gone(sb, disk0, disk, v, i)
    ensures j < |v.maps| && Content(disk, v.maps[j], inodes[j].size) == Content(disk0, v.maps[j], inodes[j].size)
  {
    hide Content, Ceil;
    Sizes(sb, disk0, inodes, v);
    assert FileOk(v, j) && FileSettled(inodes[j], v.maps[j], v.inds[j]);
    forall bn: nat | bn < Ceil(inodes[j].size) ensures sb.nmeta <= v.maps[j][bn] < sb.size {
      assert v.maps[j][bn] != 0;
      assert BlockOk(v, sb.nmeta, v.maps[j][bn]);
    }
    ContentKept(disk0, disk, v.maps[j], inodes[j].size);
  }

  /** The first k addresses of the inode are zero, the others as they were. */
  ghost predicate Cleared(was: Inode, ip: Inode, k: nat) {
    && |was.addrs| == |ip.addrs| == NDIRECT + 1 && ip.(addrs := []) == was.(addrs := [])
    && forall j: nat :: j < NDIRECT + 1 ==> ip.addrs[j] == if j < k then 0 else was.addrs[j]
  }

  lemma ClearedAll(was: Inode, ip: Inode)
    requires Cleared(was, ip, NDIRECT + 1)
    ensures ip.(size := 0) == Emptied(was)
  {
    assert ip.addrs == Zeros(NDIRECT + 1);
  }

  /** What itrunc finds at addrs[k] while it works. */
  lemma DirectEntry(sb: Super, disk0: Disk, inodes: seq<Inode>, disk: Disk, v: View, i: nat, k: nat)
    requires Rel(sb, disk0, inodes, v) && i < |inodes| && k < NDIRECT && Freeing(sb, disk0, disk, v.owner, i, k)
    ensures ViewOk(sb, v) && i < |v.maps| && |v.maps[i]| == MAXFILE && LayoutOk(sb) && |disk| == sb.size
    ensures |inodes[i].addrs| == NDIRECT + 1 && v.maps[i][k] == inodes[i].addrs[k]
  {
    assert Shows(disk0, inodes[i], v.maps[i], v.inds[i]);
  }

  /** What it finds in slot j of the indirect block. */
  lemma IndirectEntry(sb: Super, disk0: Disk, inodes: seq<Inode>, disk: Disk, v: View, i: nat, j: nat)
    requires Rel(sb, disk0, inodes, v) && i < |inodes| && j < NINDIRECT && v.inds[i] != 0
    requires Freeing(sb, disk0, disk, v.owner, i, NDIRECT + j)
    ensures ViewOk(sb, v) && i < |v.maps| && |v.maps[i]| == MAXFILE && LayoutOk(sb) && |disk| == sb.size
    ensures v.inds[i] < |disk| && v.maps[i][NDIRECT + j] == Word(disk[v.inds[i]], j)
  {
    hide Word;
    IndirectIsData(sb, v, i);
    assert Shows(disk0, inodes[i], v.maps[i], v.inds[i]);
    assert v.maps[i][NDIRECT + j] == Entry(disk0, inodes[i], NDIRECT + j);
  }

  lemma IndirectEntry0(sb: Super, disk0: Disk, inodes: seq<Inode>, disk: Disk, v: View, i: nat)
    requires Rel(sb, disk0, inodes, v) && i < |inodes| && Freeing(sb, disk0, disk, v.owner, i, NDIRECT)
    ensures ViewOk(sb, v) && i < |v.maps| == |v.inds| && |disk| == sb.size && LayoutOk(sb)
    ensures v.inds[i] < sb.size && |inodes[i].addrs| == NDIRECT + 1 && inodes[i].addrs[NDIRECT] == v.inds[i]
  {
    assert Shows(disk0, inodes[i], v.maps[i], v.inds[i]);
  }

  lemma SameIndirect(sb: Super, disk0: Disk, inodes: seq<Inode>, disk: Disk, disk': Disk, v: View, i: nat, j: nat)
    requires Rel(sb, disk0, inodes, v) && i < |inodes| && v.inds[i] != 0
    requires Freeing(sb, disk0, disk, v.owner, i, NDIRECT) && Freeing(sb, disk0, disk', v.owner, i, NDIRECT + j)
    ensures i < |v.inds| && v.inds[i] < |disk| == |disk'| && disk'[v.inds[i]] == disk[v.inds[i]]
  {
    hide Shows, BitsOk;
    IndirectIsData(sb, v, i);
  }

  lemma SizeOfDisk(sb: Super, disk0: Disk, disk: Disk, owner: seq<Owner>, i: nat, k: nat)
    requires Freeing(sb, disk0, disk, owner, i, k)
    ensures |disk| == sb.size && LayoutOk(sb)
  {
  }
}
