/** The swap area of the disk: eight 512-byte blocks for every page slot (bio.c). */
module SwapDisk {
  import opened Blocks
  import opened VmModel

  ghost predicate HasSwapArea(disk: seq<Block>) {
    SWAPBASE + NSLOTS * BPPAGE <= |disk|
  }

  /** The page whose blocks start at block number blockno. */
  ghost function PageAt(disk: seq<Block>, blockno: nat): (p: Page)
    requires blockno + BPPAGE <= |disk|
  {
    seq(PGSIZE, x requires 0 <= x < PGSIZE => disk[blockno + x / BSIZE][x % BSIZE])
  }

  ghost function SwapPages(disk: seq<Block>): (ps: seq<Page>)
    requires HasSwapArea(disk)
    ensures |ps| == NSLOTS
  {
    seq(NSLOTS, i requires 0 <= i < NSLOTS => PageAt(disk, SlotBlock(i)))
  }

  /** write_page_to_swap: slot i then reads as page, and every other slot as before. */
  method WritePageToSwap(disk: seq<Block>, i: nat, page: Page) returns (disk': seq<Block>)
    requires HasSwapArea(disk) && i < NSLOTS
    ensures |disk'| == |disk| && SwapPages(disk') == SwapPages(disk)[i := page]
    ensures forall b :: 0 <= b < |disk| && !(SlotBlock(i) <= b < SlotBlock(i) + BPPAGE) ==> disk'[b] == disk[b]
  {
    disk' := disk;
    var j := 0;
    while j < BPPAGE
      invariant 0 <= j <= BPPAGE && |disk'| == |disk|
      invariant forall b :: 0 <= b < |disk| && !(SlotBlock(i) <= b < SlotBlock(i) + j) ==> disk'[b] == disk[b]
      invariant forall m :: 0 <= m < j ==> disk'[SlotBlock(i) + m] == page[m * BSIZE..(m + 1) * BSIZE]
    {
      disk' := disk'[SlotBlock(i) + j := page[j * BSIZE..(j + 1) * BSIZE]];
      j := j + 1;
    }
    WrittenPage(disk', SlotBlock(i), page);
    forall m | 0 <= m < NSLOTS && m != i
      ensures PageAt(disk', SlotBlock(m)) == PageAt(disk, SlotBlock(m))
    {
      OtherPage(disk, disk', i, m);
    }
  }

  lemma WrittenPage(disk: seq<Block>, start: nat, page: Page)
    requires start + BPPAGE <= |disk|
    requires forall m :: 0 <= m < BPPAGE ==> disk[start + m] == page[m * BSIZE..(m + 1) * BSIZE]
    ensures PageAt(disk, start) == page
  {
    forall x | 0 <= x < PGSIZE
      ensures PageAt(disk, start)[x] == page[x]
    {
      var m := x / BSIZE;
      assert 0 <= m < BPPAGE && m * BSIZE + x % BSIZE == x;
      assert disk[start + m] == page[m * BSIZE..(m + 1) * BSIZE];
    }
  }

  lemma OtherPage(disk: seq<Block>, disk': seq<Block>, i: nat, m: nat)
    requires HasSwapArea(disk) && |disk'| == |disk| && i < NSLOTS && m < NSLOTS && m != i
    requires forall b :: 0 <= b < |disk| && !(SlotBlock(i) <= b < SlotBlock(i) + BPPAGE) ==> disk'[b] == disk[b]
    ensures PageAt(disk', SlotBlock(m)) == PageAt(disk, SlotBlock(m))
  {
    assert SlotBlock(m) + BPPAGE <= SlotBlock(i) || SlotBlock(i) + BPPAGE <= SlotBlock(m);
    SameBlocks(disk, disk', SlotBlock(m));
  }

  lemma SameBlocks(disk: seq<Block>, disk': seq<Block>, start: nat)
    requires start + BPPAGE <= |disk| == |disk'| && forall b :: start <= b < start + BPPAGE ==> disk'[b] == disk[b]
    ensures PageAt(disk', start) == PageAt(disk, start)
  {
    forall x | 0 <= x < PGSIZE ensures PageAt(disk', start)[x] == PageAt(disk, start)[x] {
      assert 0 <= x / BSIZE < BPPAGE;
    }
  }

  /** read_page_from_swap: the page of slot i. */
  method ReadPageFromSwap(disk: seq<Block>, i: nat) returns (page: Page)
    requires HasSwapArea(disk) && i < NSLOTS
    ensures page == SwapPages(disk)[i]
  {
    var bytes: seq<Byte> := [];
    var j := 0;
    while j < BPPAGE
      invariant 0 <= j <= BPPAGE && |bytes| == j * BSIZE
      invariant forall x :: 0 <= x < j * BSIZE ==> bytes[x] == disk[SlotBlock(i) + x / BSIZE][x % BSIZE]
    {
      ghost var before := bytes;
      bytes := bytes + disk[SlotBlock(i) + j];
      forall x | j * BSIZE <= x < (j + 1) * BSIZE
        ensures bytes[x] == disk[SlotBlock(i) + x / BSIZE][x % BSIZE]
      {
        assert x / BSIZE == j && x % BSIZE == x - j * BSIZE;
      }
      j := j + 1;
    }
    page := bytes;
    assert page == PageAt(disk, SlotBlock(i));
  }
}
