/** log.c: the in-memory log, its header block on disk, commit and recovery. The
    buffer cache appears here as what it is proved to be in Bcache.dfy: a flat
    disk, plus the contents of the blocks that log_write pinned as dirty. */
module Logging {
  import opened Blocks
  import opened LogModel
  import opened LogRun

  // ------------------------------------------------------------- header block

  function HeaderCount(b: Block): nat { Word(b, 0) }

  ghost function HeaderList(b: Block): seq<nat>
    requires HeaderCount(b) <= LOGSIZE
  {
    seq(HeaderCount(b), i requires 0 <= i < HeaderCount(b) => Word(b, 1 + i))
  }

  ghost predicate Formatted(g: Layout, disk: seq<Block>) {
    g.Fits(|disk|) && HeaderCount(disk[g.start]) <= LOGSIZE
  }

  /** The raw header block at log.start decoded into the list it records. */
  ghost function Decode(g: Layout, disk: seq<Block>): (d: Image)
    requires Formatted(g, disk)
    ensures |d.blocks| == |disk|
  {
    Image(HeaderList(disk[g.start]), disk[g.start := ZeroBlock()])
  }

  lemma DecodeAt(g: Layout, disk: seq<Block>, b: nat)
    requires Formatted(g, disk)
    requires b < |disk| && b != g.start
    ensures Decode(g, disk).blocks[b] == disk[b]
  {
  }

  /** Writing any block but the header leaves the recorded list alone. */
  lemma DecodeData(g: Layout, disk: seq<Block>, b: nat, v: Block)
    requires Formatted(g, disk)
    requires b < |disk| && b != g.start
    ensures Decode(g, disk[b := v]) == Image(Decode(g, disk).head, Decode(g, disk).blocks[b := v])
  {
    hide Word;
    assert disk[b := v][g.start := ZeroBlock()] == disk[g.start := ZeroBlock()][b := v];
  }

  /** Writing the header block changes only the recorded list. */
  lemma DecodeHead(g: Layout, disk: seq<Block>, v: Block, lh: seq<nat>)
    requires Formatted(g, disk)
    requires |lh| <= LOGSIZE && HeaderCount(v) == |lh|
    requires forall i :: 0 <= i < |lh| ==> Word(v, 1 + i) == lh[i]
    ensures Decode(g, disk[g.start := v]) == Image(lh, Decode(g, disk).blocks)
  {
    hide Word;
    assert disk[g.start := v][g.start := ZeroBlock()] == disk[g.start := ZeroBlock()];
    assert HeaderList(v) == lh;
  }

  /** log_write never pins a block of the log area. */
  ghost predicate NoLogPins(g: Layout, dirty: map<nat, Block>) {
    forall b: nat :: b in dirty ==> !g.InLog(b)
  }

  /** The pinned blocks left after bwrite of the first k blocks of lh. */
  ghost function Unpin(dirty: map<nat, Block>, lh: seq<nat>, k: nat): (r: map<nat, Block>)
    requires k <= |lh|
    ensures r.Keys == dirty.Keys - (set b | b in lh[..k]) && (k == 0 ==> r == dirty)
  {
    if k == 0 then dirty
    else
      assert lh[..k] == lh[..k - 1] + [lh[k - 1]];
      Unpin(dirty, lh, k - 1) - {lh[k - 1]}
  }

  lemma UnpinNext(dirty: map<nat, Block>, lh: seq<nat>, k: nat)
    requires k < |lh|
    ensures Unpin(dirty, lh, k + 1) == Unpin(dirty, lh, k) - {lh[k]}
  {
  }

  /** While install_trans runs, reading log block k still gives what the log held. */
  lemma InstallReads(g: Layout, d: Image, lh: seq<nat>, disk: seq<Block>, dirty: map<nat, Block>, k: nat)
    requires Formatted(g, disk) && GoodList(g, |d.blocks|, lh) && k < |lh| && NoLogPins(g, dirty)
    requires Decode(g, disk) == Image(d.head, Install(g, d.blocks, lh, k))
    ensures g.start + k + 1 !in Unpin(dirty, lh, k) && g.start + k + 1 < |disk|
    ensures disk[g.start + k + 1] == d.blocks[g.start + k + 1]
  {
    hide Word, Install, Unpin;
    assert g.InLog(g.start + k + 1);
    InstallAt(g, d.blocks, lh, k);
    UnpinKeepsHome(g, dirty, lh, k);
    DecodeAt(g, disk, g.start + k + 1);
  }

  lemma UnpinKeepsHome(g: Layout, dirty: map<nat, Block>, lh: seq<nat>, k: nat)
    requires k <= |lh| && NoLogPins(g, dirty)
    ensures NoLogPins(g, Unpin(dirty, lh, k))
  {
  }

  // ------------------------------------------------------------------ the log

  class Log {
    const g: Layout
    const block: array<nat>          // lh.block
    var n: nat                       // lh.n
    var outstanding: nat
    var committing: bool
    var disk: seq<Block>
    var dirty: map<nat, Block>       // cached blocks pinned by log_write
    ghost var images: seq<Image>     // the disk after each block write since boot
    ghost var ws: Txn                // the log_write calls of the open transaction

    /** The in-memory list is lh and may be recorded on this disk. */
    ghost predicate Listing(lh: seq<nat>)
      reads this`n, this`disk, block
    {
      && block.Length == LOGSIZE && n <= LOGSIZE && block[..n] == lh
      && GoodList(g, |disk|, lh)
    }

    /** Between system calls: the list and the pinned blocks are those of ws. */
    ghost predicate Valid()
      reads this, block
    {
      && Formatted(g, disk) && Decode(g, disk).head == []
      && Targets(g, |disk|, ws) && NoPanic(g, ws)
      && Listing(LogList(ws)) && dirty == Cached(ws)
      && (committing ==> outstanding == 0)
    }

    constructor (g: Layout, disk: seq<Block>)
      requires Formatted(g, disk) && Good(g, Decode(g, disk))
      ensures this.g == g && this.disk == disk && dirty == map[] && Listing([])
      ensures outstanding == 0 && !committing && images == [] && ws == []
      ensures fresh(block)
    {
      this.g := g;
      this.disk := disk;
      block := new nat[LOGSIZE];
      n, outstanding, committing, dirty := 0, 0, false, map[];
      images, ws := [], [];
    }

    /** bread: the cached contents of block b. */
    method Bread(b: nat) returns (v: Block)
      requires b < |disk|
      ensures v == if b in dirty then dirty[b] else disk[b]
    {
      v := if b in dirty then dirty[b] else disk[b];
    }

    /** bwrite of a block other than the header. */
    method BwriteData(b: nat, v: Block)
      requires Formatted(g, disk) && b < |disk| && b != g.start
      modifies this`disk, this`dirty, this`images
      ensures Formatted(g, disk) && disk == old(disk)[b := v] && dirty == old(dirty) - {b}
      ensures Decode(g, disk) == Image(Decode(g, old(disk)).head, Decode(g, old(disk)).blocks[b := v])
      ensures images == old(images) + [Decode(g, disk)]
    {
      hide Word;
      DecodeData(g, disk, b, v);
      disk := disk[b := v];
      dirty := dirty - {b};
      images := images + [Decode(g, disk)];
    }

    /** install_trans: copies the listed log blocks home, one block write each. */
    method InstallTrans(ghost lh: seq<nat>, ghost d: Image)
      requires Formatted(g, disk) && d == Decode(g, disk) && Listing(lh) && NoLogPins(g, dirty)
      modifies this`disk, this`dirty, this`images
      ensures Formatted(g, disk) && Listing(lh)
      ensures Decode(g, disk) == Image(d.head, Install(g, d.blocks, lh, n))
      ensures dirty == Unpin(old(dirty), lh, n)
      ensures images == old(images) + InstallTrail(g, d, lh, n)
    {
      hide Word, Decode, Install, InstallTrail, Unpin, NoLogPins, HeaderCount;
      var tail := 0;
      while tail < n
        invariant 0 <= tail <= n
        invariant Formatted(g, disk) && |disk| == |d.blocks|
        invariant Decode(g, disk) == Image(d.head, Install(g, d.blocks, lh, tail))
        invariant dirty == Unpin(old(dirty), lh, tail)
        invariant images == old(images) + InstallTrail(g, d, lh, tail)
      {
        InstallReads(g, d, lh, disk, old(dirty), tail);
        var lbuf := Bread(g.start + tail + 1);
        assert block[tail] == lh[tail] && g.IsHome(|disk|, lh[tail]);
        InstallNext(g, d, lh, tail);
        UnpinNext(old(dirty), lh, tail);
        BwriteData(block[tail], lbuf);
        tail := tail + 1;
      }
    }

    /** write_log: copies the listed blocks from the cache to the log area. */
    method WriteLogBlocks(ghost lh: seq<nat>, ghost d: Image, ghost vals: seq<Block>)
      requires Formatted(g, disk) && d == Decode(g, disk) && Listing(lh) && NoLogPins(g, dirty)
      requires |vals| == n && forall i :: 0 <= i < n ==> lh[i] in dirty && vals[i] == dirty[lh[i]]
      modifies this`disk, this`dirty, this`images
      ensures Formatted(g, disk) && Listing(lh) && dirty == old(dirty)
      ensures Decode(g, disk) == Image(d.head, WriteLog(g, d.blocks, vals, n))
      ensures images == old(images) + WriteLogTrail(g, d, vals, n)
    {
      hide Word, Decode, WriteLog, WriteLogTrail, HeaderCount;
      var tail := 0;
      while tail < n
        invariant 0 <= tail <= n
        invariant Formatted(g, disk) && |disk| == |d.blocks| && dirty == old(dirty)
        invariant Decode(g, disk) == Image(d.head, WriteLog(g, d.blocks, vals, tail))
        invariant images == old(images) + WriteLogTrail(g, d, vals, tail)
      {
        var from := Bread(block[tail]);
        assert block[tail] == lh[tail];
        assert g.InLog(g.start + tail + 1);
        WriteLogNext(g, d, vals, tail);
        BwriteData(g.start + tail + 1, from);
        tail := tail + 1;
      }
    }

    /** write_head: one block write that makes the in-memory list the recorded one. */
    method WriteHead(ghost lh: seq<nat>)
      requires Formatted(g, disk) && Listing(lh) && NoLogPins(g, dirty)
      modifies this`disk, this`dirty, this`images
      ensures Formatted(g, disk) && Listing(lh) && dirty == old(dirty)
      ensures Decode(g, disk) == Image(lh, Decode(g, old(disk)).blocks)
      ensures images == old(images) + [Decode(g, disk)]
    {
      hide Word, PutWord;
      assert g.InLog(g.start);
      assert forall i :: 0 <= i < n ==> block[i] == lh[i] && g.IsHome(|disk|, lh[i]);
      var hb := Bread(g.start);
      hb := PutWord(hb, 0, n);
      var i := 0;
      while i < n
        invariant 0 <= i <= n
        invariant Word(hb, 0) == n
        invariant forall j :: 0 <= j < i ==> Word(hb, 1 + j) == lh[j]
      {
        hb := PutWord(hb, 1 + i, block[i]);
        i := i + 1;
      }
      DecodeHead(g, disk, hb, lh);
      disk := disk[g.start := hb];
      dirty := dirty - {g.start};
      images := images + [Decode(g, disk)];
    }

    /** read_head: the in-memory list becomes the recorded one. */
    method ReadHead()
      requires Formatted(g, disk) && Good(g, Decode(g, disk)) && block.Length == LOGSIZE && NoLogPins(g, dirty)
      modifies this`n, block
      ensures Listing(Decode(g, disk).head)
    {
      hide Word;
      assert g.InLog(g.start);
      var hb := Bread(g.start);
      n := HeaderCount(hb);
      var i := 0;
      while i < n
        invariant 0 <= i <= n == HeaderCount(hb)
        invariant forall j :: 0 <= j < i ==> block[j] == Word(hb, 1 + j)
      {
        block[i] := Word(hb, 1 + i);
        i := i + 1;
      }
      assert block[..n] == HeaderList(hb);
    }

    /** recover_from_log at boot: the disk goes through exactly the images of a boot cut
        after 1, 2, ... writes (LogRun.RecoverTrailIsStep), and the log ends up empty. */
    method RecoverFromLog()
      requires Formatted(g, disk) && Good(g, Decode(g, disk)) && Listing([]) && dirty == map[] && ws == []
      requires outstanding == 0 && !committing
      modifies this`n, block, this`disk, this`dirty, this`images
      ensures Valid() && Decode(g, disk).blocks == Recovered(g, Decode(g, old(disk)))
      ensures images == old(images) + RecoverTrail(g, Decode(g, old(disk)))
    {
      hide Word, Decode, Install, InstallTrail, HeaderCount;
      ghost var d := Decode(g, disk);
      ReadHead();
      InstallTrans(d.head, d);
      n := 0;
      assert block[..n] == [];
      EmptyTxn(g);
      WriteHead([]);
    }

    /** The body of commit: log blocks, header, homes, empty header. */
    method CommitList(ghost lh: seq<nat>, ghost d: Image, ghost vals: seq<Block>)
      requires Formatted(g, disk) && d == Decode(g, disk) && Listing(lh) && NoLogPins(g, dirty)
      requires |vals| == n && forall i :: 0 <= i < n ==> lh[i] in dirty && vals[i] == dirty[lh[i]]
      modifies this`n, this`disk, this`dirty, this`images
      ensures Formatted(g, disk) && Listing([]) && |disk| == |old(disk)| && dirty == Unpin(old(dirty), lh, |lh|)
      ensures var committed := Image(lh, WriteLog(g, d.blocks, vals, |lh|));
              var installed := Image([], Install(g, committed.blocks, lh, |lh|));
              && Decode(g, disk) == installed
              && images == old(images) + (WriteLogTrail(g, d, vals, |lh|) + [committed] + InstallTrail(g, committed, lh, |lh|) + [installed])
    {
      hide Word, Decode, Install, WriteLog, WriteLogTrail, InstallTrail, HeaderCount, NoLogPins, Unpin;
      WriteLogBlocks(lh, d, vals);
      WriteHead(lh);
      InstallTrans(lh, Decode(g, disk));
      UnpinKeepsHome(g, old(dirty), lh, |lh|);
      n := 0;
      assert block[..n] == [];
      WriteHead([]);
    }

    /** commit: the disk goes through exactly the images of the open transaction cut after
        1, 2, ... writes (LogRun.CommitTrailIsStep); its files end up with all of it. */
    method Commit()
      requires Valid()
      modifies this`n, this`disk, this`dirty, this`images, this`ws
      ensures Valid() && |disk| == |old(disk)| && ws == []
      ensures SameHome(g, Decode(g, disk).blocks, ApplyWrites(Decode(g, old(disk)).blocks, old(ws)))
      ensures images == old(images) + CommitTrail(g, Decode(g, old(disk)), old(ws))
    {
      hide Word, Decode, Install, WriteLog, WriteLogTrail, InstallTrail, HeaderCount;
      hide ApplyWrites, LogList, Cached, NoPanic, CommitTrail, SameHome, NoLogPins, Unpin;
      ghost var d := Decode(g, disk);
      ghost var lh := LogList(ws);
      ghost var vals := LogContents(ws);
      CommitEffect(g, d, ws, lh, vals);
      EmptyTxn(g);
      PinsAreHome(g, |disk|, ws);
      if n > 0 {
        CommitList(lh, d, vals);
      }
      ws := [];
    }

    /** log_write of block b, whose buffer now holds v. */
    method LogWrite(b: nat, v: Block) returns (ok: bool)
      requires Valid() && g.IsHome(|disk|, b)
      modifies this`n, block, this`dirty, this`ws
      ensures Valid()
      ensures ok <==> old(n) < g.Capacity() && outstanding >= 1
      ensures ws == if ok then old(ws) + [(b, v)] else old(ws)
      ensures dirty == if ok then old(dirty)[b := v] else old(dirty)
    {
      hide Word, Decode, HeaderCount, LogList, Cached, NoPanic, GoodList;
      if n >= LOGSIZE || n >= g.size - 1 {
        return false;
      }
      if outstanding < 1 {
        return false;
      }
      ghost var lh := block[..n];
      var i := 0;
      while i < n && block[i] != b
        invariant 0 <= i <= n
        invariant b !in lh[..i]
      {
        i := i + 1;
      }
      block[i] := b;
      if i == n {
        n := n + 1;
      }
      dirty := dirty[b := v];
      assert block[..n] == Append(lh, b);
      TxnGrows(g, ws, (b, v));
      AppendGood(g, |disk|, lh, b);
      ws := ws + [(b, v)];
      return true;
    }

    /** One pass of begin_op's loop: admitted, or asleep with nothing changed. */
    method BeginOp() returns (admitted: bool)
      requires Valid()
      modifies this`outstanding
      ensures Valid()
      ensures admitted <==> !committing && n + (old(outstanding) + 1) * MAXOPBLOCKS <= LOGSIZE
      ensures outstanding == if admitted then old(outstanding) + 1 else old(outstanding)
    {
      hide Word, Decode, HeaderCount;
      if committing {
        return false;
      } else if n + (outstanding + 1) * MAXOPBLOCKS > LOGSIZE {
        return false;
      } else {
        outstanding := outstanding + 1;
        return true;
      }
    }

    /** end_op: the last operation out commits everything logged since the last commit. */
    method EndOp()
      requires Valid() && outstanding >= 1
      modifies this`n, this`outstanding, this`committing, this`disk, this`dirty, this`images, this`ws
      ensures Valid() && outstanding == old(outstanding) - 1 && !committing && |disk| == |old(disk)|
      ensures outstanding > 0 ==> disk == old(disk) && ws == old(ws)
      ensures outstanding == 0 ==>
                ws == [] && SameHome(g, Decode(g, disk).blocks, ApplyWrites(Decode(g, old(disk)).blocks, old(ws)))
    {
      hide Word, Decode, HeaderCount, ApplyWrites, SameHome;
      outstanding := outstanding - 1;
      if outstanding == 0 {
        committing := true;
        Commit();
        committing := false;
      }
    }
  }

  lemma PinsAreHome(g: Layout, len: nat, ws: Txn)
    requires g.Fits(len) && GoodList(g, len, LogList(ws))
    ensures NoLogPins(g, Cached(ws)) && NoLogPins(g, map[])
    ensures Unpin(Cached(ws), LogList(ws), |LogList(ws)|) == map[]
  {
    hide LogList, Cached;
    var lh := LogList(ws);
    assert lh[..|lh|] == lh;
    assert forall b: nat :: b in Cached(ws) ==> b in lh;
    assert Unpin(Cached(ws), lh, |lh|).Keys == {};
  }

  lemma AppendGood(g: Layout, len: nat, lh: seq<nat>, b: nat)
    requires GoodList(g, len, lh) && g.IsHome(len, b) && |lh| < g.Capacity()
    ensures GoodList(g, len, Append(lh, b))
  {
  }

  lemma EmptyTxn(g: Layout)
    ensures LogList([]) == [] && Cached([]) == map[] && NoPanic(g, [])
  {
  }

  lemma {:induction false} TxnGrows(g: Layout, ws: Txn, w: (nat, Block))
    requires NoPanic(g, ws) && |LogList(ws)| < g.Capacity()
    ensures NoPanic(g, ws + [w])
    ensures LogList(ws + [w]) == Append(LogList(ws), w.0)
    ensures Cached(ws + [w]) == Cached(ws)[w.0 := w.1]
  {
    assert (ws + [w])[..|ws|] == ws;
    forall i | 0 <= i < |ws + [w]|
      ensures |LogList((ws + [w])[..i])| < g.Capacity()
    {
      assert (ws + [w])[..i] == ws[..i];
      assert ws[..|ws|] == ws;
    }
  }
}
