/** The on-disk log of log.c as pure disk images. One block write is one step and
    power may fail between any two. CommitImage and RecoverImage give the image
    after the first w block writes of a commit and of a recovery; the class in
    Log.dfy is proved to go through exactly these images. */
module LogModel {
  import opened Blocks

  const MAXOPBLOCKS: nat := 10
  const LOGSIZE: nat := MAXOPBLOCKS * 3

  /** log.start and log.size; the header block is counted in size. */
  datatype Layout = Layout(start: nat, size: nat) {
    predicate InLog(b: nat) { start <= b < start + size }

    /** b is a block of the disk outside the log area. */
    predicate IsHome(len: nat, b: nat) { b < len && !InLog(b) }

    predicate Fits(len: nat) { 1 <= size && start + size <= len && len < 0x1_0000_0000 }

    /** How many blocks one transaction may log before log_write panics. */
    function Capacity(): nat {
      if size == 0 then 0 else if size - 1 < LOGSIZE then size - 1 else LOGSIZE
    }
  }

  /** A disk with its log header decoded: head lists the committed home blocks. */
  datatype Image = Image(head: seq<nat>, blocks: seq<Block>)

  ghost predicate GoodList(g: Layout, len: nat, lh: seq<nat>) {
    && g.Fits(len) && |lh| <= g.Capacity()
    && (forall i :: 0 <= i < |lh| ==> g.IsHome(len, lh[i]))
    && (forall i, j :: 0 <= i < j < |lh| ==> lh[i] != lh[j])
  }

  ghost predicate Good(g: Layout, d: Image) {
    GoodList(g, |d.blocks|, d.head)
  }

  // --------------------------------------------------- the copy loops

  /** d after write_log copied the first k blocks of vals into the log area. */
  ghost function WriteLog(g: Layout, d: seq<Block>, vals: seq<Block>, k: nat): (e: seq<Block>)
    requires g.Fits(|d|) && k <= |vals| < g.size
    ensures |e| == |d| && (k == 0 ==> e == d)
  {
    if k == 0 then d else WriteLog(g, d, vals, k - 1)[g.start + k := vals[k - 1]]
  }

  lemma WriteLogAt(g: Layout, d: seq<Block>, vals: seq<Block>, k: nat)
    requires g.Fits(|d|) && k <= |vals| < g.size
    ensures forall b :: 0 <= b < |d| && !(g.start < b <= g.start + k) ==> WriteLog(g, d, vals, k)[b] == d[b]
    ensures forall i :: 0 <= i < k ==> WriteLog(g, d, vals, k)[g.start + 1 + i] == vals[i]
  {
  }

  /** d after install_trans copied the first k log blocks to their homes. */
  ghost function Install(g: Layout, d: seq<Block>, lh: seq<nat>, k: nat): (e: seq<Block>)
    requires GoodList(g, |d|, lh) && k <= |lh|
    ensures |e| == |d| && (k == 0 ==> e == d)
  {
    if k == 0 then d else Install(g, d, lh, k - 1)[lh[k - 1] := d[g.start + k]]
  }

  lemma InstallAt(g: Layout, d: seq<Block>, lh: seq<nat>, k: nat)
    requires GoodList(g, |d|, lh) && k <= |lh|
    ensures forall b :: 0 <= b < |d| && (b !in lh || g.InLog(b)) ==> Install(g, d, lh, k)[b] == d[b]
    ensures forall i :: 0 <= i < k ==> Install(g, d, lh, k)[lh[i]] == d[g.start + 1 + i]
  {
  }

  /** The images after each of the first k block writes of write_log. */
  ghost function WriteLogTrail(g: Layout, d: Image, vals: seq<Block>, k: nat): (t: seq<Image>)
    requires g.Fits(|d.blocks|) && k <= |vals| < g.size
    ensures |t| == k
  {
    if k == 0 then [] else WriteLogTrail(g, d, vals, k - 1) + [d.(blocks := WriteLog(g, d.blocks, vals, k))]
  }

  lemma {:induction false} WriteLogTrailAt(g: Layout, d: Image, vals: seq<Block>, k: nat, i: nat)
    requires g.Fits(|d.blocks|) && i < k <= |vals| < g.size
    ensures WriteLogTrail(g, d, vals, k)[i] == d.(blocks := WriteLog(g, d.blocks, vals, i + 1))
  {
    if i < k - 1 {
      WriteLogTrailAt(g, d, vals, k - 1, i);
    }
  }

  /** The images after each of the first k block writes of install_trans. */
  ghost function InstallTrail(g: Layout, d: Image, lh: seq<nat>, k: nat): (t: seq<Image>)
    requires GoodList(g, |d.blocks|, lh) && k <= |lh|
    ensures |t| == k
  {
    if k == 0 then [] else InstallTrail(g, d, lh, k - 1) + [d.(blocks := Install(g, d.blocks, lh, k))]
  }

  lemma {:induction false} InstallTrailAt(g: Layout, d: Image, lh: seq<nat>, k: nat, i: nat)
    requires GoodList(g, |d.blocks|, lh) && i < k <= |lh|
    ensures InstallTrail(g, d, lh, k)[i] == d.(blocks := Install(g, d.blocks, lh, i + 1))
  {
    hide GoodList;
    if i < k - 1 {
      InstallTrailAt(g, d, lh, k - 1, i);
    }
  }

  lemma {:induction false} WriteLogNext(g: Layout, d: Image, vals: seq<Block>, k: nat)
    requires g.Fits(|d.blocks|) && k < |vals| < g.size
    ensures WriteLog(g, d.blocks, vals, k + 1) == WriteLog(g, d.blocks, vals, k)[g.start + 1 + k := vals[k]]
    ensures WriteLogTrail(g, d, vals, k + 1)
         == WriteLogTrail(g, d, vals, k) + [d.(blocks := WriteLog(g, d.blocks, vals, k + 1))]
  {
  }

  lemma {:induction false} InstallNext(g: Layout, d: Image, lh: seq<nat>, k: nat)
    requires GoodList(g, |d.blocks|, lh) && k < |lh|
    ensures Install(g, d.blocks, lh, k + 1) == Install(g, d.blocks, lh, k)[lh[k] := d.blocks[g.start + 1 + k]]
    ensures InstallTrail(g, d, lh, k + 1)
         == InstallTrail(g, d, lh, k) + [d.(blocks := Install(g, d.blocks, lh, k + 1))]
  {
  }

  /** d with block lh[i] replaced by vals[i], for every i. */
  ghost function Overwrite(d: seq<Block>, lh: seq<nat>, vals: seq<Block>): (e: seq<Block>)
    requires |vals| == |lh|
    requires forall i :: 0 <= i < |lh| ==> lh[i] < |d|
    requires forall i, j :: 0 <= i < j < |lh| ==> lh[i] != lh[j]
    ensures |e| == |d|
    ensures forall i :: 0 <= i < |lh| ==> e[lh[i]] == vals[i]
    ensures forall b :: 0 <= b < |d| && b !in lh ==> e[b] == d[b]
  {
    if lh == [] then d
    else
      var n := |lh| - 1;
      assert lh == lh[..n] + [lh[n]];
      Overwrite(d, lh[..n], vals[..n])[lh[n] := vals[n]]
  }

  // ------------------------------------------------------ commit and recovery

  /** How many block writes commit() performs for n logged blocks. */
  function CommitWrites(n: nat): nat { if n == 0 then 0 else 2 * n + 2 }

  /** The disk after the first w block writes of commit(). */
  ghost function CommitImage(g: Layout, d: Image, lh: seq<nat>, vals: seq<Block>, w: nat): (e: Image)
    requires GoodList(g, |d.blocks|, lh) && |vals| == |lh| && w <= CommitWrites(|lh|)
    ensures |e.blocks| == |d.blocks|
  {
    var n := |lh|;
    if w <= n then d.(blocks := WriteLog(g, d.blocks, vals, w))
    else
      var logged := WriteLog(g, d.blocks, vals, n);
      if w <= 2 * n + 1 then Image(lh, Install(g, logged, lh, w - n - 1))
      else Image([], Install(g, logged, lh, n))
  }

  function RecoverWrites(d: Image): nat { |d.head| + 1 }

  /** The disk after the first w block writes of recover_from_log(). */
  ghost function RecoverImage(g: Layout, d: Image, w: nat): (e: Image)
    requires Good(g, d) && w <= RecoverWrites(d)
    ensures |e.blocks| == |d.blocks|
  {
    if w <= |d.head| then d.(blocks := Install(g, d.blocks, d.head, w))
    else Image([], Install(g, d.blocks, d.head, |d.head|))
  }

  /** The blocks an undisturbed recovery of d leaves. */
  ghost function Recovered(g: Layout, d: Image): (e: seq<Block>)
    requires Good(g, d)
    ensures |e| == |d.blocks|
  {
    RecoverImage(g, d, RecoverWrites(d)).blocks
  }

  /** d and e hold the same files: they agree on every block outside the log. */
  ghost predicate SameHome(g: Layout, d: seq<Block>, e: seq<Block>) {
    |d| == |e| && forall b: nat :: g.IsHome(|d|, b) ==> d[b] == e[b]
  }

  // ------------------------------------------------------------ crash lemmas

  /** Installing lh forgets what the homes on lh held before. */
  lemma {:induction false} InstallForgets(g: Layout, d: seq<Block>, e: seq<Block>, lh: seq<nat>)
    requires GoodList(g, |d|, lh) && |e| == |d|
    requires forall b :: 0 <= b < |d| && b !in lh ==> e[b] == d[b]
    ensures SameHome(g, Install(g, e, lh, |lh|), Install(g, d, lh, |lh|))
  {
    hide Install;
    InstallAt(g, d, lh, |lh|);
    InstallAt(g, e, lh, |lh|);
    var d1, e1 := Install(g, d, lh, |lh|), Install(g, e, lh, |lh|);
    forall b: nat | g.IsHome(|d|, b)
      ensures d1[b] == e1[b]
    {
      if b in lh {
        var i :| 0 <= i < |lh| && lh[i] == b;
        assert g.start + 1 + i !in lh;
      }
    }
  }

  /** Recovery may itself be cut short anywhere and started over. */
  lemma {:induction false} RecoveryRestarts(g: Layout, d: Image, w: nat)
    requires Good(g, d) && w <= RecoverWrites(d)
    ensures Good(g, RecoverImage(g, d, w))
    ensures SameHome(g, Recovered(g, RecoverImage(g, d, w)), Recovered(g, d))
    ensures w == RecoverWrites(d) ==> RecoverImage(g, d, w).head == []
                                      && SameHome(g, RecoverImage(g, d, w).blocks, Recovered(g, d))
  {
    hide Install;
    var e := RecoverImage(g, d, w);
    if w <= |d.head| {
      InstallAt(g, d.blocks, d.head, w);
      InstallForgets(g, d.blocks, e.blocks, d.head);
    }
  }

  lemma {:induction false} InstalledIsOverwrite(g: Layout, d: seq<Block>, logged: seq<Block>,
                                                lh: seq<nat>, vals: seq<Block>)
    requires GoodList(g, |d|, lh) && |vals| == |lh| && |logged| == |d|
    requires SameHome(g, logged, d)
    requires forall i :: 0 <= i < |lh| ==> logged[g.start + 1 + i] == vals[i]
    ensures SameHome(g, Install(g, logged, lh, |lh|), Overwrite(d, lh, vals))
  {
    hide Install, Overwrite;
    InstallAt(g, logged, lh, |lh|);
    var e, f := Install(g, logged, lh, |lh|), Overwrite(d, lh, vals);
    forall b: nat | g.IsHome(|d|, b)
      ensures e[b] == f[b]
    {
      if b in lh {
        var i :| 0 <= i < |lh| && lh[i] == b;
      }
    }
  }

  /** A commit cut before its header write completes leaves the old files; once the
      header is written, every cut leaves the new ones. */
  lemma {:induction false} CommitIsAtomic(g: Layout, d: Image, lh: seq<nat>, vals: seq<Block>, w: nat)
    requires GoodList(g, |d.blocks|, lh) && |vals| == |lh| && w <= CommitWrites(|lh|)
    requires d.head == []
    ensures Good(g, CommitImage(g, d, lh, vals, w))
    ensures SameHome(g, Recovered(g, CommitImage(g, d, lh, vals, w)),
                     if w <= |lh| then d.blocks else Overwrite(d.blocks, lh, vals))
    ensures w == CommitWrites(|lh|) ==>
              && CommitImage(g, d, lh, vals, w).head == []
              && SameHome(g, CommitImage(g, d, lh, vals, w).blocks, Overwrite(d.blocks, lh, vals))
  {
    hide Install, WriteLog, Overwrite;
    var n := |lh|;
    var e := CommitImage(g, d, lh, vals, w);
    if w <= n {
      WriteLogAt(g, d.blocks, vals, w);
    } else {
      var logged := WriteLog(g, d.blocks, vals, n);
      WriteLogAt(g, d.blocks, vals, n);
      InstalledIsOverwrite(g, d.blocks, logged, lh, vals);
      if w <= 2 * n + 1 {
        InstallAt(g, logged, lh, w - n - 1);
        InstallForgets(g, logged, e.blocks, lh);
      }
    }
  }
}
