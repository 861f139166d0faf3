/** Whole runs of the logging system: boots, transactions and power cuts in any
    order, each boot and each transaction cut after any number of block writes. */
module LogRun {
  import opened Blocks
  import opened LogModel

  /** The log_write calls of one transaction: block number and new contents. */
  type Txn = seq<(nat, Block)>

  // ---------------------------------------------- what one transaction means

  /** The files after doing the writes one by one, with no log at all. */
  ghost function ApplyWrites(d: seq<Block>, ws: Txn): (e: seq<Block>)
    requires forall i :: 0 <= i < |ws| ==> ws[i].0 < |d|
    ensures |e| == |d|
  {
    if ws == [] then d
    else
      var n := |ws| - 1;
      ApplyWrites(d, ws[..n])[ws[n].0 := ws[n].1]
  }

  /** log.lh.block after one more log_write: a block already listed is absorbed. */
  function Append(lh: seq<nat>, b: nat): seq<nat> {
    if b in lh then lh else lh + [b]
  }

  ghost function LogList(ws: Txn): (lh: seq<nat>)
    ensures forall i, j :: 0 <= i < j < |lh| ==> lh[i] != lh[j]
    ensures forall i :: 0 <= i < |ws| ==> ws[i].0 in lh
  {
    if ws == [] then []
    else
      var n := |ws| - 1;
      Append(LogList(ws[..n]), ws[n].0)
  }

  /** The cached contents of the blocks written so far. */
  ghost function Cached(ws: Txn): (m: map<nat, Block>)
    ensures m.Keys == set b | b in LogList(ws)
  {
    if ws == [] then map[]
    else
      var n := |ws| - 1;
      Cached(ws[..n])[ws[n].0 := ws[n].1]
  }

  ghost function Contents(lh: seq<nat>, m: map<nat, Block>): (vals: seq<Block>)
    requires forall i :: 0 <= i < |lh| ==> lh[i] in m
  {
    seq(|lh|, i requires 0 <= i < |lh| => m[lh[i]])
  }

  ghost function LogContents(ws: Txn): seq<Block> {
    Contents(LogList(ws), Cached(ws))
  }

  ghost predicate Targets(g: Layout, len: nat, ws: Txn) {
    forall i :: 0 <= i < |ws| ==> g.IsHome(len, ws[i].0)
  }

  /** No log_write of ws finds the log full, so none of them panics. */
  ghost predicate NoPanic(g: Layout, ws: Txn) {
    forall i :: 0 <= i < |ws| ==> |LogList(ws[..i])| < g.Capacity()
  }

  lemma {:induction false} LogListGood(g: Layout, len: nat, ws: Txn)
    requires g.Fits(len) && Targets(g, len, ws) && NoPanic(g, ws)
    ensures GoodList(g, len, LogList(ws))
  {
    if ws != [] {
      var n := |ws| - 1;
      forall i | 0 <= i < n
        ensures |LogList(ws[..n][..i])| < g.Capacity()
      {
        assert ws[..n][..i] == ws[..i];
      }
      LogListGood(g, len, ws[..n]);
      assert |LogList(ws[..n])| < g.Capacity();
    }
  }

  lemma {:induction false} LastWriteWins(d: seq<Block>, ws: Txn, b: nat)
    requires forall i :: 0 <= i < |ws| ==> ws[i].0 < |d|
    requires b < |d|
    ensures ApplyWrites(d, ws)[b] == if b in Cached(ws) then Cached(ws)[b] else d[b]
  {
    if ws != [] {
      LastWriteWins(d, ws[..|ws| - 1], b);
    }
  }

  lemma {:induction false} LogListInRange(len: nat, ws: Txn)
    requires forall i :: 0 <= i < |ws| ==> ws[i].0 < len
    ensures forall i :: 0 <= i < |LogList(ws)| ==> LogList(ws)[i] < len
  {
    if ws != [] {
      LogListInRange(len, ws[..|ws| - 1]);
    }
  }

  /** Committing the absorbed list does what the writes do in order. */
  lemma {:induction false} AbsorptionKeepsWrites(d: seq<Block>, ws: Txn)
    requires forall i :: 0 <= i < |ws| ==> ws[i].0 < |d|
    requires forall i :: 0 <= i < |LogList(ws)| ==> LogList(ws)[i] < |d|
    ensures ApplyWrites(d, ws) == Overwrite(d, LogList(ws), LogContents(ws))
  {
    hide LogList, Cached, ApplyWrites, Overwrite;
    var lh, vals := LogList(ws), LogContents(ws);
    var a, o := ApplyWrites(d, ws), Overwrite(d, lh, vals);
    forall b: nat | b < |d|
      ensures a[b] == o[b]
    {
      LastWriteWins(d, ws, b);
      if b in lh {
        var i :| 0 <= i < |lh| && lh[i] == b;
        assert o[lh[i]] == vals[i];
      }
    }
  }

  // ------------------------------------------------------------ runs

  /** cut is the number of block writes after which power fails; if it is at least
      the number of writes of the event, power does not fail during it. */
  datatype Event =
    | Boot(cut: nat)
    | Transaction(ws: Txn, cut: nat)
    | PowerCut

  datatype Machine = Machine(disk: Image, up: bool)

  ghost predicate Legal(g: Layout, len: nat, ev: Event) {
    ev.Transaction? ==> Targets(g, len, ev.ws)
  }

  ghost predicate LegalRun(g: Layout, len: nat, evs: seq<Event>) {
    forall i :: 0 <= i < |evs| ==> Legal(g, len, evs[i])
  }

  function Min(a: nat, b: nat): nat { if a < b then a else b }

  ghost predicate Ready(g: Layout, m: Machine) {
    Good(g, m.disk) && (m.up ==> m.disk.head == [])
  }

  /** The event is a transaction that gets as far as its commit. */
  ghost predicate ReachesCommit(g: Layout, m: Machine, ev: Event) {
    ev.Transaction? && m.up && NoPanic(g, ev.ws)
  }

  ghost function Step(g: Layout, m: Machine, ev: Event): (m': Machine)
    requires Ready(g, m) && Legal(g, |m.disk.blocks|, ev)
    ensures Ready(g, m') && |m'.disk.blocks| == |m.disk.blocks|
  {
    match ev
    case PowerCut => m.(up := false)
    case Boot(cut) =>
      var w := Min(cut, RecoverWrites(m.disk));
      RecoveryRestarts(g, m.disk, w);
      Machine(RecoverImage(g, m.disk, w), w == RecoverWrites(m.disk))
    case Transaction(ws, cut) =>
      if !m.up then m
      else if !NoPanic(g, ws) then m.(up := false)
      else
        var lh := LogList(ws);
        var w := Min(cut, CommitWrites(|lh|));
        LogListGood(g, |m.disk.blocks|, ws);
        CommitIsAtomic(g, m.disk, lh, LogContents(ws), w);
        Machine(CommitImage(g, m.disk, lh, LogContents(ws), w), w == CommitWrites(|lh|))
  }

  /** The images that commit() goes through, one per block write. */
  ghost function CommitTrail(g: Layout, d: Image, ws: Txn): (t: seq<Image>)
    requires Ready(g, Machine(d, true)) && Targets(g, |d.blocks|, ws) && NoPanic(g, ws)
  {
    var lh, vals := LogList(ws), LogContents(ws);
    if lh == [] then []
    else
      LogListGood(g, |d.blocks|, ws);
      var committed := Image(lh, WriteLog(g, d.blocks, vals, |lh|));
      WriteLogTrail(g, d, vals, |lh|) + [committed]
      + InstallTrail(g, committed, lh, |lh|) + [Image([], Install(g, committed.blocks, lh, |lh|))]
  }

  lemma {:induction false} CommitEffect(g: Layout, d: Image, ws: Txn, lh: seq<nat>, vals: seq<Block>)
    requires Ready(g, Machine(d, true)) && Targets(g, |d.blocks|, ws) && NoPanic(g, ws)
    requires lh == LogList(ws) && vals == LogContents(ws)
    ensures GoodList(g, |d.blocks|, lh) && |vals| == |lh|
    ensures forall i :: 0 <= i < |lh| ==> vals[i] == Cached(ws)[lh[i]]
    ensures lh == [] ==> CommitTrail(g, d, ws) == [] && SameHome(g, d.blocks, ApplyWrites(d.blocks, ws))
    ensures lh != [] ==>
              var committed := Image(lh, WriteLog(g, d.blocks, vals, |lh|));
              var installed := Image([], Install(g, committed.blocks, lh, |lh|));
              && CommitTrail(g, d, ws) == WriteLogTrail(g, d, vals, |lh|) + [committed]
                                          + InstallTrail(g, committed, lh, |lh|) + [installed]
              && SameHome(g, installed.blocks, ApplyWrites(d.blocks, ws))
  {
    hide LogList, Cached, ApplyWrites, NoPanic, Overwrite, WriteLog, Install;
    LogListGood(g, |d.blocks|, ws);
    AbsorptionKeepsWrites(d.blocks, ws);
    CommitIsAtomic(g, d, lh, vals, CommitWrites(|lh|));
  }

  /** Its w-th image is the disk of a transaction cut after w block writes. */
  lemma {:induction false} CommitTrailIsStep(g: Layout, d: Image, ws: Txn, w: nat)
    requires Ready(g, Machine(d, true)) && Targets(g, |d.blocks|, ws) && NoPanic(g, ws)
    requires 0 < w <= CommitWrites(|LogList(ws)|)
    ensures |CommitTrail(g, d, ws)| == CommitWrites(|LogList(ws)|)
    ensures CommitTrail(g, d, ws)[w - 1] == Step(g, Machine(d, true), Transaction(ws, w)).disk
  {
    hide LogList, Cached, NoPanic, WriteLog, Install, WriteLogTrail, InstallTrail;
    LogListGood(g, |d.blocks|, ws);
    var lh, vals := LogList(ws), LogContents(ws);
    var n := |lh|;
    if w <= n {
      WriteLogTrailAt(g, d, vals, n, w - 1);
    } else if n + 1 < w <= 2 * n + 1 {
      InstallTrailAt(g, Image(lh, WriteLog(g, d.blocks, vals, n)), lh, n, w - n - 2);
    }
  }

  /** The images that recover_from_log() goes through, one per block write. */
  ghost function RecoverTrail(g: Layout, d: Image): (t: seq<Image>)
    requires Good(g, d)
    ensures |t| == RecoverWrites(d)
  {
    InstallTrail(g, d, d.head, |d.head|) + [Image([], Install(g, d.blocks, d.head, |d.head|))]
  }

  /** Its w-th image is the disk of a boot cut after w block writes. */
  lemma {:induction false} RecoverTrailIsStep(g: Layout, d: Image, w: nat)
    requires Good(g, d) && 0 < w <= RecoverWrites(d)
    ensures RecoverTrail(g, d)[w - 1] == Step(g, Machine(d, false), Boot(w)).disk
  {
    hide Install, InstallTrail, GoodList;
    if w <= |d.head| {
      InstallTrailAt(g, d, d.head, |d.head|, w - 1);
    }
  }

  ghost function Run(g: Layout, m: Machine, evs: seq<Event>): (m': Machine)
    requires Ready(g, m) && LegalRun(g, |m.disk.blocks|, evs)
    ensures Ready(g, m') && |m'.disk.blocks| == |m.disk.blocks|
  {
    if evs == [] then m
    else
      var n := |evs| - 1;
      Step(g, Run(g, m, evs[..n]), evs[n])
  }

  /** The transactions of the run whose commit header write completed, in order. */
  ghost function Committed(g: Layout, m: Machine, evs: seq<Event>): (txns: seq<Txn>)
    requires Ready(g, m) && LegalRun(g, |m.disk.blocks|, evs)
    ensures forall i :: 0 <= i < |txns| ==> Targets(g, |m.disk.blocks|, txns[i])
  {
    if evs == [] then []
    else
      var n := |evs| - 1;
      var ev := evs[n];
      var before := Committed(g, m, evs[..n]);
      if ReachesCommit(g, Run(g, m, evs[..n]), ev) && ev.cut > |LogList(ev.ws)| then before + [ev.ws] else before
  }

  /** All the writes of all the transactions, one by one. */
  ghost function ApplyAll(g: Layout, d: seq<Block>, txns: seq<Txn>): (e: seq<Block>)
    requires forall i :: 0 <= i < |txns| ==> Targets(g, |d|, txns[i])
    ensures |e| == |d|
  {
    if txns == [] then d
    else
      var n := |txns| - 1;
      assert Targets(g, |d|, txns[n]);
      ApplyWrites(ApplyAll(g, d, txns[..n]), txns[n])
  }

  /** The files a run must show: the committed transactions, in order, on top of what
      the first recovery would find. */
  ghost function Expected(g: Layout, m: Machine, evs: seq<Event>): (e: seq<Block>)
    requires Ready(g, m) && LegalRun(g, |m.disk.blocks|, evs)
    ensures |e| == |m.disk.blocks|
  {
    ApplyAll(g, Recovered(g, m.disk), Committed(g, m, evs))
  }

  lemma {:induction false} WritesKeepSameHome(g: Layout, d: seq<Block>, e: seq<Block>, ws: Txn)
    requires SameHome(g, d, e) && Targets(g, |d|, ws)
    ensures SameHome(g, ApplyWrites(d, ws), ApplyWrites(e, ws))
  {
    if ws != [] {
      WritesKeepSameHome(g, d, e, ws[..|ws| - 1]);
    }
  }

  /** One event takes a machine that recovers to fs to one that recovers to fs, or to fs
      with the event's writes done if its header write completed. */
  lemma {:induction false} StepIsAtomic(g: Layout, m: Machine, ev: Event, fs: seq<Block>)
    requires Ready(g, m) && Legal(g, |m.disk.blocks|, ev)
    requires SameHome(g, Recovered(g, m.disk), fs)
    requires m.up ==> SameHome(g, m.disk.blocks, fs)
    ensures var done := ReachesCommit(g, m, ev) && ev.cut > |LogList(ev.ws)|;
            var fs' := if done then ApplyWrites(fs, ev.ws) else fs;
            var m' := Step(g, m, ev);
            SameHome(g, Recovered(g, m'.disk), fs') && (m'.up ==> SameHome(g, m'.disk.blocks, fs'))
  {
    hide RecoverImage, CommitImage, LogList, ApplyWrites, Overwrite, NoPanic;
    match ev
    case PowerCut =>
    case Boot(cut) =>
      RecoveryRestarts(g, m.disk, Min(cut, RecoverWrites(m.disk)));
    case Transaction(ws, cut) =>
      if m.up && NoPanic(g, ws) {
        var lh := LogList(ws);
        var w := Min(cut, CommitWrites(|lh|));
        LogListGood(g, |m.disk.blocks|, ws);
        CommitIsAtomic(g, m.disk, lh, LogContents(ws), w);
        AbsorptionKeepsWrites(m.disk.blocks, ws);
        WritesKeepSameHome(g, m.disk.blocks, fs, ws);
      }
  }

  /** Crash safety of every run: whatever was cut where, recovery gives back exactly a
      whole number of transactions, and none whose commit completed is missing. */
  lemma {:induction false} EveryRunIsAtomic(g: Layout, m: Machine, evs: seq<Event>)
    requires Ready(g, m) && !m.up && LegalRun(g, |m.disk.blocks|, evs)
    ensures SameHome(g, Recovered(g, Run(g, m, evs).disk), Expected(g, m, evs))
    ensures Run(g, m, evs).up ==> SameHome(g, Run(g, m, evs).disk.blocks, Expected(g, m, evs))
  {
    hide Step, Recovered, ApplyWrites, LogList, NoPanic;
    if evs != [] {
      var n := |evs| - 1;
      EveryRunIsAtomic(g, m, evs[..n]);
      StepIsAtomic(g, Run(g, m, evs[..n]), evs[n], Expected(g, m, evs[..n]));
      var before, after := Committed(g, m, evs[..n]), Committed(g, m, evs);
      assert after == before || after[..|after| - 1] == before;
    }
  }
}
