/** filewrite's transactions on the log of mkfs's disk. Each of them logs blocks of one set,
    the set that Fs.Fs.WriteChunk leaves in logged; here any number of them interleave. */
module FsLog {
  import opened LogModel
  import opened LogRun
  import R = LogReserve
  import Blocks
  import Bitmap
  import FsWrite
  import FsContent
  import Fs

  /** ops holds, for every outstanding transaction, the blocks it may log. Nothing here
      keeps a transaction to a quota: log.c does not either. */
  datatype State = State(lh: seq<nat>, ops: seq<set<nat>>, committing: bool, panicked: bool)

  datatype Action =
    | Begin(blocks: set<nat>)
    | Write(op: nat, b: nat)
    | End(op: nat)
    | CommitDone

  const Empty: State := State([], [], false, false)

  /** One step of the log of LOGSIZE blocks; a step that is not enabled changes nothing. */
  function Step(s: State, a: Action): State {
    if s.panicked then s
    else match a
      case Begin(blocks) =>
        if !s.committing && |s.lh| + (|s.ops| + 1) * MAXOPBLOCKS <= LOGSIZE then s.(ops := s.ops + [blocks]) else s
      case Write(op, b) =>
        if op >= |s.ops| || b !in s.ops[op] then s
        else if |s.lh| >= LOGSIZE || |s.lh| + 1 >= LOGSIZE then s.(panicked := true)
        else s.(lh := Append(s.lh, b))
      case End(op) =>
        if op >= |s.ops| then s
        else s.(ops := s.ops[..op] + s.ops[op + 1..], committing := |s.ops| == 1)
      case CommitDone => if s.committing then s.(lh := [], committing := false) else s
  }

  function Run(run: seq<Action>): State {
    if run == [] then Empty else Step(Run(run[..|run| - 1]), run[|run| - 1])
  }

  /** Every transaction of the run is a chunk. */
  ghost predicate Chunks(run: seq<Action>) {
    forall i :: 0 <= i < |run| && run[i].Begin? ==> |run[i].blocks| <= FsWrite.CHUNKBLOCKS
  }

  // ------------------------------------------- the same run with reservations

  function Reserved(a: Action): R.Action {
    match a
    case Begin(_) => R.Begin
    case Write(op, b) => R.Write(op, b)
    case End(op) => R.End(op)
    case CommitDone => R.CommitDone
  }

  /** The steps that the reservation machine takes: what is no write of its chunk is left out. */
  function ReservedRun(run: seq<Action>): seq<R.Action> {
    if run == [] then []
    else
      var n := |run| - 1;
      var s, a := Run(run[..n]), run[n];
      ReservedRun(run[..n]) + (if a.Write? && (a.op >= |s.ops| || a.b !in s.ops[a.op]) then [] else [Reserved(a)])
  }

  ghost function Logged(lh: seq<nat>): set<nat> { set b | b in lh }

  /** Both machines agree, and no transaction has appended more than it can have. */
  ghost predicate Agree(s: State, t: R.State) {
    && t.lh == s.lh && t.committing == s.committing && t.panicked == s.panicked && |t.ops| == |s.ops|
    && forall j :: 0 <= j < |s.ops| ==> |s.ops[j]| <= FsWrite.CHUNKBLOCKS && t.ops[j] <= |s.ops[j] * Logged(s.lh)|
  }

  lemma AppendLogs(lh: seq<nat>, b: nat)
    ensures Logged(Append(lh, b)) == Logged(lh) + {b}
  {
  }

  lemma {:induction false} SmallerSet(a: set<nat>, b: set<nat>)
    requires a <= b
    ensures |a| <= |b| && (|a| == |b| ==> a == b)
    decreases |b|
  {
    if b != a {
      var x :| x in b && x !in a;
      SmallerSet(a, b - {x});
    }
  }

  /** How much of an operation's set is on the list after one more block. */
  lemma OneMore(ops: set<nat>, logged: set<nat>, b: nat)
    ensures |ops * (logged + {b})| == |ops * logged| + (if b in ops && b !in logged then 1 else 0)
    ensures b in ops && b !in logged ==> |ops * logged| < |ops|
  {
    if b in ops && b !in logged {
      assert ops * (logged + {b}) == ops * logged + {b};
      SmallerSet(ops * logged, ops - {b});
    } else {
      assert ops * (logged + {b}) == ops * logged;
    }
  }

  /** A chunk's write is never over quota, and counts at most once. */
  lemma WriteAgrees(s: State, t: R.State, op: nat, b: nat)
    requires Agree(s, t) && !s.panicked && op < |s.ops| && b in s.ops[op]
    ensures b in s.lh || t.ops[op] < FsWrite.CHUNKBLOCKS
    ensures Agree(Step(s, Write(op, b)), R.Step(LOGSIZE, FsWrite.CHUNKBLOCKS, t, R.Write(op, b)))
  {
    hide Logged;
    var s', t' := Step(s, Write(op, b)), R.Step(LOGSIZE, FsWrite.CHUNKBLOCKS, t, R.Write(op, b));
    LoggedMember(s.lh);
    AppendLogs(s.lh, b);
    OneMore(s.ops[op], Logged(s.lh), b);
    if !s'.panicked {
      forall j | 0 <= j < |s'.ops| ensures t'.ops[j] <= |s'.ops[j] * Logged(s'.lh)| {
        OneMore(s.ops[j], Logged(s.lh), b);
      }
    }
  }

  lemma LoggedMember(lh: seq<nat>)
    ensures forall b :: b in Logged(lh) <==> b in lh
  {
  }

  lemma StepAgrees(s: State, t: R.State, a: Action)
    requires Agree(s, t) && !a.Write? && (a.Begin? ==> |a.blocks| <= FsWrite.CHUNKBLOCKS)
    requires s.committing ==> s.ops == []
    ensures Agree(Step(s, a), R.Step(LOGSIZE, FsWrite.CHUNKBLOCKS, t, Reserved(a)))
  {
  }

  lemma {:induction false} RunAgrees(run: seq<Action>)
    requires Chunks(run)
    ensures Agree(Run(run), R.Run(LOGSIZE, FsWrite.CHUNKBLOCKS, R.Empty, ReservedRun(run)))
    ensures Run(run).committing ==> Run(run).ops == []
  {
    if run != [] {
      var n := |run| - 1;
      var s, t, a := Run(run[..n]), R.Run(LOGSIZE, FsWrite.CHUNKBLOCKS, R.Empty, ReservedRun(run[..n])), run[n];
      RunAgrees(run[..n]);
      var r := ReservedRun(run[..n]);
      assert (r + [Reserved(a)])[..|r|] == r;
      if a.Write? {
        if !s.panicked && a.op < |s.ops| && a.b in s.ops[a.op] {
          WriteAgrees(s, t, a.op, a.b);
        } else {
          assert r + [] == r;
        }
      } else {
        StepAgrees(s, t, a);
      }
    }
  }

  /** However filewrite's chunks interleave on mkfs's disk, log_write never panics: the
      reservation of ten blocks a chunk makes covers the nine it may log. */
  lemma ChunksNeverFillLog(run: seq<Action>)
    requires Chunks(run)
    ensures !Run(run).panicked
  {
    RunAgrees(run);
    R.BelowQuotaNeverPanics(FsWrite.CHUNKBLOCKS, ReservedRun(run));
  }

  /** So every write of a chunk is taken: its block is on the list right afterwards. */
  lemma ChunkWritesTaken(run: seq<Action>, op: nat, b: nat)
    requires Chunks(run) && op < |Run(run).ops| && b in Run(run).ops[op]
    ensures b in Run(run + [Write(op, b)]).lh
  {
    assert (run + [Write(op, b)])[..|run|] == run;
    ChunksNeverFillLog(run + [Write(op, b)]);
  }

  /** The transactions of the run log within these sets. */
  ghost predicate RunOf(run: seq<Action>, txns: seq<set<nat>>) {
    forall i :: 0 <= i < |run| && run[i].Begin? ==> run[i].blocks in txns
  }

  /** filewrite on a disk like mkfs's: whatever runs its transactions are part of, with those
      of any other filewrites, log_write never panics. */
  method FilewriteFits(fs: Fs.Fs, i: nat, off: nat, src: seq<Blocks.Byte>, n: int, ghost others: seq<set<nat>>)
    returns (r: int, panicked: bool, ghost txns: seq<set<nat>>)
    requires FsContent.Settled(fs.sb, fs.disk, fs.inodes, fs.v) && i < |fs.inodes| == |fs.v.maps| && off < Fs.U32 && n <= |src|
    requires fs.sb.size / Bitmap.BPB + 1 <= 3 && FsWrite.Budgeted(fs.sb, others)
    modifies fs
    ensures FsWrite.Budgeted(fs.sb, txns)
    ensures forall run :: RunOf(run, others + txns) ==> !Run(run).panicked
  {
    var at;
    r, at, panicked, txns := fs.Filewrite(i, off, src, n);
    forall run | RunOf(run, others + txns) ensures !Run(run).panicked {
      assert Chunks(run);
      ChunksNeverFillLog(run);
    }
  }
}
