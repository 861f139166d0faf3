/** begin_op, log_write and end_op of log.c as interleaved atomic steps of any number
    of operations: the space each operation reserves is enough, except for one block. */
module LogReserve {
  import opened LogModel
  import opened LogRun

  /** ops counts, for every outstanding operation, the new blocks it has appended. */
  datatype State = State(lh: seq<nat>, ops: seq<nat>, committing: bool, panicked: bool)

  datatype Action =
    | Begin
    | Write(op: nat, b: nat)
    | End(op: nat)
    | CommitDone

  const Empty: State := State([], [], false, false)

  predicate Admits(s: State) {
    !s.committing && |s.lh| + (|s.ops| + 1) * MAXOPBLOCKS <= LOGSIZE
  }

  /** One step of a log of size blocks whose operations append at most quota new blocks
      each. A step that is not enabled (a sleeping begin_op, say) changes nothing. */
  function Step(size: nat, quota: nat, s: State, a: Action): State {
    if s.panicked then s
    else match a
      case Begin => if Admits(s) then s.(ops := s.ops + [0]) else s
      case Write(op, b) =>
        if op >= |s.ops| || (b !in s.lh && s.ops[op] >= quota) then s
        else if |s.lh| >= LOGSIZE || |s.lh| + 1 >= size then s.(panicked := true)
        else s.(lh := Append(s.lh, b), ops := if b in s.lh then s.ops else s.ops[op := s.ops[op] + 1])
      case End(op) =>
        if op >= |s.ops| then s
        else s.(ops := s.ops[..op] + s.ops[op + 1..], committing := |s.ops| == 1)
      case CommitDone => if s.committing then s.(lh := [], committing := false) else s
  }

  function Run(size: nat, quota: nat, s: State, run: seq<Action>): State {
    if run == [] then s
    else Step(size, quota, Run(size, quota, s, run[..|run| - 1]), run[|run| - 1])
  }

  /** The blocks the outstanding operations may still append if each may append quota. */
  function Unused(ops: seq<nat>, quota: nat): int {
    if ops == [] then 0 else quota - ops[0] + Unused(ops[1..], quota)
  }

  lemma {:induction false} UnusedConcat(a: seq<nat>, b: seq<nat>, quota: nat)
    ensures Unused(a + b, quota) == Unused(a, quota) + Unused(b, quota)
  {
    if a == [] {
      assert a + b == b;
    } else {
      assert (a + b)[1..] == a[1..] + b;
      UnusedConcat(a[1..], b, quota);
    }
  }

  lemma UnusedSmall(quota: nat)
    ensures Unused([], quota) == 0 && Unused([0], quota) == quota
  {
  }

  lemma {:induction false} UnusedRemove(ops: seq<nat>, i: nat, quota: nat)
    requires i < |ops|
    ensures Unused(ops[..i] + ops[i + 1..], quota) == Unused(ops, quota) - (quota - ops[i])
  {
    assert ops == ops[..i] + ([ops[i]] + ops[i + 1..]);
    UnusedConcat(ops[..i], [ops[i]] + ops[i + 1..], quota);
    UnusedConcat(ops[..i], ops[i + 1..], quota);
    UnusedConcat([ops[i]], ops[i + 1..], quota);
  }

  lemma {:induction false} UnusedUpdate(ops: seq<nat>, i: nat, v: nat, quota: nat)
    requires i < |ops|
    ensures Unused(ops[i := v], quota) == Unused(ops, quota) + ops[i] - v
  {
    var ops' := ops[i := v];
    UnusedRemove(ops, i, quota);
    UnusedRemove(ops', i, quota);
    assert ops'[..i] + ops'[i + 1..] == ops[..i] + ops[i + 1..];
  }

  lemma {:induction false} UnusedNonNegative(ops: seq<nat>, quota: nat)
    requires forall i :: 0 <= i < |ops| ==> ops[i] <= quota
    ensures 0 <= Unused(ops, quota)
  {
    if ops != [] {
      UnusedNonNegative(ops[1..], quota);
    }
  }

  /** bound is the space that the outstanding operations and the logged blocks fit in. */
  ghost predicate Invariant(size: nat, quota: nat, bound: nat, s: State) {
    && (forall i, j :: 0 <= i < j < |s.lh| ==> s.lh[i] != s.lh[j])
    && (forall i :: 0 <= i < |s.ops| ==> s.ops[i] <= quota)
    && |s.lh| + Unused(s.ops, quota) <= bound
    && (s.lh == [] || |s.lh| < size)
    && (s.committing ==> s.ops == [])
    && (s.ops == [] && !s.committing ==> s.lh == [])
  }

  lemma {:induction false} UnusedQuota(ops: seq<nat>, quota: nat)
    requires forall i :: 0 <= i < |ops| ==> ops[i] <= quota
    ensures Unused(ops, quota) <= quota * |ops|
  {
    if ops != [] {
      UnusedQuota(ops[1..], quota);
    }
  }

  /** What begin_op's test leaves room for. */
  lemma AdmissionFits(n: nat, ops: nat, quota: nat)
    requires n + (ops + 1) * MAXOPBLOCKS <= LOGSIZE && quota <= MAXOPBLOCKS
    ensures n + quota * ops + quota <= LOGSIZE
    ensures quota < MAXOPBLOCKS && (ops > 0 || n == 0) ==> n + quota * ops + quota <= LOGSIZE - 2
  {
    assert ops <= 2;
    if ops == 0 {} else if ops == 1 {} else {}
  }

  /** Every step keeps the invariant, for the bound that begin_op's test guarantees. */
  lemma {:induction false} StepKeepsInvariant(size: nat, quota: nat, bound: nat, s: State, a: Action)
    requires Invariant(size, quota, bound, s)
    requires (quota == MAXOPBLOCKS && bound == LOGSIZE) || (quota < MAXOPBLOCKS && bound == LOGSIZE - 2)
    ensures Invariant(size, quota, bound, Step(size, quota, s, a))
  {
    hide Unused;
    assert Unused([], quota) == 0 && Unused([0], quota) == quota by { UnusedSmall(quota); }
    if s.panicked {
      return;
    }
    match a
    case Begin =>
      UnusedConcat(s.ops, [0], quota);
      if Admits(s) {
        UnusedQuota(s.ops, quota);
        AdmissionFits(|s.lh|, |s.ops|, quota);
      }
    case Write(op, b) => WriteKeepsInvariant(size, quota, bound, s, op, b);
    case End(op) =>
      if op < |s.ops| {
        UnusedRemove(s.ops, op, quota);
      }
    case CommitDone =>
  }

  lemma {:induction false} WriteKeepsInvariant(size: nat, quota: nat, bound: nat, s: State, op: nat, b: nat)
    requires Invariant(size, quota, bound, s) && !s.panicked
    ensures Invariant(size, quota, bound, Step(size, quota, s, Write(op, b)))
  {
    hide Unused;
    if op < |s.ops| && b !in s.lh {
      UnusedUpdate(s.ops, op, s.ops[op] + 1, quota);
    }
  }

  lemma {:induction false} RunKeepsInvariant(size: nat, quota: nat, bound: nat, s: State, run: seq<Action>)
    requires Invariant(size, quota, bound, s)
    requires (quota == MAXOPBLOCKS && bound == LOGSIZE) || (quota < MAXOPBLOCKS && bound == LOGSIZE - 2)
    ensures Invariant(size, quota, bound, Run(size, quota, s, run))
  {
    if run != [] {
      RunKeepsInvariant(size, quota, bound, s, run[..|run| - 1]);
      StepKeepsInvariant(size, quota, bound, Run(size, quota, s, run[..|run| - 1]), run[|run| - 1]);
    }
  }

  /** The block that write_log uses for the i-th logged block is a data block of the log. */
  predicate InLogArea(g: Layout, i: nat) {
    g.start < g.start + 1 + i < g.start + g.size
  }

  /** In every interleaving: the logged blocks and the unused reservations fit in LOGSIZE,
      logged block numbers are distinct, every log block lies in the log area, and no
      operation is outstanding while a commit runs. */
  lemma {:induction false} ReservationHolds(g: Layout, run: seq<Action>)
    ensures var s := Run(g.size, MAXOPBLOCKS, Empty, run);
            && |s.lh| + Unused(s.ops, MAXOPBLOCKS) <= LOGSIZE && |s.lh| <= LOGSIZE
            && (forall i, j :: 0 <= i < j < |s.lh| ==> s.lh[i] != s.lh[j])
            && (forall i :: 0 <= i < |s.lh| ==> InLogArea(g, i))
            && (s.committing ==> s.ops == [])
  {
    RunKeepsInvariant(g.size, MAXOPBLOCKS, LOGSIZE, Empty, run);
    UnusedNonNegative(Run(g.size, MAXOPBLOCKS, Empty, run).ops, MAXOPBLOCKS);
  }

  // ---------------------------------------------------------- when it panics

  lemma {:induction false} BelowQuotaNeverPanics(quota: nat, run: seq<Action>)
    requires quota < MAXOPBLOCKS
    ensures !Run(LOGSIZE, quota, Empty, run).panicked
  {
    if run != [] {
      var before := run[..|run| - 1];
      BelowQuotaNeverPanics(quota, before);
      RunKeepsInvariant(LOGSIZE, quota, LOGSIZE - 2, Empty, before);
      UnusedNonNegative(Run(LOGSIZE, quota, Empty, before).ops, quota);
    }
  }

  function WriteMany(op: nat, from: nat, count: nat): seq<Action> {
    if count == 0 then [] else WriteMany(op, from, count - 1) + [Write(op, from + count - 1)]
  }

  function Upto(count: nat): seq<nat> {
    if count == 0 then [] else Upto(count - 1) + [count - 1]
  }

  lemma UptoBelow(count: nat)
    ensures |Upto(count)| == count && forall b :: b in Upto(count) ==> b < count
  {
  }

  lemma UptoNext(count: nat)
    ensures Upto(count + 1) == Upto(count) + [count]
  {
  }

  lemma {:induction false} RunConcat(size: nat, quota: nat, s: State, a: seq<Action>, b: seq<Action>)
    ensures Run(size, quota, s, a + b) == Run(size, quota, Run(size, quota, s, a), b)
  {
    if b == [] {
      assert a + b == a;
    } else {
      var n := |b| - 1;
      assert (a + b)[..|a| + n] == a + b[..n] && (a + b)[|a| + n] == b[n];
      RunConcat(size, quota, s, a, b[..n]);
    }
  }

  /** An operation that appends blocks from, from + 1, ... while there is room. */
  lemma {:induction false} WriteManyAppends(quota: nat, s: State, op: nat, from: nat, count: nat)
    requires !s.panicked && op < |s.ops| && s.ops[op] == 0 && count <= quota
    requires s.lh == Upto(from) && from + count < LOGSIZE
    ensures Run(LOGSIZE, quota, s, WriteMany(op, from, count)) == s.(lh := Upto(from + count), ops := s.ops[op := count])
  {
    hide Upto, Run;
    if count == 0 {
      assert s.ops[op := 0] == s.ops;
      RunNone(LOGSIZE, quota, s);
    } else {
      var m := from + count - 1;
      var mid := s.(lh := Upto(m), ops := s.ops[op := count - 1]);
      WriteManyAppends(quota, s, op, from, count - 1);
      RunConcat(LOGSIZE, quota, s, WriteMany(op, from, count - 1), [Write(op, m)]);
      RunOne(LOGSIZE, quota, mid, Write(op, m));
      UptoBelow(m);
      UptoNext(m);
      assert mid.ops[op := count] == s.ops[op := count];
    }
  }

  /** Three operations are admitted together, but their thirtieth block does not fit. */
  function FullRun(q: nat): seq<Action> {
    [Begin, Begin, Begin] + WriteMany(0, 0, q) + WriteMany(1, q, q) + WriteMany(2, 2 * q, if q > 0 then q - 1 else 0)
    + [Write(2, 3 * q)]
  }

  lemma {:induction false} ThreeBegins(q: nat)
    ensures Run(LOGSIZE, q, Empty, [Begin, Begin, Begin]) == State([], [0, 0, 0], false, false)
  {
    var one, two := State([], [0], false, false), State([], [0, 0], false, false);
    assert [Begin, Begin, Begin][..2] == [Begin, Begin] && [Begin, Begin][..1] == [Begin] && [Begin][..0] == [];
    assert Run(LOGSIZE, q, Empty, [Begin]) == one;
    assert Run(LOGSIZE, q, Empty, [Begin, Begin]) == two;
  }

  lemma {:induction false} FullRunPanics(q: nat)
    requires q == MAXOPBLOCKS
    ensures Run(LOGSIZE, q, Empty, FullRun(q)).panicked
  {
    hide Run, WriteMany, Upto;
    var s0 := State([], [0, 0, 0], false, false);
    var s1 := State(Upto(q), [q, 0, 0], false, false);
    var s2 := State(Upto(2 * q), [q, q, 0], false, false);
    var s3 := State(Upto(3 * q - 1), [q, q, q - 1], false, false);
    var r0 := [Begin, Begin, Begin];
    var r1 := r0 + WriteMany(0, 0, q);
    var r2 := r1 + WriteMany(1, q, q);
    var r3 := r2 + WriteMany(2, 2 * q, q - 1);
    ThreeBegins(q);
    UptoBelow(0);
    assert Upto(0) == [];
    assert [0, 0, 0][0 := q] == [q, 0, 0] && [q, 0, 0][1 := q] == [q, q, 0] && [q, q, 0][2 := q - 1] == [q, q, q - 1];
    WriteManyAppends(q, s0, 0, 0, q);
    WriteManyAppends(q, s1, 1, q, q);
    WriteManyAppends(q, s2, 2, 2 * q, q - 1);
    RunConcat(LOGSIZE, q, Empty, r0, WriteMany(0, 0, q));
    RunConcat(LOGSIZE, q, Empty, r1, WriteMany(1, q, q));
    RunConcat(LOGSIZE, q, Empty, r2, WriteMany(2, 2 * q, q - 1));
    RunConcat(LOGSIZE, q, Empty, r3, [Write(2, 3 * q)]);
    UptoBelow(3 * q - 1);
    RunOne(LOGSIZE, q, s3, Write(2, 3 * q));
    assert FullRun(q) == r3 + [Write(2, 3 * q)];
  }

  lemma RunNone(size: nat, quota: nat, s: State)
    ensures Run(size, quota, s, []) == s
  {
  }

  lemma RunOne(size: nat, quota: nat, s: State, a: Action)
    ensures Run(size, quota, s, [a]) == Step(size, quota, s, a)
  {
    assert [a][..0] == [];
  }

  /** "No operation within its MAXOPBLOCKS budget makes log_write panic" is false of a log
      of LOGSIZE blocks; it holds exactly for operations that stay one block below it. */
  lemma {:induction false} PanicExactly(quota: nat)
    requires quota <= MAXOPBLOCKS
    ensures (forall run :: !Run(LOGSIZE, quota, Empty, run).panicked) <==> quota < MAXOPBLOCKS
  {
    if quota < MAXOPBLOCKS {
      forall run
        ensures !Run(LOGSIZE, quota, Empty, run).panicked
      {
        BelowQuotaNeverPanics(quota, run);
      }
    } else {
      FullRunPanics(quota);
    }
  }
}
