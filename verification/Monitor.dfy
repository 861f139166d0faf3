/** sleep and wakeup of proc.c for any condition: a spinlock lk guards some state, processes
    that find their condition false sleep on its channel, and whoever makes a condition true
    wakes its channel before giving lk up. Any number of processes, channels and conditions,
    every interleaving; begin_op and end_op of log.c are one user. */
module Monitor {
  import LogModel

  const FREE := -1

  /** What a process does next; c is a channel. */
  datatype Pc =
    | Away
    | Elsewhere          // in some other code under ptable.lock
    | Inside             // holds lk
    | SleepTake(c: nat)  // sleep: acquire(&ptable.lock)
    | SleepDrop(c: nat)  // sleep: release(lk)
    | SleepPark(c: nat)  // sleep: p->state = SLEEPING, sched()
    | Asleep(c: nat)
    | Awake(c: nat)      // RUNNABLE, inside sched()
    | SleepWake(c: nat)  // sleep: release(&ptable.lock)
    | Reenter(c: nat)    // sleep: acquire(lk)
    | WakeTake(c: nat)   // wakeup: acquire(&ptable.lock)
    | WakeScan(c: nat)   // wakeup1
    | WakeDrop(c: nat)   // wakeup: release(&ptable.lock)

  /** due: the channels whose conditions have become true since lk was taken and have not
      been woken. */
  datatype St<X> = St(procs: seq<Pc>, lk: int, table: int, x: X, due: set<nat>)

  datatype Action<X> =
    | Enter(p: nat)              // acquire(lk)
    | Change(p: nat, x: X)       // the holder of lk changes what it guards
    | Sleep(p: nat, c: nat)      // it calls sleep, the condition being false
    | Wakeup(p: nat, c: nat)     // it calls wakeup
    | Leave(p: nat)              // release(lk)
    | Step(p: nat)               // the next instruction of sleep or wakeup
    | Busy(p: nat)               // enters or leaves other code under ptable.lock
    | Kill(p: nat)               // someone makes a sleeper runnable

  predicate InLk(pc: Pc) {
    pc.Inside? || pc.SleepTake? || pc.SleepDrop? || pc.WakeTake? || pc.WakeScan? || pc.WakeDrop?
  }

  predicate InTable(pc: Pc) {
    pc.Elsewhere? || pc.SleepDrop? || pc.SleepPark? || pc.SleepWake? || pc.WakeScan? || pc.WakeDrop?
  }

  /** The channels of conds that x' makes true. */
  ghost function MadeTrue<X>(cond: (nat, X) -> bool, n: nat, x: X, x': X): set<nat> {
    set c: nat | c < n && cond(c, x') && !cond(c, x)
  }

  /** cond is the condition of each of the n channels. What this demands of the code that uses
      lk is that it sleeps on false conditions only, and neither sleeps nor leaves while a
      wakeup is due. */
  ghost predicate Enabled<X(!new)>(cond: (nat, X) -> bool, n: nat, s: St<X>, a: Action<X>) {
    && a.p < |s.procs|
    && var pc := s.procs[a.p];
       match a
       case Enter(_) => pc.Away? && s.lk == FREE
       case Change(_, _) => pc.Inside?
       case Sleep(_, c) => pc.Inside? && c < n && !cond(c, s.x) && s.due == {}
       case Wakeup(_, _) => pc.Inside?
       case Leave(_) => pc.Inside? && s.due == {}
       case Step(_) =>
         match pc {
           case SleepTake(_) => s.table == FREE
           case Awake(_) => s.table == FREE
           case WakeTake(_) => s.table == FREE
           case Reenter(_) => s.lk == FREE
           case SleepDrop(_) => true
           case SleepPark(_) => true
           case SleepWake(_) => true
           case WakeScan(_) => true
           case WakeDrop(_) => true
           case _ => false
         }
       case Busy(_) => (pc.Away? && s.table == FREE) || pc.Elsewhere?
       case Kill(_) => pc.Asleep? && s.table == FREE
  }

  function At<X>(s: St<X>, p: nat, pc: Pc): St<X>
    requires p < |s.procs|
  {
    s.(procs := s.procs[p := pc])
  }

  /** wakeup1. */
  function Woken(procs: seq<Pc>, c: nat): (r: seq<Pc>)
    ensures |r| == |procs|
  {
    seq(|procs|, i requires 0 <= i < |procs| => if procs[i] == Asleep(c) then Awake(c) else procs[i])
  }

  ghost function Next<X(!new)>(cond: (nat, X) -> bool, n: nat, s: St<X>, a: Action<X>): St<X>
    requires Enabled(cond, n, s, a)
  {
    var p, pc := a.p, s.procs[a.p];
    match a
    case Enter(_) => At(s, p, Inside).(lk := p)
    case Change(_, x) => s.(x := x, due := s.due + MadeTrue(cond, n, s.x, x))
    case Sleep(_, c) => At(s, p, SleepTake(c))
    case Wakeup(_, c) => At(s, p, WakeTake(c))
    case Leave(_) => At(s, p, Away).(lk := FREE)
    case Step(_) =>
      (match pc
       case SleepTake(c) => At(s, p, SleepDrop(c)).(table := p)
       case SleepDrop(c) => At(s, p, SleepPark(c)).(lk := FREE)
       case SleepPark(c) => At(s, p, Asleep(c)).(table := FREE)
       case Awake(c) => At(s, p, SleepWake(c)).(table := p)
       case SleepWake(c) => At(s, p, Reenter(c)).(table := FREE)
       case Reenter(_) => At(s, p, Inside).(lk := p)
       case WakeTake(c) => At(s, p, WakeScan(c)).(table := p)
       case WakeScan(c) => At(s.(procs := Woken(s.procs, c), due := s.due - {c}), p, WakeDrop(c))
       case WakeDrop(_) => At(s, p, Inside).(table := FREE))
    case Busy(_) => if pc.Away? then At(s, p, Elsewhere).(table := p) else At(s, p, Away).(table := FREE)
    case Kill(_) => At(s, p, Awake(pc.c))
  }

  ghost predicate CanRun<X(!new)>(cond: (nat, X) -> bool, n: nat, s: St<X>, run: seq<Action<X>>)
    decreases |run|
  {
    run == [] || (Enabled(cond, n, s, run[0]) && CanRun(cond, n, Next(cond, n, s, run[0]), run[1..]))
  }

  ghost function Run<X(!new)>(cond: (nat, X) -> bool, n: nat, s: St<X>, run: seq<Action<X>>): St<X>
    requires CanRun(cond, n, s, run)
    decreases |run|
  {
    if run == [] then s else Run(cond, n, Next(cond, n, s, run[0]), run[1..])
  }

  predicate Start<X>(s: St<X>) {
    s.lk == FREE && s.table == FREE && s.due == {} && forall p :: 0 <= p < |s.procs| ==> s.procs[p].Away?
  }

  // --------------------------------------------------------------- invariant

  /** Why a process may be in sleep: its condition is false, or its wakeup is due. */
  ghost predicate Excused<X(!new)>(cond: (nat, X) -> bool, n: nat, s: St<X>, pc: Pc) {
    && (pc.SleepTake? || pc.SleepDrop? ==> pc.c < n && !cond(pc.c, s.x) && s.due == {})
    && (pc.SleepPark? || pc.Asleep? ==> pc.c < n && (!cond(pc.c, s.x) || pc.c in s.due))
  }

  ghost predicate ProcOk<X(!new)>(cond: (nat, X) -> bool, n: nat, s: St<X>, p: nat, pc: Pc) {
    (s.lk == p <==> InLk(pc)) && (s.table == p <==> InTable(pc)) && Excused(cond, n, s, pc)
  }

  ghost predicate Inv<X(!new)>(cond: (nat, X) -> bool, n: nat, s: St<X>) {
    && FREE <= s.lk < |s.procs| && FREE <= s.table < |s.procs| && (s.lk == FREE ==> s.due == {})
    && forall p: nat :: p < |s.procs| ==> ProcOk(cond, n, s, p, s.procs[p])
  }

  lemma StepProcOk<X(!new)>(cond: (nat, X) -> bool, n: nat, s: St<X>, a: Action<X>, q: nat)
    requires Inv(cond, n, s) && Enabled(cond, n, s, a) && q < |s.procs|
    ensures var t := Next(cond, n, s, a); q < |t.procs| && ProcOk(cond, n, t, q, t.procs[q])
  {
    assert ProcOk(cond, n, s, q, s.procs[q]) && ProcOk(cond, n, s, a.p, s.procs[a.p]);
  }

  lemma ActionKeeps<X(!new)>(cond: (nat, X) -> bool, n: nat, s: St<X>, a: Action<X>)
    requires Inv(cond, n, s) && Enabled(cond, n, s, a)
    ensures Inv(cond, n, Next(cond, n, s, a))
  {
    var t := Next(cond, n, s, a);
    assert ProcOk(cond, n, s, a.p, s.procs[a.p]);
    forall q: nat | q < |t.procs| ensures ProcOk(cond, n, t, q, t.procs[q]) {
      StepProcOk(cond, n, s, a, q);
    }
  }

  lemma {:induction false} RunKeeps<X(!new)>(cond: (nat, X) -> bool, n: nat, s: St<X>, run: seq<Action<X>>)
    requires Inv(cond, n, s) && CanRun(cond, n, s, run)
    ensures Inv(cond, n, Run(cond, n, s, run))
    decreases |run|
  {
    if run != [] {
      ActionKeeps(cond, n, s, run[0]);
      RunKeeps(cond, n, Next(cond, n, s, run[0]), run[1..]);
    }
  }

  /** In every interleaving, a process that sleeps although its condition holds has a wakeup
      on its way: somebody holds lk, and can neither leave nor sleep before it has woken the
      channel. */
  lemma NoLostWakeup<X(!new)>(cond: (nat, X) -> bool, n: nat, s: St<X>, run: seq<Action<X>>, p: nat)
    requires Start(s) && CanRun(cond, n, s, run)
    requires var t := Run(cond, n, s, run); p < |t.procs| && t.procs[p].Asleep? && cond(t.procs[p].c, t.x)
    ensures var t := Run(cond, n, s, run); t.procs[p].c in t.due && 0 <= t.lk < |t.procs| && InLk(t.procs[t.lk])
    ensures var t := Run(cond, n, s, run);
      forall a :: Enabled(cond, n, t, a) && (a.Leave? || a.Sleep?) ==> a.p != t.lk
  {
    RunKeeps(cond, n, s, run);
    var t := Run(cond, n, s, run);
    assert ProcOk(cond, n, t, p, t.procs[p]);
    assert t.lk != FREE ==> ProcOk(cond, n, t, t.lk, t.procs[t.lk]);
  }

  // ------------------------------------------------- begin_op and end_op

  /** What log.lock guards, as far as begin_op looks at it. */
  datatype Log = Log(outstanding: nat, committing: bool, n: nat)

  /** The condition that begin_op waits for on &log. */
  predicate Admits(c: nat, x: Log) {
    !x.committing && x.n + (x.outstanding + 1) * LogModel.MAXOPBLOCKS <= LogModel.LOGSIZE
  }

  /** The changes that log.c makes under log.lock. */
  datatype LogChange =
    | BeginOp         // outstanding += 1
    | LogWrite        // lh.n++, or absorbed
    | EndOp           // outstanding -= 1, others remain
    | EndLastOp       // outstanding -= 1, committing = 1
    | CommitDone      // committing = 0, after the list has been emptied

  function Apply(x: Log, ch: LogChange): Log
    requires ch == EndOp ==> x.outstanding > 1
  {
    match ch
    case BeginOp => x.(outstanding := x.outstanding + 1)
    case LogWrite => x.(n := x.n + 1)
    case EndOp => x.(outstanding := x.outstanding - 1)
    case EndLastOp => x.(outstanding := 0, committing := true)
    case CommitDone => x.(committing := false, n := 0)
  }

  /** The two changes after which log.c calls wakeup(&log). */
  predicate Wakes(ch: LogChange) { ch == EndOp || ch == CommitDone }

  /** They are exactly the two that can let a waiting begin_op go on, so end_op never leaves
      log.lock with a wakeup due. */
  lemma WakesWhereNeeded(ch: LogChange)
    ensures Wakes(ch) <==> exists x: Log :: (ch == EndOp ==> x.outstanding > 1) && !Admits(0, x) && Admits(0, Apply(x, ch))
    ensures forall x: Log :: (ch == EndOp ==> x.outstanding > 1) ==>
              MadeTrue(Admits, 1, x, Apply(x, ch)) <= if Wakes(ch) then {0} else {}
  {
    match ch
    case EndOp =>
      assert !Admits(0, Log(3, false, 0)) && Admits(0, Apply(Log(3, false, 0), ch));
    case CommitDone =>
      assert !Admits(0, Log(0, true, 0)) && Admits(0, Apply(Log(0, true, 0), ch));
    case _ =>
      forall x: Log ensures !(!Admits(0, x) && Admits(0, Apply(x, ch))) {
      }
  }
}
