/** sleep and wakeup of proc.c under the sleep locks of sleeplock.c, as interleaved steps:
    between any two of them another processor may run. Any number of processes, any number
    of sleep locks; every lock has its own spinlock and all share ptable.lock. */
module SleepLock {

  const FREE := -1

  datatype RunState = Running | Runnable | Sleeping

  /** The next thing a process does, on sleep lock l. */
  datatype Pc =
    | Idle
    | AcqEnter(l: nat)   // acquire(&lk->lk), in acquiresleep and at the end of sleep
    | AcqTest(l: nat)    // while (lk->locked)
    | SleepTake(l: nat)  // sleep: acquire(&ptable.lock)
    | SleepDrop(l: nat)  // sleep: release(lk)
    | SleepPark(l: nat)  // sleep: p->chan = chan, p->state = SLEEPING, sched()
    | Parked(l: nat)     // inside sched()
    | SleepWake(l: nat)  // sleep: p->chan = 0, release(&ptable.lock)
    | AcqLeave(l: nat)   // acquiresleep: release(&lk->lk)
    | RelEnter(l: nat)   // releasesleep: acquire(&lk->lk)
    | RelClear(l: nat)   // releasesleep: lk->locked = 0, lk->pid = 0
    | WakeTake(l: nat)   // wakeup: acquire(&ptable.lock)
    | WakeScan(l: nat)   // wakeup1
    | WakeDrop(l: nat)   // wakeup: release(&ptable.lock)
    | RelLeave(l: nat)   // releasesleep: release(&lk->lk)

  /** held: the sleep locks whose acquiresleep got through and whose releasesleep did not. */
  datatype Proc = Proc(state: RunState, chan: int, pc: Pc, held: set<nat>)
  datatype Lock = Lock(spin: int, locked: bool, pid: int)
  datatype St = St(procs: seq<Proc>, locks: seq<Lock>, table: int)

  datatype Action =
    | Step(p: nat)              // the process executes its next instruction
    | Acquire(p: nat, l: nat)   // it calls acquiresleep
    | Release(p: nat, l: nat)   // it calls releasesleep on a lock it holds
    | Yield(p: nat)             // the timer takes its processor away
    | Dispatch(p: nat)          // the scheduler runs it
    | Kill(p: nat)              // someone kills it

  predicate InSpin(pc: Pc) {
    || pc.AcqTest? || pc.SleepTake? || pc.SleepDrop? || pc.AcqLeave?
    || pc.RelClear? || pc.WakeTake? || pc.WakeScan? || pc.WakeDrop? || pc.RelLeave?
  }

  predicate HoldsSpin(pc: Pc, l: nat) { InSpin(pc) && pc.l == l }

  predicate HoldsTable(pc: Pc) {
    pc.SleepDrop? || pc.SleepPark? || pc.SleepWake? || pc.WakeScan? || pc.WakeDrop?
  }

  predicate InLock(pc: Pc, n: nat) { pc.Idle? || pc.l < n }

  predicate WellFormed(s: St) {
    && (forall p :: 0 <= p < |s.procs| ==> InLock(s.procs[p].pc, |s.locks|))
    && FREE <= s.table < |s.procs|
  }

  // ------------------------------------------------------------------- steps

  /** A spinlock is taken only when free; sched() gives a parked process back its turn only
      through the scheduler, which holds ptable.lock. */
  predicate Enabled(s: St, a: Action) {
    && WellFormed(s) && a.p < |s.procs|
    && var me := s.procs[a.p];
       match a
       case Step(p) =>
         && me.state == Running
         && (match me.pc
             case Idle => false
             case Parked(_) => false
             case AcqEnter(l) => s.locks[l].spin == FREE
             case RelEnter(l) => s.locks[l].spin == FREE
             case SleepTake(_) => s.table == FREE
             case WakeTake(_) => s.table == FREE
             case _ => true)
       case Acquire(p, l) => me.state == Running && me.pc.Idle? && l < |s.locks|
       case Release(p, l) => me.state == Running && me.pc.Idle? && l < |s.locks| && l in me.held
       case Yield(p) => me.state == Running && s.table == FREE && !InSpin(me.pc)
       case Dispatch(p) => me.state == Runnable && s.table == FREE
       case Kill(p) => s.table == FREE
  }

  function Goto(s: St, p: nat, pc: Pc): St
    requires p < |s.procs|
  {
    s.(procs := s.procs[p := s.procs[p].(pc := pc)])
  }

  function WithLock(s: St, l: nat, lock: Lock): St
    requires l < |s.locks|
  {
    s.(locks := s.locks[l := lock])
  }

  function Woken(procs: seq<Proc>, chan: int): seq<Proc> {
    seq(|procs|, i requires 0 <= i < |procs| =>
      if procs[i].state == Sleeping && procs[i].chan == chan then procs[i].(state := Runnable) else procs[i])
  }

  function Instruction(s: St, p: nat): St
    requires Enabled(s, Step(p))
  {
    var me := s.procs[p];
    match me.pc
    case AcqEnter(l) => Goto(WithLock(s, l, s.locks[l].(spin := p)), p, AcqTest(l))
    case AcqTest(l) =>
      if s.locks[l].locked then Goto(s, p, SleepTake(l))
      else WithLock(s, l, s.locks[l].(locked := true, pid := p)).(
             procs := s.procs[p := me.(pc := AcqLeave(l), held := me.held + {l})])
    case SleepTake(l) => Goto(s.(table := p), p, SleepDrop(l))
    case SleepDrop(l) => Goto(WithLock(s, l, s.locks[l].(spin := FREE)), p, SleepPark(l))
    case SleepPark(l) => s.(table := FREE, procs := s.procs[p := me.(pc := Parked(l), chan := l, state := Sleeping)])
    case SleepWake(l) => s.(table := FREE, procs := s.procs[p := me.(pc := AcqEnter(l), chan := FREE)])
    case AcqLeave(l) => Goto(WithLock(s, l, s.locks[l].(spin := FREE)), p, Idle)
    case RelEnter(l) => Goto(WithLock(s, l, s.locks[l].(spin := p)), p, RelClear(l))
    case RelClear(l) =>
      WithLock(s, l, s.locks[l].(locked := false, pid := FREE)).(
        procs := s.procs[p := me.(pc := WakeTake(l), held := me.held - {l})])
    case WakeTake(l) => Goto(s.(table := p), p, WakeScan(l))
    case WakeScan(l) => Goto(s.(procs := Woken(s.procs, l)), p, WakeDrop(l))
    case WakeDrop(l) => Goto(s.(table := FREE), p, RelLeave(l))
    case RelLeave(l) => Goto(WithLock(s, l, s.locks[l].(spin := FREE)), p, Idle)
  }

  function Next(s: St, a: Action): St
    requires Enabled(s, a)
  {
    var me := s.procs[a.p];
    match a
    case Step(p) => Instruction(s, p)
    case Acquire(p, l) => Goto(s, p, AcqEnter(l))
    case Release(p, l) => Goto(s, p, RelEnter(l))
    case Yield(p) => s.(procs := s.procs[p := me.(state := Runnable)])
    case Dispatch(p) =>
      if me.pc.Parked?
      then s.(table := p, procs := s.procs[p := me.(state := Running, pc := SleepWake(me.pc.l))])
      else s.(procs := s.procs[p := me.(state := Running)])
    case Kill(p) =>
      if me.state == Sleeping then s.(procs := s.procs[p := me.(state := Runnable)]) else s
  }

  predicate CanRun(s: St, run: seq<Action>)
    decreases |run|
  {
    run == [] || (Enabled(s, run[0]) && CanRun(Next(s, run[0]), run[1..]))
  }

  function Run(s: St, run: seq<Action>): St
    requires CanRun(s, run)
    decreases |run|
  {
    if run == [] then s else Run(Next(s, run[0]), run[1..])
  }

  predicate Start(s: St) {
    && s.table == FREE
    && (forall p :: 0 <= p < |s.procs| ==> s.procs[p] == Proc(s.procs[p].state, FREE, Idle, {}) && s.procs[p].state != Sleeping)
    && (forall l :: 0 <= l < |s.locks| ==> s.locks[l] == Lock(FREE, false, FREE))
  }

  // --------------------------------------------------------------- invariant

  /** lk->locked was cleared and its wakeup is still to scan the table. */
  predicate WakeupPending(s: St, l: nat)
    requires l < |s.locks|
  {
    var r := s.locks[l].spin;
    0 <= r < |s.procs| && (s.procs[r].pc == WakeTake(l) || s.procs[r].pc == WakeScan(l))
  }

  /** Why a process may sleep on lock l: it is taken, or a wakeup is on its way. */
  predicate Excuse(s: St, l: nat)
    requires l < |s.locks|
  {
    s.locks[l].locked || WakeupPending(s, l)
  }

  predicate Excused(s: St, pr: Proc)
    requires InLock(pr.pc, |s.locks|)
  {
    && (pr.pc.SleepTake? || pr.pc.SleepDrop? ==> s.locks[pr.pc.l].locked)
    && (pr.pc.SleepPark? || pr.state == Sleeping ==> !pr.pc.Idle? && Excuse(s, pr.pc.l))
  }

  predicate Spins(s: St, p: nat, pc: Pc) {
    forall l: nat :: l < |s.locks| ==> (s.locks[l].spin == p <==> HoldsSpin(pc, l))
  }

  predicate Holdings(s: St, p: nat, held: set<nat>) {
    forall l: nat :: l in held ==> l < |s.locks| && s.locks[l].locked && s.locks[l].pid == p
  }

  predicate ProcOk(s: St, p: nat, pr: Proc)
    requires InLock(pr.pc, |s.locks|)
  {
    && Spins(s, p, pr.pc)
    && (s.table == p <==> HoldsTable(pr.pc))
    && (pr.state == Sleeping ==> pr.pc.Parked?)
    && (pr.pc.Parked? ==> pr.state != Running)
    && pr.chan == (if pr.pc.Parked? || pr.pc.SleepWake? then pr.pc.l else FREE)
    && (HoldsTable(pr.pc) || InSpin(pr.pc) ==> pr.state == Running)
    && (pr.pc.RelEnter? || pr.pc.RelClear? ==> pr.pc.l in pr.held)
    && Holdings(s, p, pr.held)
    && Excused(s, pr)
  }

  predicate LockOk(s: St, l: nat)
    requires l < |s.locks|
  {
    var k := s.locks[l];
    && FREE <= k.spin < |s.procs|
    && (k.locked ==> 0 <= k.pid < |s.procs| && l in s.procs[k.pid].held)
    && (!k.locked ==> k.pid == FREE)
  }

  predicate Inv(s: St) {
    && WellFormed(s)
    && (forall p: nat :: p < |s.procs| ==> ProcOk(s, p, s.procs[p]))
    && (forall l: nat :: l < |s.locks| ==> LockOk(s, l))
  }

  // ------------------------------------------------- what one process changes

  /** Only process p and, if there is one, lock l differ; nothing is taken away from anyone but p. */
  ghost predicate OnlyMine(s: St, t: St, p: nat, l: nat)
    requires p < |s.procs|
  {
    && |t.procs| == |s.procs| && |t.locks| == |s.locks|
    && (forall q: nat :: q < |s.procs| && q != p ==> t.procs[q] == s.procs[q])
    && (forall m: nat :: m < |s.locks| && m != l ==> t.locks[m] == s.locks[m])
    && (forall m: nat :: m != l ==> (m in s.procs[p].held <==> m in t.procs[p].held))
    && (t.table == s.table || (s.table in {FREE, p} && t.table in {FREE, p}))
    && (l < |s.locks| ==>
       var k, k' := s.locks[l], t.locks[l];
       && (k'.spin == k.spin || (k.spin in {FREE, p} && k'.spin in {FREE, p}))
       && (k.locked ==> (k'.locked && k'.pid == k.pid) || (k.pid == p && k.spin == p))
       && (Excuse(s, l) ==> Excuse(t, l)))
  }

  lemma OtherProc(s: St, t: St, p: nat, l: nat, q: nat)
    requires Inv(s) && p < |s.procs| && OnlyMine(s, t, p, l)
    requires s.procs[p].pc.Idle? || s.procs[p].pc.l == l
    requires q < |s.procs| && q != p
    ensures ProcOk(t, q, t.procs[q])
  {
    var pr := s.procs[q];
    assert ProcOk(s, q, pr) && ProcOk(s, p, s.procs[p]);
    assert Spins(t, q, pr.pc);
    assert Holdings(t, q, pr.held);
    if !pr.pc.Idle? {
      ExcuseKept(s, t, p, l, pr.pc.l);
    }
  }

  lemma ExcuseKept(s: St, t: St, p: nat, l: nat, m: nat)
    requires Inv(s) && p < |s.procs| && OnlyMine(s, t, p, l) && m < |s.locks|
    requires s.procs[p].pc.Idle? || s.procs[p].pc.l == l
    ensures Excuse(s, m) ==> Excuse(t, m)
  {
    if m != l && WakeupPending(s, m) {
      assert ProcOk(s, p, s.procs[p]) && s.locks[m].spin != p;
    }
  }

  lemma OtherLock(s: St, t: St, p: nat, l: nat, m: nat)
    requires Inv(s) && p < |s.procs| && OnlyMine(s, t, p, l)
    requires m < |s.locks| && m != l
    ensures LockOk(t, m)
  {
    assert LockOk(s, m);
  }

  /** A step of p on lock l keeps the invariant once p and l themselves are in order. */
  lemma MineKeeps(s: St, t: St, p: nat, l: nat)
    requires Inv(s) && p < |s.procs| && OnlyMine(s, t, p, l)
    requires s.procs[p].pc.Idle? || s.procs[p].pc.l == l
    requires InLock(t.procs[p].pc, |t.locks|) && ProcOk(t, p, t.procs[p]) && (l < |s.locks| ==> LockOk(t, l))
    ensures Inv(t)
  {
    hide ProcOk, LockOk;
    forall q: nat | q < |t.procs| ensures ProcOk(t, q, t.procs[q]) {
      if q != p {
        OtherProc(s, t, p, l, q);
      }
    }
    forall m: nat | m < |t.locks| ensures LockOk(t, m) {
      if m != l {
        OtherLock(s, t, p, l, m);
      }
    }
  }

  lemma StepIsMine(s: St, p: nat)
    requires Enabled(s, Step(p)) && ProcOk(s, p, s.procs[p]) && !s.procs[p].pc.WakeScan?
    ensures OnlyMine(s, Instruction(s, p), p, s.procs[p].pc.l)
  {
    var l := s.procs[p].pc.l;
    assert s.locks[l].spin == p <==> HoldsSpin(s.procs[p].pc, l);
  }

  lemma StepLockOk(s: St, p: nat)
    requires Enabled(s, Step(p)) && ProcOk(s, p, s.procs[p]) && LockOk(s, s.procs[p].pc.l)
    requires !s.procs[p].pc.WakeScan?
    ensures LockOk(Instruction(s, p), s.procs[p].pc.l)
  {
    hide Holdings, Excused;
  }

  lemma StepProcOk(s: St, p: nat)
    requires Enabled(s, Step(p)) && ProcOk(s, p, s.procs[p]) && LockOk(s, s.procs[p].pc.l)
    requires !s.procs[p].pc.WakeScan?
    ensures var t := Instruction(s, p); InLock(t.procs[p].pc, |t.locks|) && ProcOk(t, p, t.procs[p])
  {
    var l, t := s.procs[p].pc.l, Instruction(s, p);
    assert s.locks[l].spin == p <==> HoldsSpin(s.procs[p].pc, l);
    assert Spins(t, p, t.procs[p].pc);
  }

  lemma StepKeeps(s: St, p: nat)
    requires Inv(s) && Enabled(s, Step(p)) && !s.procs[p].pc.WakeScan?
    ensures Inv(Instruction(s, p))
  {
    hide ProcOk, LockOk, Instruction, OnlyMine;
    var l := s.procs[p].pc.l;
    assert LockOk(s, l);
    StepIsMine(s, p);
    StepLockOk(s, p);
    StepProcOk(s, p);
    MineKeeps(s, Instruction(s, p), p, l);
  }

  /** wakeup1 takes its own excuse away, but leaves nobody sleeping who needs it. */
  lemma ScanKeeps(s: St, p: nat)
    requires Inv(s) && Enabled(s, Step(p)) && s.procs[p].pc.WakeScan?
    ensures Inv(Instruction(s, p))
  {
    var l, t := s.procs[p].pc.l, Instruction(s, p);
    hide LockOk, Spins, Holdings;
    forall q: nat | q < |t.procs| ensures ProcOk(t, q, t.procs[q]) {
      ScanProc(s, p, q);
    }
    forall m: nat | m < |t.locks| ensures LockOk(t, m) {
      assert LockOk(s, m);
      ScanLock(s, p, m);
    }
  }

  lemma ScanLock(s: St, p: nat, m: nat)
    requires Enabled(s, Step(p)) && s.procs[p].pc.WakeScan? && m < |s.locks| && LockOk(s, m)
    ensures LockOk(Instruction(s, p), m)
  {
  }

  lemma ScanProc(s: St, p: nat, q: nat)
    requires Inv(s) && Enabled(s, Step(p)) && s.procs[p].pc.WakeScan? && q < |s.procs|
    ensures var t := Instruction(s, p);
      InLock(t.procs[q].pc, |t.locks|) && ProcOk(t, q, t.procs[q])
  {
    hide LockOk;
    var l, t := s.procs[p].pc.l, Instruction(s, p);
    assert ProcOk(s, q, s.procs[q]) && ProcOk(s, p, s.procs[p]);
    assert Spins(t, q, t.procs[q].pc);
    assert Holdings(t, q, t.procs[q].held);
    if t.procs[q].state == Sleeping {
      var m := t.procs[q].pc.l;
      assert m != l && s.locks[m].spin != p;
    }
  }

  lemma CallKeeps(s: St, a: Action)
    requires Inv(s) && Enabled(s, a) && !a.Step?
    ensures Inv(Next(s, a))
  {
    hide LockOk, Instruction;
    var me, t := s.procs[a.p], Next(s, a);
    assert ProcOk(s, a.p, me);
    var l := if a.Acquire? || a.Release? then a.l else if me.pc.Idle? then |s.locks| else me.pc.l;
    assert l < |s.locks| ==> LockOk(s, l);
    CallIsMine(s, a, l);
    CallLockOk(s, a, l);
    CallProcOk(s, a);
    MineKeeps(s, t, a.p, l);
  }

  lemma CallIsMine(s: St, a: Action, l: nat)
    requires Enabled(s, a) && !a.Step? && ProcOk(s, a.p, s.procs[a.p])
    ensures OnlyMine(s, Next(s, a), a.p, l)
  {
    hide Instruction, Holdings;
  }

  lemma CallLockOk(s: St, a: Action, l: nat)
    requires Enabled(s, a) && !a.Step? && (l < |s.locks| ==> LockOk(s, l))
    ensures l < |s.locks| ==> l < |Next(s, a).locks| && LockOk(Next(s, a), l)
  {
    hide Instruction;
  }

  lemma CallProcOk(s: St, a: Action)
    requires Enabled(s, a) && !a.Step? && ProcOk(s, a.p, s.procs[a.p])
    ensures var t := Next(s, a); InLock(t.procs[a.p].pc, |t.locks|) && ProcOk(t, a.p, t.procs[a.p])
  {
    hide Instruction;
    var t := Next(s, a);
    assert Spins(t, a.p, t.procs[a.p].pc);
    assert Holdings(t, a.p, t.procs[a.p].held);
  }

  /** Every step of every process keeps the invariant. */
  lemma ActionKeeps(s: St, a: Action)
    requires Inv(s) && Enabled(s, a)
    ensures Inv(Next(s, a))
  {
    hide Inv, Instruction;
    if a.Step? {
      if s.procs[a.p].pc.WakeScan? {
        ScanKeeps(s, a.p);
      } else {
        StepKeeps(s, a.p);
      }
    } else {
      CallKeeps(s, a);
    }
  }

  lemma {:induction false} RunKeeps(s: St, run: seq<Action>)
    requires Inv(s) && CanRun(s, run)
    ensures Inv(Run(s, run))
    decreases |run|
  {
    hide Inv, Next, Enabled;
    if run != [] {
      ActionKeeps(s, run[0]);
      RunKeeps(Next(s, run[0]), run[1..]);
    }
  }

  lemma StartOk(s: St)
    requires Start(s)
    ensures Inv(s)
  {
  }

  // ---------------------------------------------------------- what users rely on

  /** In every interleaving: a sleep lock has at most one holder, the one its pid field names. */
  lemma AtMostOneHolder(s: St, run: seq<Action>, p: nat, q: nat, l: nat)
    requires Start(s) && CanRun(s, run)
    ensures var t := Run(s, run);
      p < |t.procs| && q < |t.procs| && l in t.procs[p].held && l in t.procs[q].held
      ==> p == q && l < |t.locks| && t.locks[l].locked && t.locks[l].pid == p
  {
    hide Run, CanRun, Start;
    StartOk(s);
    RunKeeps(s, run);
  }

  /** In every interleaving: whoever sleeps on a lock that is free has a wakeup on its way,
      and whoever is about to sleep holds a lock that keeps that wakeup from missing it. */
  lemma NoLostWakeup(s: St, run: seq<Action>, p: nat)
    requires Start(s) && CanRun(s, run)
    ensures var t := Run(s, run);
      p < |t.procs| && t.procs[p].state == Sleeping ==>
        && 0 <= t.procs[p].chan < |t.locks|
        && (t.locks[t.procs[p].chan].locked || WakeupPending(t, t.procs[p].chan))
  {
    hide Run, CanRun, Start;
    StartOk(s);
    RunKeeps(s, run);
  }

  /** Once the wakeup has scanned the table nobody sleeps on the lock. */
  lemma ScanWakesAll(s: St, p: nat, q: nat)
    requires Enabled(s, Step(p)) && s.procs[p].pc.WakeScan? && q < |s.procs|
    ensures var t := Instruction(s, p); !(t.procs[q].state == Sleeping && t.procs[q].chan == s.procs[p].pc.l)
  {
  }

  predicate CanStep(s: St, p: int) { 0 <= p < |s.procs| && Enabled(s, Step(p)) }

  /** No interleaving wedges the two locks: whoever holds ptable.lock can go on, and whoever
      holds a lock's spinlock can go on or waits for one who can. */
  lemma LocksNeverWedge(s: St, run: seq<Action>, l: nat)
    requires Start(s) && CanRun(s, run)
    ensures var t := Run(s, run);
      && (t.table != FREE ==> CanStep(t, t.table))
      && (l < |t.locks| && t.locks[l].spin != FREE ==> CanStep(t, t.locks[l].spin) || CanStep(t, t.table))
  {
    hide Run, CanRun, Start;
    StartOk(s);
    RunKeeps(s, run);
    var t := Run(s, run);
    if l < |t.locks| {
      assert LockOk(t, l);
    }
  }
}
