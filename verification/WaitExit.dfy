/** exit, wait, kill and the wakeups between them (proc.c), one section under ptable.lock
    at a time. A process is its index in the table; its own address, on which wait sleeps,
    is that index too, and any other channel is a number below NULL. */
module WaitExit {

  const NULL := -1

  datatype RunState = UNUSED | EMBRYO | SLEEPING | RUNNABLE | RUNNING | ZOMBIE

  datatype Proc = Proc(state: RunState, parent: int, chan: int, killed: bool, pid: nat)

  ghost predicate Alive(pr: Proc) { pr.state != UNUSED && pr.state != EMBRYO && pr.state != ZOMBIE }

  // ------------------------------------------------------- what each section does

  ghost function Wake(pr: Proc, chan: int): Proc {
    if pr.state == SLEEPING && pr.chan == chan then pr.(state := RUNNABLE) else pr
  }

  ghost predicate IsChild(procs: seq<Proc>, p: nat, q: nat) { q < |procs| && procs[q].parent == p }

  ghost predicate IsZombieChild(procs: seq<Proc>, p: nat, q: nat) {
    IsChild(procs, p, q) && procs[q].state == ZOMBIE
  }

  ghost predicate HasChild(procs: seq<Proc>, p: nat) { exists q: nat :: IsChild(procs, p, q) }
  ghost predicate HasZombie(procs: seq<Proc>, p: nat) { exists q: nat :: IsZombieChild(procs, p, q) }

  /** procs[q] after process p has left: its parent is awake, its children are init's, and
      init is awake if one of them is a zombie. */
  ghost function Left(procs: seq<Proc>, init: nat, p: nat, q: nat): Proc
    requires p < |procs| && q < |procs|
  {
    var woken := Wake(procs[q], procs[p].parent);
    var adopted := if woken.parent == p then woken.(parent := init) else woken;
    var told := if HasZombie(procs, p) then Wake(adopted, init) else adopted;
    if q == p then told.(state := ZOMBIE) else told
  }

  datatype Answer = Reaped(q: nat) | NoChild | Asleep

  ghost predicate IsAnswer(procs: seq<Proc>, p: nat, a: Answer)
    requires p < |procs|
  {
    match a
    case Reaped(q) => IsZombieChild(procs, p, q) && forall j: nat :: j < q ==> !IsZombieChild(procs, p, j)
    case NoChild => !HasZombie(procs, p) && (!HasChild(procs, p) || procs[p].killed)
    case Asleep => !HasZombie(procs, p) && HasChild(procs, p) && !procs[p].killed
  }

  const Empty := Proc(UNUSED, NULL, NULL, false, 0)

  ghost function AfterWait(procs: seq<Proc>, p: nat, a: Answer): seq<Proc>
    requires p < |procs| && (a.Reaped? ==> a.q < |procs|)
  {
    match a
    case Reaped(q) => procs[q := Empty.(chan := procs[q].chan)]
    case NoChild => procs
    case Asleep => procs[p := procs[p].(state := SLEEPING, chan := p)]
  }

  // --------------------------------------------------------------------- runs

  datatype Action =
    | Alloc(p: nat, q: nat, pid: nat) // fork calls allocproc, which takes the unused slot q
    | Undo(p: nat)                    // fork fails and gives the slot back
    | Claim(p: nat)                   // fork sets np->parent, without the lock
    | Ready(p: nat)                   // fork makes the child runnable
    | Exit(p: nat)
    | Wait(p: nat, a: Answer)         // one pass over the table, from wait's start or its sleep
    | Kill(p: nat, q: nat)            // kill with q's pid
    | SleepOn(p: nat, chan: int)      // sleep anywhere else in the kernel
    | WakeUp(chan: int)               // wakeup anywhere else in the kernel
    | Dispatch(p: nat)
    | Yield(p: nat)

  /** making: the slot that each process inside fork is filling. */
  datatype Table = Table(procs: seq<Proc>, init: nat, making: map<nat, nat>)

  ghost predicate Runs(t: Table, p: nat) { p < |t.procs| && t.procs[p].state == RUNNING }

  ghost predicate Makes(t: Table, p: nat) { Runs(t, p) && p in t.making && t.making[p] < |t.procs| }

  ghost predicate Enabled(t: Table, act: Action) {
    match act
    case Alloc(p, q, _) => Runs(t, p) && p !in t.making && q < |t.procs| && t.procs[q].state == UNUSED
    case Undo(p) => Makes(t, p) && t.procs[t.making[p]].parent == NULL
    case Claim(p) => Makes(t, p)
    case Ready(p) => Makes(t, p) && t.procs[t.making[p]].parent == p
    case Exit(p) => Runs(t, p) && p !in t.making && p != t.init
    case Wait(p, a) => Runs(t, p) && p !in t.making && IsAnswer(t.procs, p, a)
    case Kill(p, q) => Runs(t, p) && q < |t.procs|
    case SleepOn(p, chan) => Runs(t, p) && chan < NULL
    case WakeUp(chan) => chan < NULL
    case Dispatch(p) => p < |t.procs| && t.procs[p].state == RUNNABLE
    case Yield(p) => Runs(t, p)
  }

  ghost function Next(t: Table, act: Action): Table
    requires Enabled(t, act)
  {
    var procs := t.procs;
    t.(procs :=
      match act
      case Alloc(_, q, pid) => procs[q := procs[q].(state := EMBRYO, pid := pid)]
      case Undo(p) => procs[t.making[p] := procs[t.making[p]].(state := UNUSED)]
      case Claim(p) => procs[t.making[p] := procs[t.making[p]].(parent := p)]
      case Ready(p) => procs[t.making[p] := procs[t.making[p]].(state := RUNNABLE)]
      case Exit(p) => seq(|procs|, q requires 0 <= q < |procs| => Left(procs, t.init, p, q))
      case Wait(p, a) => AfterWait(procs, p, a)
      case Kill(_, q) =>
        procs[q := procs[q].(killed := true, state := if procs[q].state == SLEEPING then RUNNABLE else procs[q].state)]
      case SleepOn(p, chan) => procs[p := procs[p].(state := SLEEPING, chan := chan)]
      case WakeUp(chan) => seq(|procs|, q requires 0 <= q < |procs| => Wake(procs[q], chan))
      case Dispatch(p) => procs[p := procs[p].(state := RUNNING)]
      case Yield(p) => procs[p := procs[p].(state := RUNNABLE)],
      making :=
      match act
      case Alloc(p, q, _) => t.making[p := q]
      case Undo(p) => t.making - {p}
      case Ready(p) => t.making - {p}
      case _ => t.making)
  }

  ghost predicate CanRun(t: Table, run: seq<Action>)
    decreases |run|
  {
    run == [] || (Enabled(t, run[0]) && CanRun(Next(t, run[0]), run[1..]))
  }

  ghost function Run(t: Table, run: seq<Action>): Table
    requires CanRun(t, run)
    decreases |run|
  {
    if run == [] then t else Run(Next(t, run[0]), run[1..])
  }

  /** As userinit leaves the table: init alone, and every other slot empty. */
  ghost predicate Start(t: Table) {
    && t.making == map[] && t.init < |t.procs| && Alive(t.procs[t.init]) && t.procs[t.init].parent == NULL
    && t.procs[t.init].state != SLEEPING
    && forall q: nat :: q < |t.procs| && q != t.init ==> t.procs[q].state == UNUSED && t.procs[q].parent == NULL
  }

  // ---------------------------------------------------------------- invariant

  /** A process other than init has a living parent; one being made has its maker. */
  ghost predicate FamilyOk(t: Table, q: nat)
    requires q < |t.procs|
  {
    var pr := t.procs[q];
    if q == t.init then Alive(pr) && pr.parent == NULL
    else if pr.state == UNUSED then pr.parent == NULL
    else if pr.state == EMBRYO then
      exists p: nat :: p in t.making && t.making[p] == q && (pr.parent == NULL || pr.parent == p)
    else 0 <= pr.parent < |t.procs| && pr.parent != q && Alive(t.procs[pr.parent])
  }

  /** Whoever is inside fork is alive, and fills a slot of its own. */
  ghost predicate MakerOk(t: Table, p: nat) {
    p in t.making ==>
      && p < |t.procs| && Alive(t.procs[p])
      && t.making[p] < |t.procs| && t.procs[t.making[p]].state == EMBRYO
      && forall r: nat :: r in t.making && t.making[r] == t.making[p] ==> r == p
  }

  /** A process asleep in wait has something to wait for and nothing to collect. */
  ghost predicate SleepOk(t: Table, q: nat)
    requires q < |t.procs|
  {
    var pr := t.procs[q];
    pr.state == SLEEPING && pr.chan >= 0 ==>
      pr.chan == q && !pr.killed && HasChild(t.procs, q) && !HasZombie(t.procs, q)
  }

  ghost predicate Inv(t: Table) {
    && t.init < |t.procs|
    && (forall q: nat :: q < |t.procs| ==> FamilyOk(t, q))
    && (forall q: nat :: q < |t.procs| ==> SleepOk(t, q))
    && (forall p: nat :: MakerOk(t, p))
  }

  /** Makers and what they make are not touched by anyone else. */
  lemma MakersKeep(t: Table, u: Table)
    requires Inv(t) && u.making == t.making && |u.procs| == |t.procs|
    requires forall q: nat :: q < |t.procs| && q in t.making && Alive(t.procs[q]) ==> Alive(u.procs[q])
    requires forall q: nat :: q < |t.procs| && t.procs[q].state == EMBRYO ==> u.procs[q].state == EMBRYO
    ensures forall p: nat :: MakerOk(u, p)
  {
    forall p: nat ensures MakerOk(u, p) {
      assert MakerOk(t, p);
    }
  }

  lemma ExitFamily(t: Table, p: nat, q: nat)
    requires Inv(t) && Enabled(t, Exit(p)) && q < |t.procs|
    ensures q < |Next(t, Exit(p)).procs| && FamilyOk(Next(t, Exit(p)), q)
  {
    hide HasZombie;
    var u := Next(t, Exit(p));
    assert FamilyOk(t, p) && FamilyOk(t, t.init) && FamilyOk(t, q);
    if q != t.init && t.procs[q].state == EMBRYO {
      var r: nat :| r in t.making && t.making[r] == q && (t.procs[q].parent == NULL || t.procs[q].parent == r);
      assert r in u.making && u.making[r] == q;
    }
  }

  lemma ExitKeeps(t: Table, p: nat)
    requires Inv(t) && Enabled(t, Exit(p))
    ensures Inv(Next(t, Exit(p)))
  {
    hide FamilyOk, MakerOk, HasZombie;
    var u := Next(t, Exit(p));
    forall q: nat | q < |u.procs| ensures FamilyOk(u, q) {
      ExitFamily(t, p, q);
    }
    forall q: nat | q < |u.procs| ensures SleepOk(u, q) {
      assert SleepOk(t, q);
      if u.procs[q].state == SLEEPING && u.procs[q].chan >= 0 {
        ExitLeaves(t, p, q);
      }
    }
    MakersKeep(t, u);
  }

  /** Whoever still sleeps in wait after an exit was not waiting for it. */
  lemma ExitLeaves(t: Table, p: nat, q: nat)
    requires Inv(t) && Enabled(t, Exit(p)) && q < |t.procs|
    requires Next(t, Exit(p)).procs[q].state == SLEEPING && Next(t, Exit(p)).procs[q].chan >= 0
    ensures HasChild(Next(t, Exit(p)).procs, q) && !HasZombie(Next(t, Exit(p)).procs, q)
  {
    var u := Next(t, Exit(p));
    assert SleepOk(t, q) && t.procs[q].state == SLEEPING && q != p;
    assert t.procs[p].parent != q && FamilyOk(t, p);
    var c: nat :| IsChild(t.procs, q, c);
    assert IsChild(u.procs, q, c);
    forall z: nat ensures !IsZombieChild(u.procs, q, z) {
      assert !IsZombieChild(t.procs, q, z);
      assert q == t.init ==> !IsZombieChild(t.procs, p, z);
    }
  }

  lemma WaitKeeps(t: Table, p: nat, a: Answer)
    requires Inv(t) && Enabled(t, Wait(p, a))
    ensures Inv(Next(t, Wait(p, a)))
  {
    var u := Next(t, Wait(p, a));
    MakersKeep(t, u);
    assert FamilyOk(t, p);
    assert a.Reaped? ==> FamilyOk(t, a.q);
    forall q: nat | q < |u.procs| ensures FamilyOk(u, q) {
      assert FamilyOk(t, q);
    }
    forall q: nat | q < |u.procs| ensures SleepOk(u, q) {
      assert SleepOk(t, q);
      if q != p && u.procs[q].state == SLEEPING && u.procs[q].chan >= 0 {
        SleepKept(t, u, q);
      } else if q == p && a.Asleep? {
        var c: nat :| IsChild(t.procs, p, c);
        assert IsChild(u.procs, p, c);
        assert forall z: nat :: IsZombieChild(u.procs, p, z) ==> IsZombieChild(t.procs, p, z);
      }
    }
  }

  /** q's sleep stays justified while it keeps its children and none of them dies. */
  lemma SleepKept(t: Table, u: Table, q: nat)
    requires q < |t.procs| == |u.procs| && SleepOk(t, q)
    requires u.procs[q] == t.procs[q] && t.procs[q].state == SLEEPING && t.procs[q].chan >= 0
    requires forall z: nat :: IsChild(t.procs, q, z) ==> IsChild(u.procs, q, z)
    requires forall z: nat :: IsZombieChild(u.procs, q, z) ==> IsZombieChild(t.procs, q, z)
    ensures SleepOk(u, q)
  {
    var z: nat :| IsChild(t.procs, q, z);
    assert IsChild(u.procs, q, z);
  }

  /** The steps of fork, none of which touches a process that others wait for. */
  lemma ForkKeeps(t: Table, act: Action)
    requires Inv(t) && Enabled(t, act) && (act.Alloc? || act.Undo? || act.Claim? || act.Ready?)
    ensures Inv(Next(t, act))
  {
    hide FamilyOk, MakerOk;
    var u, c := Next(t, act), if act.Alloc? then act.q else t.making[act.p];
    forall q: nat | q < |u.procs| ensures FamilyOk(u, q) {
      ForkFamily(t, act, c, q);
    }
    forall q: nat | q < |u.procs| ensures SleepOk(u, q) {
      assert SleepOk(t, q);
      if u.procs[q].state == SLEEPING && u.procs[q].chan >= 0 {
        ForkChildren(t, act, c, q);
        SleepKept(t, u, q);
      }
    }
    forall r: nat ensures MakerOk(u, r) {
      ForkMaker(t, act, c, r);
    }
  }

  lemma ForkChildren(t: Table, act: Action, c: nat, q: nat)
    requires Inv(t) && Enabled(t, act) && (act.Alloc? || act.Undo? || act.Claim? || act.Ready?)
    requires c == (if act.Alloc? then act.q else t.making[act.p])
    requires q < |t.procs| && Next(t, act).procs[q].state == SLEEPING
    ensures Next(t, act).procs[q] == t.procs[q]
    ensures forall z: nat :: IsChild(t.procs, q, z) ==> IsChild(Next(t, act).procs, q, z)
    ensures forall z: nat :: IsZombieChild(Next(t, act).procs, q, z) ==> IsZombieChild(t.procs, q, z)
  {
    hide SleepOk;
    assert c < |t.procs| && FamilyOk(t, c) && MakerOk(t, act.p);
    assert forall o: nat :: o in t.making && t.making[o] == c ==> MakerOk(t, o);
  }

  lemma ForkMaker(t: Table, act: Action, c: nat, r: nat)
    requires Inv(t) && Enabled(t, act) && (act.Alloc? || act.Undo? || act.Claim? || act.Ready?)
    requires c == if act.Alloc? then act.q else t.making[act.p]
    ensures MakerOk(Next(t, act), r)
  {
    hide FamilyOk, SleepOk;
    var u := Next(t, act);
    assert MakerOk(t, r) && MakerOk(t, act.p);
    forall o: nat | o in u.making && r in u.making && u.making[o] == u.making[r] ensures o == r {
      assert MakerOk(t, o);
    }
  }

  lemma ForkFamily(t: Table, act: Action, c: nat, q: nat)
    requires Inv(t) && Enabled(t, act) && (act.Alloc? || act.Undo? || act.Claim? || act.Ready?)
    requires c == (if act.Alloc? then act.q else t.making[act.p]) && q < |t.procs|
    ensures q < |Next(t, act).procs| && FamilyOk(Next(t, act), q)
  {
    var u := Next(t, act);
    assert FamilyOk(t, act.p) && FamilyOk(t, c) && FamilyOk(t, q) && MakerOk(t, act.p);
    if q == c {
      if act.Alloc? || act.Claim? {
        assert act.p in u.making && u.making[act.p] == q;
      }
    } else if t.procs[q].state == EMBRYO {
      var r: nat :| r in t.making && t.making[r] == q && (t.procs[q].parent == NULL || t.procs[q].parent == r);
      assert r in u.making && u.making[r] == q;
    }
  }

  /** Steps that only change who runs: nobody dies, is born or changes parent. */
  lemma OthersKeep(t: Table, act: Action)
    requires Inv(t) && Enabled(t, act) && !act.Alloc? && !act.Undo? && !act.Claim? && !act.Ready? && !act.Exit? && !act.Wait?
    ensures Inv(Next(t, act))
  {
    hide MakerOk;
    var u := Next(t, act);
    MakersKeep(t, u);
    forall q: nat | q < |u.procs| ensures FamilyOk(u, q) {
      assert FamilyOk(t, q);
    }
    forall q: nat | q < |u.procs| ensures SleepOk(u, q) {
      assert SleepOk(t, q);
      if u.procs[q].state == SLEEPING && u.procs[q].chan >= 0 {
        SleepKept(t, u, q);
      }
    }
  }

  lemma ActionKeeps(t: Table, act: Action)
    requires Inv(t) && Enabled(t, act)
    ensures Inv(Next(t, act))
  {
    hide Inv, Enabled, Next;
    match act
    case Alloc(_, _, _) => ForkKeeps(t, act);
    case Undo(_) => ForkKeeps(t, act);
    case Claim(_) => ForkKeeps(t, act);
    case Ready(_) => ForkKeeps(t, act);
    case Exit(p) => ExitKeeps(t, p);
    case Wait(p, a) => WaitKeeps(t, p, a);
    case _ => OthersKeep(t, act);
  }

  lemma {:induction false} RunKeeps(t: Table, run: seq<Action>)
    requires Inv(t) && CanRun(t, run)
    ensures Inv(Run(t, run))
    decreases |run|
  {
    hide Inv, Enabled, Next;
    if run != [] {
      ActionKeeps(t, run[0]);
      RunKeeps(Next(t, run[0]), run[1..]);
    }
  }

  /** In every run: nobody sleeps in wait with a dead child to collect, nobody sleeps there
      without a child, and every dead process has a living parent to collect it. */
  lemma NoMissedExit(t: Table, run: seq<Action>, q: nat)
    requires Start(t) && CanRun(t, run)
    ensures var u := Run(t, run);
      q < |u.procs| ==>
        && (u.procs[q].state == SLEEPING && u.procs[q].chan == q ==> !HasZombie(u.procs, q) && HasChild(u.procs, q))
        && (u.procs[q].state == ZOMBIE ==> 0 <= u.procs[q].parent < |u.procs| && Alive(u.procs[u.procs[q].parent]))
  {
    hide Run, CanRun;
    assert Inv(t);
    RunKeeps(t, run);
    var u := Run(t, run);
    assert q < |u.procs| ==> FamilyOk(u, q) && SleepOk(u, q);
  }

  /** An exit leaves its parent awake if the parent was waiting. */
  lemma ExitWakesParent(t: Table, p: nat)
    requires Inv(t) && Enabled(t, Exit(p))
    ensures var u, q := Next(t, Exit(p)), t.procs[p].parent;
      0 <= q < |t.procs| && IsZombieChild(u.procs, q, p) && !(u.procs[q].state == SLEEPING && u.procs[q].chan == q)
  {
    assert FamilyOk(t, p);
  }

  // ---------------------------------------------------------------- proc.c itself

  class Ptable {
    var procs: seq<Proc>
    var nextpid: nat
    const init: nat
    var making: map<nat, nat>  // np of each process inside fork

    ghost function T(): Table
      reads this
    {
      Table(procs, init, making)
    }

    constructor (n: nat, init: nat)
      requires init < n
      ensures Start(T()) && |procs| == n && this.init == init
    {
      this.init := init;
      nextpid := 2;
      making := map[];
      procs := seq(n, _ => Empty)[init := Empty.(state := RUNNABLE, pid := 1)];
    }

    /** wakeup1 */
    method Wakeup1(chan: int)
      modifies `procs
      ensures |procs| == |old(procs)|
      ensures forall q :: 0 <= q < |procs| ==> procs[q] == Wake(old(procs)[q], chan)
    {
      var p := 0;
      while p < |procs|
        invariant p <= |procs| == |old(procs)|
        invariant forall q :: 0 <= q < |procs| ==> procs[q] == if q < p then Wake(old(procs)[q], chan) else old(procs)[q]
      {
        if procs[p].state == SLEEPING && procs[p].chan == chan {
          procs := procs[p := procs[p].(state := RUNNABLE)];
        }
        p := p + 1;
      }
    }

    /** The loop of exit over the children of p. */
    method Abandon(p: nat)
      requires p < |procs| && init < |procs| && init != p
      modifies `procs
      ensures |procs| == |old(procs)|
      ensures forall q: nat :: q < |procs| ==>
        procs[q] == Adopt(old(procs)[q], p, init, HasZombie(old(procs), p))
    {
      ghost var was := procs;
      ghost var seen := false;
      var q := 0;
      while q < |procs|
        invariant q <= |procs| == |was|
        invariant seen <==> exists z: nat :: z < q && IsZombieChild(was, p, z)
        invariant forall j: nat :: j < |procs| ==>
          procs[j] == if j < q then Adopt(was[j], p, init, seen) else if seen then Wake(was[j], init) else was[j]
      {
        if procs[q].parent == p {
          procs := procs[q := procs[q].(parent := init)];
          if procs[q].state == ZOMBIE {
            assert IsZombieChild(was, p, q);
            seen := true;
            Wakeup1(init);
          }
        }
        q := q + 1;
      }
      assert seen <==> HasZombie(was, p);
    }

    /** exit after its files are closed; false is panic("init exiting"). */
    method Exit(p: nat) returns (ok: bool)
      requires Runs(T(), p) && p !in making && init < |procs|
      modifies `procs
      ensures ok <==> p != init
      ensures ok ==> T() == Next(old(T()), Action.Exit(p))
      ensures !ok ==> procs == old(procs)
    {
      if p == init {
        return false;
      }
      ghost var was := procs;
      Wakeup1(procs[p].parent);
      ghost var woken := procs;
      Abandon(p);
      assert HasZombie(woken, p) <==> HasZombie(was, p) by { WakeKeepsZombies(was, woken, was[p].parent, p); }
      procs := procs[p := procs[p].(state := ZOMBIE)];
      assert procs == Next(Table(was, init, making), Action.Exit(p)).procs;
      return true;
    }

    /** One round of the for(;;) of wait. Asleep is where sched() takes over; the process
        comes back to the start of a round. */
    method Wait(p: nat) returns (a: Answer)
      requires Runs(T(), p) && p !in making
      modifies `procs
      ensures IsAnswer(old(procs), p, a)
      ensures T() == Next(old(T()), Action.Wait(p, a))
    {
      var havekids := false;
      var q := 0;
      while q < |procs|
        invariant q <= |procs| && procs == old(procs)
        invariant havekids <==> exists j: nat :: j < q && IsChild(procs, p, j)
        invariant forall j: nat :: j < q ==> !IsZombieChild(procs, p, j)
      {
        if procs[q].parent == p {
          assert IsChild(procs, p, q);
          havekids := true;
          if procs[q].state == ZOMBIE {
            procs := procs[q := Proc(UNUSED, NULL, procs[q].chan, false, 0)];
            return Reaped(q);
          }
        }
        q := q + 1;
      }
      if !havekids || procs[p].killed {
        return NoChild;
      }
      procs := procs[p := procs[p].(state := SLEEPING, chan := p)];
      return Asleep;
    }

    /** kill: the first slot with that pid, whatever its state; NULL is -1. */
    method Kill(ghost p: nat, pid: nat) returns (q: int)
      requires Runs(T(), p)
      modifies `procs
      ensures q == NULL ==> procs == old(procs) && forall j: nat :: j < |procs| ==> procs[j].pid != pid
      ensures q != NULL ==> 0 <= q < |old(procs)| && old(procs)[q].pid == pid
      ensures q != NULL ==> forall j: nat :: j < q ==> old(procs)[j].pid != pid
      ensures q != NULL ==> T() == Next(old(T()), Action.Kill(p, q))
    {
      ghost var was := procs;
      q := 0;
      while q < |procs|
        invariant 0 <= q <= |procs| && procs == was
        invariant forall j: nat :: j < q ==> procs[j].pid != pid
      {
        if procs[q].pid == pid {
          procs := procs[q := procs[q].(killed := true)];
          if procs[q].state == SLEEPING {
            procs := procs[q := procs[q].(state := RUNNABLE)];
          }
          assert procs == Next(Table(was, init, making), Action.Kill(p, q)).procs;
          return;
        }
        q := q + 1;
      }
      return NULL;
    }

    /** allocproc as the table shows it: the first unused slot, or NULL. */
    method Allocproc(p: nat) returns (q: int)
      requires Runs(T(), p) && p !in making
      modifies `procs, `nextpid, `making
      ensures q == NULL ==> T() == old(T()) && nextpid == old(nextpid) && forall j: nat :: j < |procs| ==> procs[j].state != UNUSED
      ensures q != NULL ==> 0 <= q < |old(procs)| && forall j: nat :: j < q ==> old(procs)[j].state != UNUSED
      ensures q != NULL ==> Enabled(old(T()), Alloc(p, q, old(nextpid))) && nextpid == old(nextpid) + 1
      ensures q != NULL ==> T() == Next(old(T()), Alloc(p, q, old(nextpid)))
    {
      ghost var was := T();
      q := 0;
      while q < |procs|
        invariant 0 <= q <= |procs| && T() == was && nextpid == old(nextpid)
        invariant forall j: nat :: j < q ==> procs[j].state != UNUSED
      {
        if procs[q].state == UNUSED {
          procs := procs[q := procs[q].(state := EMBRYO, pid := nextpid)];
          nextpid := nextpid + 1;
          making := making[p := q];
          assert T() == Next(was, Alloc(p, q, old(nextpid)));
          return;
        }
        q := q + 1;
      }
      return NULL;
    }

    /** fork as the table shows it; copied says whether copyuvm_cow got its memory. It takes
        three steps of the state machine, or two if it fails after allocproc. */
    method Fork(p: nat, copied: bool) returns (pid: int)
      requires Inv(T()) && Runs(T(), p) && p !in making
      modifies `procs, `nextpid, `making
      ensures pid == NULL <==> !copied || forall q: nat :: q < |old(procs)| ==> old(procs)[q].state != UNUSED
      ensures pid != NULL ==> pid == old(nextpid) && exists q: nat :: ForkSteps(old(T()), T(), p, q, pid)
      ensures pid == NULL ==> T() == old(T()) || exists q: nat :: UndoneSteps(old(T()), T(), p, q, old(nextpid))
    {
      ghost var t0 := T();
      var q := Allocproc(p);
      if q == NULL {
        return NULL;
      }
      assert FamilyOk(t0, q);
      pid := procs[q].pid;
      if !copied {
        procs := procs[q := procs[q].(state := UNUSED)];
        making := making - {p};
        assert UndoneSteps(t0, T(), p, q, pid);
        return NULL;
      }
      procs := procs[q := procs[q].(parent := p)];
      procs := procs[q := procs[q].(state := RUNNABLE)];
      making := making - {p};
      assert ForkSteps(t0, T(), p, q, pid);
    }
  }

  ghost predicate ForkSteps(t: Table, u: Table, p: nat, q: nat, pid: nat) {
    && Enabled(t, Alloc(p, q, pid)) && var t1 := Next(t, Alloc(p, q, pid));
    && Enabled(t1, Claim(p)) && var t2 := Next(t1, Claim(p));
    && Enabled(t2, Ready(p)) && u == Next(t2, Ready(p))
  }

  ghost predicate UndoneSteps(t: Table, u: Table, p: nat, q: nat, pid: nat) {
    && Enabled(t, Alloc(p, q, pid)) && var t1 := Next(t, Alloc(p, q, pid));
    && Enabled(t1, Undo(p)) && u == Next(t1, Undo(p))
  }

  lemma WakeKeepsZombies(was: seq<Proc>, woken: seq<Proc>, chan: int, p: nat)
    requires |was| == |woken| && forall q :: 0 <= q < |was| ==> woken[q] == Wake(was[q], chan)
    ensures HasZombie(woken, p) <==> HasZombie(was, p)
  {
    assert forall z: nat :: IsZombieChild(woken, p, z) <==> IsZombieChild(was, p, z);
  }

  ghost function Adopt(pr: Proc, p: nat, init: nat, tell: bool): Proc {
    var adopted := if pr.parent == p then pr.(parent := init) else pr;
    if tell then Wake(adopted, init) else adopted
  }
}
