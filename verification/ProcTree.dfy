/**
  fork, exit and wait under every interleaving (kernel/proc.c). A step is what
  one process does between taking a lock and giving it up, or between two lock
  operations while it holds wait_lock. A process's own p->lock outlasts a step
  only on the way into the scheduler.
 */
module ProcTree {
  import opened Params

  type Slot = nat

  // Alive stands for RUNNABLE and RUNNING.
  datatype Status = Unused | Used | Alive | Sleeping | Zombie

  datatype PC =
    | Out                     // no thread yet, or none any more
    | User                    // anywhere outside fork, exit and wait
    | ForkWait(c: Slot)       // fork: allocated child c, about to take wait_lock
    | ForkReady(c: Slot)      // set the parent, about to make c RUNNABLE
    | Reparent(i: nat)        // exit: holds wait_lock, about to look at slot i
    | ReparentWake(i: nat)    // gave slot i to init, about to wake init
    | ExitSelf                // woke the parent, about to become a ZOMBIE
    | ExitSched               // ZOMBIE, released wait_lock, holds its own lock
    | WaitLock                // wait: about to take wait_lock again
    | Scan(i: nat)            // holds wait_lock, about to look at slot i
    | SleepMark               // sleep: holds its own lock, released wait_lock
    | SleepSched              // SLEEPING, holds its own lock
    | Asleep                  // switched out

  // forker: the process whose fork is creating this one.
  datatype P = P(st: Status, parent: Option<Slot>, pid: nat, xstate: int, pc: PC, forker: Option<Slot>)

  // exited and reaped: the status each pid exited with, and was reaped with.
  datatype State = State(p: seq<P>, init: Slot, waitLock: Option<Slot>, nextpid: nat,
                         exited: map<nat, int>, reaped: map<nat, int>)

  predicate HoldsWait(pc: PC) { pc.Reparent? || pc.ReparentWake? || pc.ExitSelf? || pc.Scan? }

  predicate HoldsOwn(pc: PC) { pc.ExitSched? || pc.SleepMark? || pc.SleepSched? }

  predicate Forking(pc: PC) { pc.ForkWait? || pc.ForkReady? }

  predicate Live(x: P) { x.st == Alive || x.st == Sleeping }

  // Sleeping in wait, or committed to it.
  predicate Drowsy(x: P) { x.pc.SleepMark? || x.pc.SleepSched? || (x.pc.Asleep? && x.st == Sleeping) }

  // Past the point where an exiting process has given slot q away.
  predicate GaveAway(pc: PC, q: nat) {
    (pc.Reparent? && q < pc.i) || (pc.ReparentWake? && q <= pc.i) || pc.ExitSelf? || pc.ExitSched?
  }

  // Has looked at slot q and found no ZOMBIE child there.
  predicate Looked(pc: PC, q: nat) { pc.Scan? && q < pc.i }

  // ------------------------------------------------------------- invariant

  // What the status of a process says about where it is.
  ghost predicate StatusOk(x: P) {
    match x.st
    case Unused => x.pc == Out && x.parent.None? && x.forker.None?
    case Used => x.pc == Out && x.forker.Some?
    case Alive => !x.pc.Out? && !x.pc.ExitSched? && !x.pc.SleepSched? && x.forker.None?
    case Sleeping => (x.pc.SleepSched? || x.pc.Asleep?) && x.forker.None?
    case Zombie => (x.pc.ExitSched? || x.pc.Out?) && x.forker.None?
  }

  // A child in fork belongs to exactly one forker; its parent is set last.
  ghost predicate ForkOk(s: State, i: nat)
    requires i < |s.p|
  {
    var x := s.p[i];
    && (Forking(x.pc) ==> x.pc.c < |s.p| && s.p[x.pc.c].st == Used && s.p[x.pc.c].forker == Some(i))
    && (x.st == Used ==> x.forker.Some? && x.forker.value < |s.p| && Forking(s.p[x.forker.value].pc)
                         && s.p[x.forker.value].pc.c == i
                         && x.parent == if s.p[x.forker.value].pc.ForkReady? then x.forker else None)
  }

  // Every process but init and a child inside fork has a live parent that has
  // not given it away.
  ghost predicate ParentOk(s: State, i: nat)
    requires i < |s.p|
  {
    var x := s.p[i];
    && (x.st == Alive || x.st == Sleeping || x.st == Zombie ==> i == s.init || x.parent.Some?)
    && x.parent != Some(i) && (i == s.init ==> x.parent.None?)
    && (x.parent.Some? ==> x.parent.value < |s.p| && Live(s.p[x.parent.value]) && !GaveAway(s.p[x.parent.value].pc, i))
  }

  // A ZOMBIE child, or one about to be, has not been overlooked by its parent.
  ghost predicate WakeOk(s: State, i: nat)
    requires i < |s.p|
  {
    var x := s.p[i];
    (x.st == Zombie || x.pc == ExitSelf) && x.parent.Some? && x.parent.value < |s.p| ==>
      && !Looked(s.p[x.parent.value].pc, i)
      && (Drowsy(s.p[x.parent.value]) ==>
            x.parent.value == s.init && s.waitLock.Some? && s.waitLock.value < |s.p| &&
            s.p[s.waitLock.value].pc.ReparentWake?)
  }

  ghost predicate PidOk(s: State, i: nat)
    requires i < |s.p|
  {
    var x := s.p[i];
    && (x.st != Unused ==> 0 < x.pid < s.nextpid && x.pid !in s.reaped)
    && (x.st == Zombie ==> x.pid in s.exited && s.exited[x.pid] == x.xstate)
    && (x.st != Unused && x.st != Zombie ==> x.pid !in s.exited)
  }

  ghost predicate InitOk(s: State) {
    && s.init < |s.p| && Live(s.p[s.init])
    && !s.p[s.init].pc.Reparent? && !s.p[s.init].pc.ReparentWake? && !s.p[s.init].pc.ExitSelf?
    && !s.p[s.init].pc.ExitSched?
    && s.nextpid > 0
  }

  // Places, locks and forks.
  ghost predicate Core(s: State) {
    && InitOk(s)
    && (s.waitLock.Some? ==> s.waitLock.value < |s.p|)
    && (forall i {:trigger AtStatus(i)} :: AtStatus(i) && 0 <= i < |s.p| ==> StatusOk(s.p[i]))
    && (forall i {:trigger AtLock(i)} :: AtLock(i) && 0 <= i < |s.p| ==>
          (HoldsWait(s.p[i].pc) <==> s.waitLock == Some(i)))
    && (forall i {:trigger AtFork(i)} :: AtFork(i) && 0 <= i < |s.p| ==> ForkOk(s, i))
  }

  // The tree and its sleepers.
  ghost predicate Tree(s: State) { Parents(s) && Wakes(s) }

  ghost predicate Parents(s: State) {
    forall i {:trigger AtParent(i)} :: AtParent(i) && 0 <= i < |s.p| ==> ParentOk(s, i)
  }

  ghost predicate Wakes(s: State) {
    forall i {:trigger AtWake(i)} :: AtWake(i) && 0 <= i < |s.p| ==> WakeOk(s, i)
  }

  // Process numbers are not shared, and a reaped one is gone for good.
  ghost predicate Pids(s: State) {
    && (forall i {:trigger AtPid(i)} :: AtPid(i) && 0 <= i < |s.p| ==> PidOk(s, i))
    && (forall i, j {:trigger AtPid(i), AtPid(j)} ::
         AtPid(i) && AtPid(j) && 0 <= i < j < |s.p| && s.p[i].st != Unused && s.p[j].st != Unused ==>
          s.p[i].pid != s.p[j].pid)
    && (forall n :: n in s.exited ==> n < s.nextpid)
    && (forall n :: n in s.reaped ==> n in s.exited && s.reaped[n] == s.exited[n])
  }

  ghost predicate Inv(s: State) { Core(s) && Tree(s) && Pids(s) }

  // Always true; the handles by which each part of the invariant is used.
  ghost predicate AtStatus(i: int) { true }
  ghost predicate AtLock(i: int) { true }
  ghost predicate AtFork(i: int) { true }
  ghost predicate AtParent(i: int) { true }
  ghost predicate AtWake(i: int) { true }
  ghost predicate AtPid(i: int) { true }

  // ------------------------------------------------------------------ steps

  datatype Step =
    | Alloc(c: Slot) | AllocFail(c: Slot) | ForkParent | ForkRun
    | ExitAcquire | GiveChild | SkipChild | WakeInit | WakeParent | BecomeZombie(status: int) | ZombieSwitch
    | WaitAcquire | ScanSkip | ScanLive | Reap | ReapFail | WaitReturn | WaitSleep | MarkSleeping | SwitchOut | SwitchIn
    | Kill

  // wakeup of a process that can only sleep in wait; kill does the same.
  function Wakened(x: P): P { if x.st == Sleeping then x.(st := Alive) else x }

  function Goto(s: State, i: nat, pc: PC): State
    requires i < |s.p|
  {
    s.(p := s.p[i := s.p[i].(pc := pc)])
  }

  function With(s: State, i: nat, x: P): State
    requires i < |s.p|
  {
    s.(p := s.p[i := x])
  }

  const FreeProc := P(Unused, None, 0, 0, Out, None)

  // fork
  ghost predicate ForkNext(s: State, s': State, i: Slot, step: Step) {
    && i < |s.p| && s.init < |s.p|
    && var x := s.p[i];
    match step
    // allocproc, uvmcopy and the rest, up to release(&np->lock)
    case Alloc(c) =>
      && x.pc == User && x.st == Alive && c < |s.p| && s.p[c].st == Unused
      && s' == Goto(With(s, c, P(Used, None, s.nextpid, 0, Out, Some(i))), i, ForkWait(c)).(nextpid := s.nextpid + 1)
    // out of memory: freeproc before release(&np->lock); the pid is used up
    case AllocFail(c) =>
      && x.pc == User && x.st == Alive && c < |s.p| && s.p[c].st == Unused
      && s' == With(s, c, FreeProc).(nextpid := s.nextpid + 1)
    case ForkParent =>
      && x.pc.ForkWait? && x.pc.c < |s.p| && s.waitLock == None
      && s' == Goto(With(s, x.pc.c, s.p[x.pc.c].(parent := Some(i))), i, ForkReady(x.pc.c))
    case ForkRun =>
      && x.pc.ForkReady? && x.pc.c < |s.p|
      && s' == Goto(With(s, x.pc.c, s.p[x.pc.c].(st := Alive, pc := User, forker := None)), i, User)
    case _ => false
  }

  // exit, up to the end of reparent
  ghost predicate ReparentNext(s: State, s': State, i: Slot, step: Step) {
    && i < |s.p| && s.init < |s.p|
    && var x := s.p[i];
    match step
    case ExitAcquire =>
      && x.pc == User && x.st == Alive && i != s.init && s.waitLock == None
      && s' == Goto(s, i, Reparent(0)).(waitLock := Some(i))
    case GiveChild =>
      && x.pc.Reparent? && x.pc.i < |s.p| && s.p[x.pc.i].parent == Some(i)
      && s' == Goto(With(s, x.pc.i, s.p[x.pc.i].(parent := Some(s.init))), i, ReparentWake(x.pc.i))
    case SkipChild =>
      && x.pc.Reparent? && x.pc.i < |s.p| && s.p[x.pc.i].parent != Some(i)
      && s' == Goto(s, i, Reparent(x.pc.i + 1))
    case WakeInit =>
      && x.pc.ReparentWake? && !HoldsOwn(s.p[s.init].pc)
      && s' == Goto(With(s, s.init, Wakened(s.p[s.init])), i, Reparent(x.pc.i + 1))
    case _ => false
  }

  // the rest of exit
  ghost predicate ExitNext(s: State, s': State, i: Slot, step: Step) {
    && i < |s.p| && s.init < |s.p|
    && var x := s.p[i];
    match step
    case WakeParent =>
      && x.pc == Reparent(|s.p|) && x.parent.Some? && x.parent.value < |s.p| && !HoldsOwn(s.p[x.parent.value].pc)
      && s' == Goto(With(s, x.parent.value, Wakened(s.p[x.parent.value])), i, ExitSelf)
    case BecomeZombie(status) =>
      && x.pc == ExitSelf
      && s' == With(s, i, x.(st := Zombie, xstate := status, pc := ExitSched))
               .(exited := s.exited[x.pid := status], waitLock := None)
    case ZombieSwitch => x.pc == ExitSched && s' == Goto(s, i, Out)
    case _ => false
  }

  // wait
  ghost predicate ScanNext(s: State, s': State, i: Slot, step: Step) {
    && i < |s.p| && s.init < |s.p|
    && var x := s.p[i];
    match step
    case WaitAcquire =>
      && ((x.pc == User && x.st == Alive) || x.pc == WaitLock) && s.waitLock == None
      && s' == Goto(s, i, Scan(0)).(waitLock := Some(i))
    case ScanSkip =>
      && x.pc.Scan? && x.pc.i < |s.p| && s.p[x.pc.i].parent != Some(i)
      && s' == Goto(s, i, Scan(x.pc.i + 1))
    case ScanLive =>
      && x.pc.Scan? && x.pc.i < |s.p| && s.p[x.pc.i].parent == Some(i) && !HoldsOwn(s.p[x.pc.i].pc)
      && s.p[x.pc.i].st != Zombie
      && s' == Goto(s, i, Scan(x.pc.i + 1))
    case Reap =>
      && x.pc.Scan? && x.pc.i < |s.p| && s.p[x.pc.i].parent == Some(i) && !HoldsOwn(s.p[x.pc.i].pc)
      && s.p[x.pc.i].st == Zombie
      && s' == Goto(With(s, x.pc.i, FreeProc), i, User)
               .(waitLock := None, reaped := s.reaped[s.p[x.pc.i].pid := s.p[x.pc.i].xstate])
    // copyout failed: the child stays a ZOMBIE
    case ReapFail =>
      && x.pc.Scan? && x.pc.i < |s.p| && s.p[x.pc.i].parent == Some(i) && !HoldsOwn(s.p[x.pc.i].pc)
      && s.p[x.pc.i].st == Zombie
      && s' == Goto(s, i, User).(waitLock := None)
    // no children, or killed
    case WaitReturn => x.pc == Scan(|s.p|) && s' == Goto(s, i, User).(waitLock := None)
    case _ => false
  }

  // sleep inside wait, the scheduler, and kill
  ghost predicate SleepNext(s: State, s': State, i: Slot, step: Step) {
    && i < |s.p| && s.init < |s.p|
    && var x := s.p[i];
    match step
    // sleep takes p->lock before it releases wait_lock
    case WaitSleep => x.pc == Scan(|s.p|) && s' == Goto(s, i, SleepMark).(waitLock := None)
    case MarkSleeping => x.pc == SleepMark && s' == With(s, i, x.(st := Sleeping, pc := SleepSched))
    case SwitchOut => x.pc == SleepSched && s' == Goto(s, i, Asleep)
    case SwitchIn => x.pc == Asleep && x.st == Alive && s' == Goto(s, i, WaitLock)
    case Kill => !HoldsOwn(x.pc) && s' == With(s, i, Wakened(x))
    case _ => false
  }

  ghost predicate Next(s: State, s': State, i: Slot, step: Step) {
    || ForkNext(s, s', i, step) || ReparentNext(s, s', i, step) || ExitNext(s, s', i, step)
    || ScanNext(s, s', i, step) || SleepNext(s, s', i, step)
  }

  // ----------------------------------------------------------- preservation

  ghost predicate Child(s: State, q: int, i: nat) { 0 <= q < |s.p| && s.p[q].parent == Some(i) }

  // A ZOMBIE, or about to be one under wait_lock.
  predicate Gone(x: P) { x.st == Zombie || x.pc == ExitSelf }

  // One process moves on by itself.
  ghost predicate Local(s: State, s': State, i: Slot, x': P) {
    && i < |s.p| && s.init < |s.p|
    && s' == With(s, i, x').(waitLock := s'.waitLock, exited := s'.exited)
    && var x := s.p[i];
    && x'.parent == x.parent && x'.pid == x.pid && x'.forker == x.forker
    && StatusOk(x') && !Forking(x.pc) && !Forking(x'.pc)
    && x.st != Unused && x.st != Used && x'.st != Unused && x'.st != Used
    && (HoldsWait(x'.pc) <==> s'.waitLock == Some(i))
    && (s'.waitLock == s.waitLock || (s.waitLock, s'.waitLock) == (None, Some(i)) ||
        (s.waitLock, s'.waitLock) == (Some(i), None))
    && (i == s.init ==> Live(x') && !x'.pc.Reparent? && !x'.pc.ReparentWake? && !x'.pc.ExitSelf? && !x'.pc.ExitSched?)
    && s'.exited == (if x'.st == Zombie && x.st != Zombie then s.exited[x.pid := x'.xstate] else s.exited)
    && (x'.st == Zombie && x.st == Zombie ==> x'.xstate == x.xstate) && (x.st == Zombie ==> x'.st == Zombie)
  }

  // What its children and its parent may rely on.
  ghost predicate Harmless(s: State, i: Slot, x': P)
    requires i < |s.p| && s.init < |s.p|
  {
    var x := s.p[i];
    && (forall q {:trigger AtParent(q)} :: AtParent(q) && Child(s, q, i) ==> Live(x') && !GaveAway(x'.pc, q))
    && (forall q {:trigger AtWake(q)} :: AtWake(q) && Child(s, q, i) && Gone(s.p[q]) ==>
          !Looked(x'.pc, q) && (Drowsy(x') ==> Drowsy(x)))
    && (x.pc.ReparentWake? && !x'.pc.ReparentWake? ==> !Drowsy(s.p[s.init]))
    && (Gone(x') && !Gone(x) && x.parent.Some? && x.parent.value < |s.p| ==>
          !Looked(s.p[x.parent.value].pc, i) && !Drowsy(s.p[x.parent.value]))
  }

  lemma LocalCore(s: State, s': State, i: Slot, x': P)
    requires Core(s) && Local(s, s', i, x')
    ensures Core(s')
  {
    assert AtStatus(i) && AtLock(i) && AtFork(i);
  }

  lemma LocalTree(s: State, s': State, i: Slot, x': P)
    requires Core(s) && Tree(s) && Local(s, s', i, x') && Harmless(s, i, x')
    ensures Tree(s')
  {
    assert AtLock(i) && AtParent(i) && AtWake(i);
    if s.waitLock.Some? { assert AtLock(s.waitLock.value); }
  }

  lemma LocalPids(s: State, s': State, i: Slot, x': P)
    requires Pids(s) && Local(s, s', i, x')
    ensures Pids(s')
  {
    assert AtPid(i);
  }

  lemma LocalKeeps(s: State, s': State, i: Slot, x': P)
    requires Inv(s) && Local(s, s', i, x') && Harmless(s, i, x')
    ensures Inv(s')
  {
    LocalCore(s, s', i, x');
    LocalTree(s, s', i, x');
    LocalPids(s, s', i, x');
  }

  // Steps of one process alone.
  lemma ReparentKeeps(s: State, s': State, i: Slot, step: Step)
    requires Inv(s) && ReparentNext(s, s', i, step) && (step.ExitAcquire? || step.SkipChild?)
    ensures Inv(s')
  {
    assert AtStatus(i) && AtLock(i) && AtWake(i);
    LocalKeeps(s, s', i, s'.p[i]);
  }

  lemma ZombieKeeps(s: State, s': State, i: Slot, step: Step)
    requires Inv(s) && ExitNext(s, s', i, step) && (step.BecomeZombie? || step.ZombieSwitch?)
    ensures Inv(s')
  {
    assert AtStatus(i) && AtLock(i) && AtWake(i) && AtPid(i);
    LocalKeeps(s, s', i, s'.p[i]);
  }

  lemma ScanKeeps(s: State, s': State, i: Slot, step: Step)
    requires Inv(s) && ScanNext(s, s', i, step) && !step.Reap?
    ensures Inv(s')
  {
    assert AtStatus(i) && AtLock(i);
    assert s.p[i].pc.Scan? ==> AtLock(s.p[i].pc.i);
    LocalKeeps(s, s', i, s'.p[i]);
  }

  lemma SleepKeeps(s: State, s': State, i: Slot, step: Step)
    requires Inv(s) && SleepNext(s, s', i, step) && !step.Kill?
    ensures Inv(s')
  {
    assert AtStatus(i) && AtLock(i);
    LocalKeeps(s, s', i, s'.p[i]);
  }

  // wakeup and kill: never wrong, and the process is no longer asleep.
  lemma WakenedKeeps(s: State, o: Slot)
    requires Inv(s) && o < |s.p| && !HoldsOwn(s.p[o].pc)
    ensures Inv(With(s, o, Wakened(s.p[o]))) && !Drowsy(Wakened(s.p[o]))
  {
    assert AtStatus(o) && AtLock(o);
    var s' := With(s, o, Wakened(s.p[o]));
    if s.p[o].st == Sleeping {
      LocalKeeps(s, s', o, s'.p[o]);
    } else {
      assert s' == s;
    }
  }

  lemma WakeInitKeeps(s: State, s': State, i: Slot)
    requires Inv(s) && ReparentNext(s, s', i, WakeInit)
    ensures Inv(s')
  {
    assert AtLock(i) && AtStatus(i);
    WakenedKeeps(s, s.init);
    var m := With(s, s.init, Wakened(s.p[s.init]));
    assert s' == Goto(m, i, Reparent(s.p[i].pc.i + 1));
    LocalKeeps(m, s', i, s'.p[i]);
  }

  lemma WakeParentKeeps(s: State, s': State, i: Slot)
    requires Inv(s) && ExitNext(s, s', i, WakeParent)
    ensures Inv(s')
  {
    var r := s.p[i].parent.value;
    assert AtLock(i) && AtStatus(i) && AtLock(r) && AtParent(i);
    WakenedKeeps(s, r);
    var m := With(s, r, Wakened(s.p[r]));
    assert s' == Goto(m, i, ExitSelf);
    LocalKeeps(m, s', i, s'.p[i]);
  }

  lemma AllocCore(s: State, s': State, i: Slot, step: Step)
    requires Core(s) && ForkNext(s, s', i, step) && step.Alloc?
    ensures Core(s')
  {
    var o := step.c;
    assert AtStatus(i) && AtLock(i) && AtFork(i) && AtStatus(o) && AtLock(o) && AtFork(o);
  }

  lemma AllocTree(s: State, s': State, i: Slot, step: Step)
    requires Core(s) && Tree(s) && ForkNext(s, s', i, step) && step.Alloc?
    ensures Tree(s')
  {
    var o := step.c;
    assert AtStatus(i) && AtLock(i) && AtFork(i) && AtParent(i) && AtWake(i) && AtLock(s.init);
    assert AtStatus(o) && AtLock(o) && AtFork(o) && AtParent(o) && AtWake(o);
  }

  lemma AllocPids(s: State, s': State, i: Slot, step: Step)
    requires Core(s) && Pids(s) && ForkNext(s, s', i, step) && step.Alloc?
    ensures Pids(s')
  {
    var o := step.c;
    assert AtPid(i) && AtStatus(i) && AtFork(i) && AtPid(o) && AtStatus(o);
  }

  lemma AllocFailKeeps(s: State, s': State, i: Slot, step: Step)
    requires Inv(s) && ForkNext(s, s', i, step) && step.AllocFail?
    ensures Inv(s')
  {
    AllocFailCore(s, s', i, step); AllocFailTree(s, s', i, step); AllocFailPids(s, s', i, step);
  }

  lemma AllocFailCore(s: State, s': State, i: Slot, step: Step)
    requires Core(s) && ForkNext(s, s', i, step) && step.AllocFail?
    ensures Core(s')
  {
    assert AtStatus(step.c) && AtLock(step.c) && AtFork(step.c);
  }

  lemma AllocFailTree(s: State, s': State, i: Slot, step: Step)
    requires Core(s) && Tree(s) && ForkNext(s, s', i, step) && step.AllocFail?
    ensures Tree(s')
  {
    assert AtStatus(step.c) && AtLock(step.c) && AtParent(step.c) && AtWake(step.c);
  }

  lemma AllocFailPids(s: State, s': State, i: Slot, step: Step)
    requires Core(s) && Pids(s) && ForkNext(s, s', i, step) && step.AllocFail?
    ensures Pids(s')
  {
    assert AtStatus(step.c) && AtPid(step.c);
  }

  lemma ForkParentCore(s: State, s': State, i: Slot, step: Step)
    requires Core(s) && ForkNext(s, s', i, step) && step.ForkParent?
    ensures Core(s')
  {
    var o := s.p[i].pc.c;
    assert AtStatus(i) && AtLock(i) && AtFork(i) && AtStatus(o) && AtLock(o) && AtFork(o);
  }

  lemma ForkParentParents(s: State, s': State, i: Slot, step: Step)
    requires Core(s) && Parents(s) && ForkNext(s, s', i, step) && step.ForkParent?
    ensures Parents(s')
  {
    var o := s.p[i].pc.c;
    assert AtStatus(i) && AtFork(i) && AtParent(i) && AtStatus(o) && AtFork(o) && AtParent(o);
  }

  lemma ForkParentWakes(s: State, s': State, i: Slot, step: Step)
    requires Core(s) && Wakes(s) && ForkNext(s, s', i, step) && step.ForkParent?
    ensures Wakes(s')
  {
    var o := s.p[i].pc.c;
    assert AtStatus(i) && AtLock(i) && AtFork(i) && AtWake(i) && AtStatus(o) && AtLock(o) && AtFork(o) && AtWake(o);
  }

  lemma ForkParentPids(s: State, s': State, i: Slot, step: Step)
    requires Core(s) && Pids(s) && ForkNext(s, s', i, step) && step.ForkParent?
    ensures Pids(s')
  {
    var o := s.p[i].pc.c;
    assert AtPid(i) && AtStatus(i) && AtFork(i) && AtPid(o) && AtStatus(o);
  }

  lemma ForkRunCore(s: State, s': State, i: Slot, step: Step)
    requires Core(s) && ForkNext(s, s', i, step) && step.ForkRun?
    ensures Core(s')
  {
    var o := s.p[i].pc.c;
    assert AtStatus(i) && AtLock(i) && AtFork(i) && AtStatus(o) && AtLock(o) && AtFork(o);
  }

  lemma ForkRunParents(s: State, s': State, i: Slot, step: Step)
    requires Core(s) && Parents(s) && ForkNext(s, s', i, step) && step.ForkRun?
    ensures Parents(s')
  {
    var o := s.p[i].pc.c;
    assert AtStatus(i) && AtFork(i) && AtParent(i) && AtStatus(o) && AtFork(o) && AtParent(o);
  }

  lemma ForkRunWakes(s: State, s': State, i: Slot, step: Step)
    requires Core(s) && Wakes(s) && ForkNext(s, s', i, step) && step.ForkRun?
    ensures Wakes(s')
  {
    var o := s.p[i].pc.c;
    assert AtStatus(i) && AtLock(i) && AtFork(i) && AtWake(i) && AtStatus(o) && AtLock(o) && AtFork(o) && AtWake(o);
  }

  lemma ForkRunPids(s: State, s': State, i: Slot, step: Step)
    requires Core(s) && Pids(s) && ForkNext(s, s', i, step) && step.ForkRun?
    ensures Pids(s')
  {
    var o := s.p[i].pc.c;
    assert AtPid(i) && AtStatus(i) && AtFork(i) && AtPid(o) && AtStatus(o);
  }

  lemma GiveChildCore(s: State, s': State, i: Slot, step: Step)
    requires Core(s) && ReparentNext(s, s', i, step) && step.GiveChild?
    ensures Core(s')
  {
    var o := s.p[i].pc.i;
    assert AtStatus(i) && AtLock(i) && AtFork(i) && AtStatus(o) && AtLock(o) && AtFork(o);
  }

  lemma GiveChildTree(s: State, s': State, i: Slot, step: Step)
    requires Core(s) && Tree(s) && ReparentNext(s, s', i, step) && step.GiveChild?
    ensures Tree(s')
  {
    var o := s.p[i].pc.i;
    assert AtStatus(i) && AtLock(i) && AtFork(i) && AtParent(i) && AtWake(i) && AtLock(s.init);
    assert AtStatus(o) && AtLock(o) && AtFork(o) && AtParent(o) && AtWake(o);
  }

  lemma GiveChildPids(s: State, s': State, i: Slot, step: Step)
    requires Core(s) && Pids(s) && ReparentNext(s, s', i, step) && step.GiveChild?
    ensures Pids(s')
  {
    var o := s.p[i].pc.i;
    assert AtPid(i) && AtStatus(i) && AtFork(i) && AtPid(o) && AtStatus(o);
  }

  lemma ReapCore(s: State, s': State, i: Slot, step: Step)
    requires Core(s) && ScanNext(s, s', i, step) && step.Reap?
    ensures Core(s')
  {
    var o := s.p[i].pc.i;
    assert AtStatus(i) && AtLock(i) && AtFork(i) && AtStatus(o) && AtLock(o) && AtFork(o);
  }

  lemma ReapTree(s: State, s': State, i: Slot, step: Step)
    requires Core(s) && Tree(s) && ScanNext(s, s', i, step) && step.Reap?
    ensures Tree(s')
  {
    var o := s.p[i].pc.i;
    assert AtStatus(i) && AtLock(i) && AtFork(i) && AtParent(i) && AtWake(i) && AtLock(s.init);
    assert AtStatus(o) && AtLock(o) && AtFork(o) && AtParent(o) && AtWake(o);
  }

  lemma ReapPids(s: State, s': State, i: Slot, step: Step)
    requires Core(s) && Pids(s) && ScanNext(s, s', i, step) && step.Reap?
    ensures Pids(s')
  {
    var o := s.p[i].pc.i;
    assert AtPid(i) && AtStatus(i) && AtFork(i) && AtPid(o) && AtStatus(o);
  }

  lemma ForkKeeps(s: State, s': State, i: Slot, step: Step)
    requires Inv(s) && ForkNext(s, s', i, step)
    ensures Inv(s')
  {
    if step.Alloc? {
      AllocCore(s, s', i, step); AllocTree(s, s', i, step); AllocPids(s, s', i, step);
    } else if step.AllocFail? {
      AllocFailKeeps(s, s', i, step);
    } else if step.ForkParent? {
      ForkParentCore(s, s', i, step); ForkParentParents(s, s', i, step); ForkParentWakes(s, s', i, step);
      ForkParentPids(s, s', i, step);
    } else {
      ForkRunCore(s, s', i, step); ForkRunParents(s, s', i, step); ForkRunWakes(s, s', i, step);
      ForkRunPids(s, s', i, step);
    }
  }

  lemma GiveChildKeeps(s: State, s': State, i: Slot, step: Step)
    requires Inv(s) && ReparentNext(s, s', i, step) && step.GiveChild?
    ensures Inv(s')
  {
    GiveChildCore(s, s', i, step); GiveChildTree(s, s', i, step); GiveChildPids(s, s', i, step);
  }

  lemma ReapKeeps(s: State, s': State, i: Slot, step: Step)
    requires Inv(s) && ScanNext(s, s', i, step) && step.Reap?
    ensures Inv(s')
  {
    ReapCore(s, s', i, step); ReapTree(s, s', i, step); ReapPids(s, s', i, step);
  }

  lemma StepKeeps(s: State, s': State, i: Slot, step: Step)
    requires Inv(s) && Next(s, s', i, step)
    ensures Inv(s')
  {
    match step
    case Alloc(_) => ForkKeeps(s, s', i, step);
    case AllocFail(_) => ForkKeeps(s, s', i, step);
    case ForkParent | ForkRun => ForkKeeps(s, s', i, step);
    case ExitAcquire | SkipChild => ReparentKeeps(s, s', i, step);
    case GiveChild => GiveChildKeeps(s, s', i, step);
    case WakeInit => WakeInitKeeps(s, s', i);
    case WakeParent => WakeParentKeeps(s, s', i);
    case BecomeZombie(_) => ZombieKeeps(s, s', i, step);
    case ZombieSwitch => ZombieKeeps(s, s', i, step);
    case Reap => ReapKeeps(s, s', i, step);
    case WaitAcquire | ScanSkip | ScanLive | ReapFail | WaitReturn => ScanKeeps(s, s', i, step);
    case WaitSleep | MarkSleeping | SwitchOut | SwitchIn => SleepKeeps(s, s', i, step);
    case Kill => WakenedKeeps(s, i);
  }

  // -------------------------------------------------------- runs and safety

  // One process, init, at its first moment in user mode.
  ghost predicate Init(s: State) {
    && s.init < |s.p| && s.waitLock == None && s.nextpid == 2 && s.exited == map[] && s.reaped == map[]
    && s.p[s.init] == P(Alive, None, 1, 0, User, None)
    && forall i :: 0 <= i < |s.p| && i != s.init ==> s.p[i] == FreeProc
  }

  ghost predicate Run(states: seq<State>, who: seq<Slot>, steps: seq<Step>) {
    && |states| == |steps| + 1 == |who| + 1 && Init(states[0])
    && forall k :: 0 <= k < |steps| ==> Next(states[k], states[k + 1], who[k], steps[k])
  }

  lemma {:induction false} RunInv(states: seq<State>, who: seq<Slot>, steps: seq<Step>, k: nat)
    requires Run(states, who, steps) && k < |states|
    ensures Inv(states[k])
  {
    if k > 0 {
      RunInv(states, who, steps, k - 1);
      StepKeeps(states[k - 1], states[k], who[k - 1], steps[k - 1]);
    }
  }

  /**
    The process tree: in every state of every run, every slot in use except
    init and a child still inside fork has a parent that is neither UNUSED nor
    ZOMBIE, so no exited child is ever out of reach of a wait.
   */
  lemma LiveParents(states: seq<State>, who: seq<Slot>, steps: seq<Step>, k: nat, i: Slot)
    requires Run(states, who, steps) && k < |states| && i < |states[k].p|
    requires states[k].p[i].st != Unused && states[k].p[i].st != Used && i != states[k].init
    ensures var s := states[k];
            s.p[i].parent.Some? && s.p[i].parent.value < |s.p| && Live(s.p[s.p[i].parent.value])
  {
    RunInv(states, who, steps, k);
    assert AtParent(i);
  }

  /**
    No wakeup of wait is lost: whenever wait_lock is free, no process is
    SLEEPING in wait, or committed to sleeping there, while it has a ZOMBIE
    child.
   */
  lemma NoOverlookedZombie(states: seq<State>, who: seq<Slot>, steps: seq<Step>, k: nat, i: Slot)
    requires Run(states, who, steps) && k < |states| && i < |states[k].p|
    requires states[k].waitLock == None && states[k].p[i].st == Zombie && i != states[k].init
    ensures var s := states[k];
            s.p[i].parent.Some? && s.p[i].parent.value < |s.p| && !Drowsy(s.p[s.p[i].parent.value])
  {
    RunInv(states, who, steps, k);
    assert AtParent(i) && AtWake(i);
  }

  /**
    Each exited child is reaped at most once, and with the status it exited
    with: a reap is the first of its pid and records what exit recorded.
   */
  lemma ReapedOnce(states: seq<State>, who: seq<Slot>, steps: seq<Step>, k: nat)
    requires Run(states, who, steps) && k < |steps| && steps[k].Reap?
    ensures var s, s' := states[k], states[k + 1];
            var c := s.p[who[k]].pc.i;
            && s.p[c].pid !in s.reaped && s.p[c].pid in s.exited
            && s'.reaped == s.reaped[s.p[c].pid := s.exited[s.p[c].pid]]
  {
    RunInv(states, who, steps, k);
    assert Next(states[k], states[k + 1], who[k], steps[k]);
    assert AtPid(states[k].p[who[k]].pc.i);
  }
}
