/**
  Sleep-locks under every interleaving (kernel/sleeplock.c over sleep, wakeup
  and kill of kernel/proc.c). Each step is one statement of one process between
  lock operations; a spinlock is acquired only when it is free. The machine
  follows one sleep-lock; other channels do not touch it.
 */
module SleepLock {
  import opened Params

  type Pid = nat

  // Where a process stands.
  datatype PC =
    | Away                 // elsewhere, not holding the sleep-lock
    | Acq                  // acquiresleep: about to acquire lk->lk
    | Test                 // holds lk->lk, about to test lk->locked
    | SleepEnter           // sleep: holds lk->lk, about to acquire p->lock
    | SleepRelease         // holds both, about to release lk->lk
    | SleepMark            // holds p->lock, about to set chan and state
    | SleepSched           // SLEEPING, holds p->lock until the scheduler drops it
    | Asleep               // switched out
    | Woken                // switched in by the scheduler, which passes on p->lock
    | Grab                 // holds lk->lk and saw it free, about to take it
    | Leave                // took it, about to release lk->lk
    | Holding              // owns the sleep-lock
    | Rel                  // releasesleep: about to acquire lk->lk
    | Clear                // holds lk->lk, about to clear lk->locked
    | Wake(i: nat)         // wakeup: about to look at process i
    | WakeHeld(i: nat)     // holds process i's lock
    | Done                 // scan finished, about to release lk->lk

  datatype RunState = Running | Sleeping | Runnable

  // lk, plock: owners of the spinlocks. onChan: p->chan is this sleep-lock.
  datatype State = State(
    lk: Option<Pid>, locked: bool, pid: Option<Pid>,
    plock: seq<Option<Pid>>, st: seq<RunState>, onChan: seq<bool>, pc: seq<PC>)

  ghost predicate Proc(p: int) { true }

  predicate HoldsLk(pc: PC) {
    || pc.Test? || pc.SleepEnter? || pc.SleepRelease? || pc.Grab? || pc.Leave?
    || pc.Clear? || pc.Wake? || pc.WakeHeld? || pc.Done?
  }

  predicate HoldsOwn(pc: PC) { pc.SleepRelease? || pc.SleepMark? || pc.SleepSched? || pc.Woken? }

  // Owns the sleep-lock.
  predicate Owns(pc: PC) { pc.Leave? || pc.Holding? || pc.Rel? || pc.Clear? }

  // Sleeping on the lock, or committed to sleeping on it.
  predicate Drowsy(s: State, p: nat)
    requires p < |s.pc| == |s.st|
  {
    s.pc[p].SleepMark? || s.pc[p].SleepSched? || (s.pc[p].Asleep? && s.st[p] == Sleeping)
  }

  // ------------------------------------------------------------- invariant

  ghost predicate Shape(s: State) { |s.pc| == |s.st| == |s.plock| == |s.onChan| }

  ghost predicate ProcOk(s: State, p: nat)
    requires Shape(s) && p < |s.pc|
  {
    && (HoldsLk(s.pc[p]) <==> s.lk == Some(p))
    && (HoldsOwn(s.pc[p]) <==> s.plock[p] == Some(p))
    && (Owns(s.pc[p]) ==> s.locked && s.pid == Some(p))
    && (s.pc[p].SleepEnter? || s.pc[p].SleepRelease? ==> s.locked)
    && (s.pc[p].Grab? ==> !s.locked)
    && (s.pc[p].Wake? || s.pc[p].WakeHeld? || s.pc[p].Done? ==> !s.locked)
    && (s.pc[p].WakeHeld? ==> s.pc[p].i < |s.pc| && s.pc[p].i != p && s.plock[s.pc[p].i] == Some(p))
    && (s.pc[p].SleepSched? ==> s.st[p] == Sleeping && s.onChan[p])
    && (s.pc[p].Asleep? ==> s.st[p] != Running && s.onChan[p])
    && (!s.pc[p].SleepSched? && !s.pc[p].Asleep? ==> s.st[p] == Running)
  }

  // With the sleep-lock free, processes asleep on it are still ahead of the
  // scan of the releaser; nobody else holds lk->lk while there are any.
  ghost predicate Heard(s: State)
    requires Shape(s)
  {
    !s.locked ==>
      forall p {:trigger Proc(p)} :: Proc(p) && 0 <= p < |s.pc| && Drowsy(s, p) ==>
        && s.lk.Some? && s.lk.value < |s.pc|
        && ((s.pc[s.lk.value].Wake? || s.pc[s.lk.value].WakeHeld?) && p >= s.pc[s.lk.value].i && p != s.lk.value)
  }

  ghost predicate Inv(s: State) {
    && Shape(s)
    && (s.locked ==> s.pid.Some? && s.pid.value < |s.pc| && Owns(s.pc[s.pid.value]))
    && (s.lk.Some? ==> s.lk.value < |s.pc|)
    && (forall p {:trigger Proc(p)} :: Proc(p) && 0 <= p < |s.pc| ==> ProcOk(s, p))
    && Heard(s)
  }

  // ------------------------------------------------------------------ steps

  datatype Step =
    | CallAcquire | AcquireLk | TestLocked | LockSelf | ReleaseLk | MarkAsleep | SwitchOut | SwitchIn | Resume
    | Take | LeaveLk | CallRelease | AcquireLkToRelease | ClearLocked | WakeSkip | WakeLock | WakeAct | WakeEnd
    | ReleaseDone
    | Kill

  // acquiresleep outside sleep
  ghost predicate AcquireNext(s: State, s': State, p: Pid, step: Step) {
    Shape(s) && p < |s.pc| &&
    match step
    case CallAcquire => s.pc[p] == Away && s' == s.(pc := s.pc[p := Acq])
    case AcquireLk => s.pc[p] == Acq && s.lk == None && s' == s.(lk := Some(p), pc := s.pc[p := Test])
    case TestLocked => s.pc[p] == Test && s' == s.(pc := s.pc[p := if s.locked then SleepEnter else Grab])
    case Take => s.pc[p] == Grab && s' == s.(locked := true, pid := Some(p), pc := s.pc[p := Leave])
    case LeaveLk => s.pc[p] == Leave && s' == s.(lk := None, pc := s.pc[p := Holding])
    case _ => false
  }

  // sleep, the scheduler, and kill
  ghost predicate SleepNext(s: State, s': State, p: Pid, step: Step) {
    Shape(s) && p < |s.pc| &&
    match step
    case LockSelf =>
      && s.pc[p] == SleepEnter && s.plock[p] == None
      && s' == s.(plock := s.plock[p := Some(p)], pc := s.pc[p := SleepRelease])
    case ReleaseLk => s.pc[p] == SleepRelease && s' == s.(lk := None, pc := s.pc[p := SleepMark])
    case MarkAsleep =>
      && s.pc[p] == SleepMark
      && s' == s.(st := s.st[p := Sleeping], onChan := s.onChan[p := true], pc := s.pc[p := SleepSched])
    case SwitchOut => s.pc[p] == SleepSched && s' == s.(plock := s.plock[p := None], pc := s.pc[p := Asleep])
    case SwitchIn => s.pc[p] == Asleep && s.st[p] == Runnable && s.plock[p] == None
                     && s' == s.(plock := s.plock[p := Some(p)], st := s.st[p := Running], pc := s.pc[p := Woken])
    case Resume =>
      s.pc[p] == Woken && s' == s.(plock := s.plock[p := None], onChan := s.onChan[p := false], pc := s.pc[p := Acq])
    // kill makes a sleeping process runnable, under its lock.
    case Kill => s.plock[p] == None && s' == s.(st := s.st[p := if s.st[p] == Sleeping then Runnable else s.st[p]])
    case _ => false
  }

  // releasesleep and wakeup
  ghost predicate ReleaseNext(s: State, s': State, p: Pid, step: Step) {
    Shape(s) && p < |s.pc| &&
    match step
    case CallRelease => s.pc[p] == Holding && s' == s.(pc := s.pc[p := Rel])
    case AcquireLkToRelease => s.pc[p] == Rel && s.lk == None && s' == s.(lk := Some(p), pc := s.pc[p := Clear])
    case ClearLocked => s.pc[p] == Clear && s' == s.(locked := false, pid := None, pc := s.pc[p := Wake(0)])
    case WakeSkip => s.pc[p] == Wake(p) && s' == s.(pc := s.pc[p := Wake(p + 1)])
    case WakeLock => s.pc[p].Wake? && s.pc[p].i < |s.pc| && s.pc[p].i != p && s.plock[s.pc[p].i] == None
                     && s' == s.(plock := s.plock[s.pc[p].i := Some(p)], pc := s.pc[p := WakeHeld(s.pc[p].i)])
    case WakeAct => s.pc[p].WakeHeld? && s.pc[p].i < |s.pc|
                    && var i := s.pc[p].i;
                    && s' == s.(st := s.st[i := if s.st[i] == Sleeping && s.onChan[i] then Runnable else s.st[i]],
                                plock := s.plock[i := None], pc := s.pc[p := Wake(i + 1)])
    case WakeEnd => s.pc[p] == Wake(|s.pc|) && s' == s.(pc := s.pc[p := Done])
    case ReleaseDone => s.pc[p] == Done && s' == s.(lk := None, pc := s.pc[p := Away])
    case _ => false
  }

  ghost predicate Next(s: State, s': State, p: Pid, step: Step) {
    AcquireNext(s, s', p, step) || SleepNext(s, s', p, step) || ReleaseNext(s, s', p, step)
  }

  ghost predicate Init(s: State) {
    && Shape(s) && s.lk == None && !s.locked && s.pid == None
    && forall p :: 0 <= p < |s.pc| ==> s.pc[p] == Away && s.plock[p] == None && s.st[p] == Running && !s.onChan[p]
  }

  // Steps of acquiresleep outside sleep.

  lemma CallAcquireKeeps(s: State, s': State, p: Pid)
    requires Inv(s) && AcquireNext(s, s', p, CallAcquire)
    ensures Inv(s')
  {
    assert Proc(p) && (s.lk.Some? ==> Proc(s.lk.value)) && (s.pid.Some? ==> Proc(s.pid.value));
  }

  lemma AcquireLkKeeps(s: State, s': State, p: Pid)
    requires Inv(s) && AcquireNext(s, s', p, AcquireLk)
    ensures Inv(s')
  {
    assert Proc(p) && (s.pid.Some? ==> Proc(s.pid.value));
  }

  lemma TestLockedKeeps(s: State, s': State, p: Pid)
    requires Inv(s) && AcquireNext(s, s', p, TestLocked)
    ensures Inv(s')
  {
    assert Proc(p) && (s.lk.Some? ==> Proc(s.lk.value)) && (s.pid.Some? ==> Proc(s.pid.value));
  }

  lemma TakeKeeps(s: State, s': State, p: Pid)
    requires Inv(s) && AcquireNext(s, s', p, Take)
    ensures Inv(s')
  {
    assert Proc(p) && (s.lk.Some? ==> Proc(s.lk.value)) && (s.pid.Some? ==> Proc(s.pid.value));
  }

  lemma LeaveLkKeeps(s: State, s': State, p: Pid)
    requires Inv(s) && AcquireNext(s, s', p, LeaveLk)
    ensures Inv(s')
  {
    assert Proc(p) && (s.lk.Some? ==> Proc(s.lk.value)) && (s.pid.Some? ==> Proc(s.pid.value));
  }

  // Steps of sleep, the scheduler, and kill.

  lemma LockSelfKeeps(s: State, s': State, p: Pid)
    requires Inv(s) && SleepNext(s, s', p, LockSelf)
    ensures Inv(s')
  {
    assert Proc(p) && (s.lk.Some? ==> Proc(s.lk.value)) && (s.pid.Some? ==> Proc(s.pid.value));
  }

  lemma ReleaseLkKeeps(s: State, s': State, p: Pid)
    requires Inv(s) && SleepNext(s, s', p, ReleaseLk)
    ensures Inv(s')
  {
    assert Proc(p) && (s.lk.Some? ==> Proc(s.lk.value)) && (s.pid.Some? ==> Proc(s.pid.value));
  }

  lemma MarkAsleepKeeps(s: State, s': State, p: Pid)
    requires Inv(s) && SleepNext(s, s', p, MarkAsleep)
    ensures Inv(s')
  {
    assert Proc(p) && (s.lk.Some? ==> Proc(s.lk.value)) && (s.pid.Some? ==> Proc(s.pid.value));
  }

  lemma SwitchOutKeeps(s: State, s': State, p: Pid)
    requires Inv(s) && SleepNext(s, s', p, SwitchOut)
    ensures Inv(s')
  {
    assert Proc(p) && (s.lk.Some? ==> Proc(s.lk.value)) && (s.pid.Some? ==> Proc(s.pid.value));
  }

  lemma SwitchInKeeps(s: State, s': State, p: Pid)
    requires Inv(s) && SleepNext(s, s', p, SwitchIn)
    ensures Inv(s')
  {
    assert Proc(p) && (s.lk.Some? ==> Proc(s.lk.value)) && (s.pid.Some? ==> Proc(s.pid.value));
  }

  lemma ResumeKeeps(s: State, s': State, p: Pid)
    requires Inv(s) && SleepNext(s, s', p, Resume)
    ensures Inv(s')
  {
    assert Proc(p) && (s.lk.Some? ==> Proc(s.lk.value)) && (s.pid.Some? ==> Proc(s.pid.value));
  }

  lemma KillKeeps(s: State, s': State, p: Pid)
    requires Inv(s) && SleepNext(s, s', p, Kill)
    ensures Inv(s')
  {
    assert Proc(p) && (s.lk.Some? ==> Proc(s.lk.value)) && (s.pid.Some? ==> Proc(s.pid.value));
  }

  // Steps of releasesleep and wakeup.

  lemma CallReleaseKeeps(s: State, s': State, p: Pid)
    requires Inv(s) && ReleaseNext(s, s', p, CallRelease)
    ensures Inv(s')
  {
    assert Proc(p) && (s.lk.Some? ==> Proc(s.lk.value)) && (s.pid.Some? ==> Proc(s.pid.value));
  }

  lemma AcquireLkToReleaseKeeps(s: State, s': State, p: Pid)
    requires Inv(s) && ReleaseNext(s, s', p, AcquireLkToRelease)
    ensures Inv(s')
  {
    assert Proc(p) && (s.pid.Some? ==> Proc(s.pid.value));
  }

  lemma ClearLockedKeeps(s: State, s': State, p: Pid)
    requires Inv(s) && ReleaseNext(s, s', p, ClearLocked)
    ensures Inv(s')
  {
    assert Proc(p) && (s.lk.Some? ==> Proc(s.lk.value)) && (s.pid.Some? ==> Proc(s.pid.value));
  }

  lemma WakeSkipKeeps(s: State, s': State, p: Pid)
    requires Inv(s) && ReleaseNext(s, s', p, WakeSkip)
    ensures Inv(s')
  {
    assert Proc(p) && (s.lk.Some? ==> Proc(s.lk.value)) && (s.pid.Some? ==> Proc(s.pid.value));
  }

  lemma WakeLockKeeps(s: State, s': State, p: Pid)
    requires Inv(s) && ReleaseNext(s, s', p, WakeLock)
    ensures Inv(s')
  {
    assert Proc(p) && (s.lk.Some? ==> Proc(s.lk.value)) && (s.pid.Some? ==> Proc(s.pid.value));
  }

  lemma WakeActKeeps(s: State, s': State, p: Pid)
    requires Inv(s) && ReleaseNext(s, s', p, WakeAct)
    ensures Inv(s')
  {
    assert Proc(p) && (s.lk.Some? ==> Proc(s.lk.value)) && (s.pid.Some? ==> Proc(s.pid.value));
  }

  lemma WakeEndKeeps(s: State, s': State, p: Pid)
    requires Inv(s) && ReleaseNext(s, s', p, WakeEnd)
    ensures Inv(s')
  {
    assert Proc(p) && (s.lk.Some? ==> Proc(s.lk.value)) && (s.pid.Some? ==> Proc(s.pid.value));
  }

  lemma ReleaseDoneKeeps(s: State, s': State, p: Pid)
    requires Inv(s) && ReleaseNext(s, s', p, ReleaseDone)
    ensures Inv(s')
  {
    assert Proc(p) && (s.lk.Some? ==> Proc(s.lk.value)) && (s.pid.Some? ==> Proc(s.pid.value));
  }

  lemma StepKeeps(s: State, s': State, p: Pid, step: Step)
    requires Inv(s) && Next(s, s', p, step)
    ensures Inv(s')
  {
    match step
    case CallAcquire => CallAcquireKeeps(s, s', p);
    case AcquireLk => AcquireLkKeeps(s, s', p);
    case TestLocked => TestLockedKeeps(s, s', p);
    case Take => TakeKeeps(s, s', p);
    case LeaveLk => LeaveLkKeeps(s, s', p);
    case LockSelf => LockSelfKeeps(s, s', p);
    case ReleaseLk => ReleaseLkKeeps(s, s', p);
    case MarkAsleep => MarkAsleepKeeps(s, s', p);
    case SwitchOut => SwitchOutKeeps(s, s', p);
    case SwitchIn => SwitchInKeeps(s, s', p);
    case Resume => ResumeKeeps(s, s', p);
    case Kill => KillKeeps(s, s', p);
    case CallRelease => CallReleaseKeeps(s, s', p);
    case AcquireLkToRelease => AcquireLkToReleaseKeeps(s, s', p);
    case ClearLocked => ClearLockedKeeps(s, s', p);
    case WakeSkip => WakeSkipKeeps(s, s', p);
    case WakeLock => WakeLockKeeps(s, s', p);
    case WakeAct => WakeActKeeps(s, s', p);
    case WakeEnd => WakeEndKeeps(s, s', p);
    case ReleaseDone => ReleaseDoneKeeps(s, s', p);
  }

  // A run: states joined by steps of any processes in any order.
  ghost predicate Run(states: seq<State>, who: seq<Pid>, steps: seq<Step>) {
    && |states| == |steps| + 1 == |who| + 1 && Init(states[0])
    && forall k :: 0 <= k < |steps| ==> Next(states[k], states[k + 1], who[k], steps[k])
  }

  lemma {:induction false} RunInv(states: seq<State>, who: seq<Pid>, steps: seq<Step>, k: nat)
    requires Run(states, who, steps) && k < |states|
    ensures Inv(states[k])
  {
    if k > 0 {
      RunInv(states, who, steps, k - 1);
      StepKeeps(states[k - 1], states[k], who[k - 1], steps[k - 1]);
    }
  }

  // At most one process owns the sleep-lock, and it is the one that
  // holdingsleep (locked and pid) names.
  lemma MutualExclusion(states: seq<State>, who: seq<Pid>, steps: seq<Step>, k: nat, p: Pid, q: Pid)
    requires Run(states, who, steps) && k < |states| && p < |states[k].pc| && q < |states[k].pc|
    requires Owns(states[k].pc[p])
    ensures Owns(states[k].pc[q]) ==> p == q
    ensures states[k].locked && (states[k].pid == Some(q) <==> q == p)
  {
    RunInv(states, who, steps, k);
    assert Proc(p) && Proc(q);
  }

  /**
    No lost wakeup: in every state of every run in which the inner spinlock is
    free and the sleep-lock is free, no process is SLEEPING on the sleep-lock
    or committed to sleeping on it.
   */
  lemma NoLostWakeup(states: seq<State>, who: seq<Pid>, steps: seq<Step>, k: nat, p: Pid)
    requires Run(states, who, steps) && k < |states| && p < |states[k].pc|
    requires states[k].lk == None && !states[k].locked
    ensures |states[k].pc| == |states[k].st| && !Drowsy(states[k], p)
    ensures !states[k].pc[p].SleepEnter? && !states[k].pc[p].SleepRelease?
  {
    RunInv(states, who, steps, k);
    assert Proc(p);
  }
}
