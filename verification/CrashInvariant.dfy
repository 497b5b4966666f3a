/**
  What a file system may rely on after a crash (kernel/log.c, kernel/fs.c): a
  property of the home blocks that every group of operations keeps holds of
  the recovered disk, whenever the machine crashed. Block ownership is one; see
  module DiskView.
 */
module CrashInvariant {
  import opened Params
  import opened RedoLog
  import opened StorageMachine

  ghost predicate SameHome(lay: Layout, a: Image, b: Image) {
    |a| == |b| && forall x {:trigger Index(x)} :: Index(x) && 0 <= x < |a| && !lay.InLog(x) ==> a[x] == b[x]
  }

  // P looks at home blocks only.
  ghost predicate HomeOnly(lay: Layout, P: Image -> bool) {
    forall a: Image, b: Image {:trigger P(a), P(b)} :: SameHome(lay, a, b) ==> P(a) == P(b)
  }

  // Operations were active from state i on and none is at state k.
  ghost predicate Group(states: seq<State>, i: nat, k: nat) {
    && i < k < |states| && states[i].ops == [] && states[k].ops == []
    && forall j :: i < j < k ==> states[j].ops != []
  }

  // Every group of operations that ends takes P to P.
  ghost predicate GroupsKeep(states: seq<State>, steps: seq<Step>, P: Image -> bool) {
    forall i: nat, k: nat {:trigger Group(states, i, k)} ::
      Group(states, i, k) && 0 < k <= |steps| && i + 1 < k && steps[k - 1].SEndOp? && P(states[i].cur) ==>
        P(states[k].cur)
  }

  // A step with no operation active, before or after, leaves the home blocks.
  lemma QuietStep(s: State, s': State, st: Step)
    requires Inv(s) && Next(s, s', st) && s.ops == [] && s'.ops == [] && Running(s) && Running(s')
    ensures s'.lay == s.lay && SameHome(s.lay, s'.cur, s.cur)
  {
    match st
    case SInstall(from, to) => InstallKeeps(s, s', from, to);
    case _ =>
  }

  // Recovery ends with the durable home blocks in the cache.
  lemma RecoveredHome(s: State, s': State, st: Step)
    requires Inv(s) && Next(s, s', st) && !Running(s) && Running(s')
    ensures s'.committed == s.committed && SameHome(s.lay, s'.cur, s.committed)
  {
    assert ReplayClear(s, s');
    forall x {:trigger Index(x)} | Index(x) && 0 <= x < |s'.cur| && !s.lay.InLog(x)
      ensures s'.cur[x] == s.committed[x]
    {
      ReplayedHome(s, x);
    }
  }

  // The layout is the same throughout.
  lemma {:induction false} SameLayout(states: seq<State>, steps: seq<Step>, k: nat)
    requires Run(states, steps) && k < |states|
    ensures states[k].lay == states[0].lay
  {
    if k > 0 {
      SameLayout(states, steps, k - 1);
      assert Next(states[k - 1], states[k], steps[k - 1]);
    }
  }

  // The state before the operations that are active at k began.
  lemma {:induction false} GroupStart(states: seq<State>, steps: seq<Step>, k: nat) returns (i: nat)
    requires Run(states, steps) && k < |states| && states[k].ops != []
    ensures i < k && states[i].ops == [] && Running(states[i]) && forall j :: i < j <= k ==> states[j].ops != []
    decreases k
  {
    RunInv(states, steps, k - 1);
    assert Next(states[k - 1], states[k], steps[k - 1]);
    if states[k - 1].ops == [] {
      i := k - 1;
    } else {
      i := GroupStart(states, steps, k - 1);
    }
  }

  // A step from a state where no operation is active.
  lemma QuietNext(states: seq<State>, steps: seq<Step>, P: Image -> bool, k: nat)
    requires Run(states, steps) && k < |steps| && HomeOnly(states[0].lay, P)
    requires states[k].ops == [] && states[k + 1].ops == [] && Running(states[k + 1])
    requires P(states[k].committed) && (Running(states[k]) ==> P(states[k].cur))
    ensures P(states[k + 1].cur)
  {
    RunInv(states, steps, k);
    SameLayout(states, steps, k);
    assert Next(states[k], states[k + 1], steps[k]);
    if Running(states[k]) {
      QuietStep(states[k], states[k + 1], steps[k]);
    } else {
      RecoveredHome(states[k], states[k + 1], steps[k]);
    }
  }

  // Only end_op, or a crash, ends the last operation.
  lemma GroupEnds(states: seq<State>, steps: seq<Step>, k: nat)
    requires Run(states, steps) && k < |steps| && states[k].ops != [] && states[k + 1].ops == []
    requires Running(states[k + 1])
    ensures steps[k].SEndOp?
  {
    assert Next(states[k], states[k + 1], steps[k]);
  }

  lemma DurableNext(states: seq<State>, steps: seq<Step>, P: Image -> bool, k: nat)
    requires Run(states, steps) && k < |steps| && HomeOnly(states[0].lay, P)
    requires P(states[k].committed) && (states[k].ops == [] && Running(states[k]) ==> P(states[k].cur))
    ensures P(states[k + 1].committed)
  {
    SameLayout(states, steps, k);
    assert Next(states[k], states[k + 1], steps[k]);
    if states[k + 1].committed != states[k].committed {
      RunInv(states, steps, k);
      Atomicity(states, steps, k);
      assert SameHome(states[k].lay, states[k + 1].committed, states[k].cur);
    }
  }

  // The operations active at k have ended at k + 1.
  lemma GroupNext(states: seq<State>, steps: seq<Step>, P: Image -> bool, i: nat, k: nat)
    requires Run(states, steps) && k < |steps| && GroupsKeep(states, steps, P)
    requires i < k && states[i].ops == [] && (forall j :: i < j <= k ==> states[j].ops != []) && P(states[i].cur)
    requires states[k + 1].ops == [] && Running(states[k + 1])
    ensures P(states[k + 1].cur)
  {
    GroupEnds(states, steps, k);
    assert Group(states, i, k + 1);
  }

  // With no operation active P holds of the latest contents, and it always
  // holds of the durable ones.
  ghost predicate HoldsAt(s: State, P: Image -> bool) {
    P(s.committed) && (s.ops == [] && Running(s) ==> P(s.cur))
  }

  lemma {:induction false} Holds(states: seq<State>, steps: seq<Step>, P: Image -> bool, k: nat)
    requires Run(states, steps) && k < |states| && HomeOnly(states[0].lay, P) && GroupsKeep(states, steps, P)
    requires P(states[0].cur)
    ensures HoldsAt(states[k], P)
    decreases k
  {
    if k > 0 {
      Holds(states, steps, P, k - 1);
      DurableNext(states, steps, P, k - 1);
      if states[k].ops == [] && Running(states[k]) {
        if states[k - 1].ops != [] {
          var i := GroupStart(states, steps, k - 1);
          Holds(states, steps, P, i);
          GroupNext(states, steps, P, i, k - 1);
        } else {
          QuietNext(states, steps, P, k - 1);
        }
      }
    }
  }

  /**
    In every state of every run, recovery from a crash at that moment,
    interrupted any number of times, ends with a disk on which P holds.
   */
  lemma SurvivesCrash(states: seq<State>, steps: seq<Step>, P: Image -> bool, k: nat, ks: seq<nat>)
    requires Run(states, steps) && k < |states| && HomeOnly(states[0].lay, P) && GroupsKeep(states, steps, P)
    requires P(states[0].cur)
    ensures var s := states[k];
            && Crashes(s.lay, s.disk, ks).Some? && Recoverable(s.lay, Crashes(s.lay, s.disk, ks).value)
            && P(Recover(s.lay, Crashes(s.lay, s.disk, ks).value))
  {
    var s := states[k];
    Holds(states, steps, P, k);
    SameLayout(states, steps, k);
    Durability(states, steps, k, ks);
    var e := Recover(s.lay, Crashes(s.lay, s.disk, ks).value);
    assert SameHome(s.lay, e, s.committed);
  }
}
