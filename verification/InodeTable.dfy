/**
  The table of in-memory inodes under every interleaving (kernel/fs.c). What
  iget, idup and iput do under itable.lock is one step, and so is each access
  to the inode on disk through its locked buffer. A process changes an
  in-memory inode only while it holds its sleep-lock, and calls iupdate before
  it lets go.
 */
module InodeTable {
  import opened Params

  type Pid = nat

  datatype DiskInode = DiskInode(typ: int, nlink: int, body: int)

  // holders: one occurrence for each reference a process holds.
  // dirty: changed since the last iupdate.
  datatype Entry = Entry(inum: nat, ref: int, valid: bool, copy: DiskInode, lock: Option<Pid>,
                         holders: multiset<Pid>, dirty: bool)

  datatype PC =
    | Idle
    | Allocated(inum: nat)  // ialloc: marked inum on disk, about to iget it
    | Freeing(i: nat)       // iput: holds the sleep-lock, itable.lock released
    | Freed(i: nat)         // iput: wrote type 0 to disk, entry still valid
    | Dropping(i: nat)      // iput: entry invalid, lock released, about to drop

  datatype State = State(disk: seq<DiskInode>, ent: seq<Entry>, pc: seq<PC>)

  // -------------------------------------------------------------- invariant

  ghost predicate IsFreed(s: State, i: nat)
    requires i < |s.ent|
  {
    s.ent[i].lock.Some? && s.ent[i].lock.value < |s.pc| && s.pc[s.ent[i].lock.value] == Freed(i)
  }

  ghost predicate EntryOk(s: State, i: nat)
    requires i < |s.ent|
  {
    var e := s.ent[i];
    && e.ref == |e.holders|
    && (e.lock.Some? ==> e.lock.value in e.holders && e.lock.value < |s.pc|) && (e.lock.None? ==> !e.dirty)
    && (e.ref > 0 ==> e.inum < |s.disk|)
    && (e.ref > 0 && e.valid && !IsFreed(s, i) ==>
          s.disk[e.inum].typ != 0 && e.copy.typ != 0 && (!e.dirty ==> e.copy == s.disk[e.inum]))
  }

  ghost predicate PcOk(s: State, p: nat)
    requires p < |s.pc|
  {
    match s.pc[p]
    case Idle => true
    case Allocated(inum) => inum < |s.disk|
    case Freeing(i) => i < |s.ent| && s.ent[i].lock == Some(p) && s.ent[i].valid && !s.ent[i].dirty
    case Freed(i) => i < |s.ent| && s.ent[i].lock == Some(p)
    case Dropping(i) => i < |s.ent| && p in s.ent[i].holders && s.ent[i].lock != Some(p)
  }

  // Always true; the handles by which the invariant is used.
  ghost predicate AtEntry(i: int) { true }
  ghost predicate AtPid(p: int) { true }
  ghost predicate AtPair(i: int) { true }

  ghost predicate Entries(s: State) {
    forall i {:trigger AtEntry(i)} :: AtEntry(i) && 0 <= i < |s.ent| ==> EntryOk(s, i)
  }

  ghost predicate Unique(s: State) {
    forall i, j {:trigger AtPair(i), AtPair(j)} ::
      AtPair(i) && AtPair(j) && 0 <= i < j < |s.ent| && s.ent[i].ref > 0 && s.ent[j].ref > 0 ==>
      s.ent[i].inum != s.ent[j].inum
  }

  ghost predicate Places(s: State) {
    forall p {:trigger AtPid(p)} :: AtPid(p) && 0 <= p < |s.pc| ==> PcOk(s, p)
  }

  ghost predicate Inv(s: State) { Entries(s) && Unique(s) && Places(s) }

  // ------------------------------------------------------------------ steps

  datatype Step =
    | IgetHit(i: nat) | IgetMiss(i: nat, inum: nat) | Idup(i: nat)
    | Lock(i: nat) | Load(i: nat) | Modify(i: nat, x: DiskInode) | Update(i: nat) | Unlock(i: nat)
    | PutPlain(i: nat) | PutFree(i: nat) | FreeTrunc(x: DiskInode) | FreeUpdate | FreeDone | PutDrop
    | AllocDisk(inum: nat, typ: int)

  function With(s: State, i: nat, e: Entry): State
    requires i < |s.ent|
  {
    s.(ent := s.ent[i := e])
  }

  function Goto(s: State, p: Pid, pc: PC): State
    requires p < |s.pc|
  {
    s.(pc := s.pc[p := pc])
  }

  function Write(s: State, inum: nat, d: DiskInode): State
    requires inum < |s.disk|
  {
    s.(disk := s.disk[inum := d])
  }

  function Get(e: Entry, p: Pid): Entry { e.(ref := e.ref + 1, holders := e.holders + multiset{p}) }

  function Drop(e: Entry, p: Pid): Entry { e.(ref := e.ref - 1, holders := e.holders - multiset{p}) }

  // iput's test for the last reference to an unlinked inode.
  predicate Last(e: Entry) { e.ref == 1 && e.valid && e.copy.nlink == 0 }

  // iget and idup
  ghost predicate GetNext(s: State, s': State, p: Pid, step: Step) {
    && p < |s.pc|
    && match step
       case IgetHit(i) =>
         && i < |s.ent| && s.ent[i].ref > 0 && (s.pc[p] == Idle || s.pc[p] == Allocated(s.ent[i].inum))
         && s' == Goto(With(s, i, Get(s.ent[i], p)), p, Idle)
       case IgetMiss(i, inum) =>
         && i < |s.ent| && inum < |s.disk| && s.ent[i].ref == 0 && (s.pc[p] == Idle || s.pc[p] == Allocated(inum))
         && (forall j {:trigger AtPair(j)} :: AtPair(j) && 0 <= j < |s.ent| && s.ent[j].ref > 0 ==>
               s.ent[j].inum != inum)
         && s' == Goto(With(s, i, s.ent[i].(inum := inum, ref := 1, valid := false, holders := multiset{p})), p, Idle)
       case Idup(i) =>
         i < |s.ent| && s.pc[p] == Idle && p in s.ent[i].holders && s' == With(s, i, Get(s.ent[i], p))
       case _ => false
  }

  // ilock, changes to the inode, iupdate, iunlock
  ghost predicate LockNext(s: State, s': State, p: Pid, step: Step) {
    && p < |s.pc| && s.pc[p] == Idle
    && match step
       case Lock(i) =>
         i < |s.ent| && p in s.ent[i].holders && s.ent[i].lock == None && s' == With(s, i, s.ent[i].(lock := Some(p)))
       // ilock panics on a free inode
       case Load(i) =>
         && i < |s.ent| && s.ent[i].lock == Some(p) && !s.ent[i].valid && s.ent[i].inum < |s.disk|
         && s.disk[s.ent[i].inum].typ != 0
         && s' == With(s, i, s.ent[i].(valid := true, copy := s.disk[s.ent[i].inum], dirty := false))
       case Modify(i, x) =>
         && i < |s.ent| && s.ent[i].lock == Some(p) && s.ent[i].valid && x.typ != 0
         && s' == With(s, i, s.ent[i].(copy := x, dirty := true))
       case Update(i) =>
         && i < |s.ent| && s.ent[i].lock == Some(p) && s.ent[i].valid && s.ent[i].inum < |s.disk|
         && s' == Write(With(s, i, s.ent[i].(dirty := false)), s.ent[i].inum, s.ent[i].copy)
       case Unlock(i) =>
         && i < |s.ent| && s.ent[i].lock == Some(p) && s.ent[i].valid && !s.ent[i].dirty
         && s' == With(s, i, s.ent[i].(lock := None))
       case _ => false
  }

  // iput and ialloc; iput is called without the sleep-lock
  ghost predicate PutNext(s: State, s': State, p: Pid, step: Step) {
    && p < |s.pc|
    && match step
       case PutPlain(i) =>
         && s.pc[p] == Idle && i < |s.ent| && p in s.ent[i].holders && s.ent[i].lock != Some(p) && !Last(s.ent[i])
         && s' == With(s, i, Drop(s.ent[i], p))
       case PutFree(i) =>
         && s.pc[p] == Idle && i < |s.ent| && p in s.ent[i].holders && s.ent[i].lock == None && Last(s.ent[i])
         && s' == Goto(With(s, i, s.ent[i].(lock := Some(p))), p, Freeing(i))
       // itrunc and the iupdate in it
       case FreeTrunc(x) =>
         && s.pc[p].Freeing? && s.pc[p].i < |s.ent| && x.typ != 0 && s.ent[s.pc[p].i].inum < |s.disk|
         && s' == Write(With(s, s.pc[p].i, s.ent[s.pc[p].i].(copy := x)), s.ent[s.pc[p].i].inum, x)
       case FreeUpdate =>
         && s.pc[p].Freeing? && s.pc[p].i < |s.ent| && s.ent[s.pc[p].i].inum < |s.disk|
         && var x := s.ent[s.pc[p].i].copy.(typ := 0);
         s' == Goto(Write(With(s, s.pc[p].i, s.ent[s.pc[p].i].(copy := x)), s.ent[s.pc[p].i].inum, x),
                    p, Freed(s.pc[p].i))
       case FreeDone =>
         && s.pc[p].Freed? && s.pc[p].i < |s.ent|
         && s' == Goto(With(s, s.pc[p].i, s.ent[s.pc[p].i].(valid := false, lock := None, dirty := false)),
                       p, Dropping(s.pc[p].i))
       case PutDrop =>
         && s.pc[p].Dropping? && s.pc[p].i < |s.ent|
         && s' == Goto(With(s, s.pc[p].i, Drop(s.ent[s.pc[p].i], p)), p, Idle)
       case AllocDisk(inum, typ) =>
         && s.pc[p] == Idle && inum < |s.disk| && s.disk[inum].typ == 0 && typ != 0
         && s' == Goto(Write(s, inum, DiskInode(typ, 0, 0)), p, Allocated(inum))
       case _ => false
  }

  ghost predicate Next(s: State, s': State, p: Pid, step: Step) {
    GetNext(s, s', p, step) || LockNext(s, s', p, step) || PutNext(s, s', p, step)
  }

  // ----------------------------------------------------------- preservation

  // A step of process p touches entry i, the disk inode of i, and p's place.
  ghost predicate Framed(s: State, s': State, p: Pid, i: nat) {
    && p < |s.pc| && i < |s.ent| && |s'.ent| == |s.ent| && |s'.pc| == |s.pc| && |s'.disk| == |s.disk|
    && s'.ent == s.ent[i := s'.ent[i]] && s'.pc == s.pc[p := s'.pc[p]]
    && (s.pc[p].Freed? ==> s.pc[p].i == i) && (s'.pc[p].Freed? ==> s'.pc[p].i == i)
    && var e, e' := s.ent[i], s'.ent[i];
    && (s'.disk == s.disk || (e.ref > 0 && e.inum < |s.disk| && s'.disk == s.disk[e.inum := s'.disk[e.inum]]))
    && (e.lock.Some? && e.lock.value != p ==> e'.lock == e.lock && e'.valid == e.valid && e'.dirty == e.dirty)
    && (e'.lock.Some? && e'.lock.value != p ==> e'.lock == e.lock)
    && (forall q: Pid {:trigger AtPid(q)} :: AtPid(q) && q in e.holders && q != p ==> q in e'.holders)
    && (e'.ref > 0 ==>
          || (e.ref > 0 && e'.inum == e.inum)
          || (forall j {:trigger AtPair(j)} :: AtPair(j) && 0 <= j < |s.ent| && s.ent[j].ref > 0 ==>
            s.ent[j].inum != e'.inum))
  }

  lemma FramedEntries(s: State, s': State, p: Pid, i: nat)
    requires Inv(s) && Framed(s, s', p, i) && EntryOk(s', i)
    ensures Entries(s')
  {
    forall j {:trigger AtEntry(j)} | AtEntry(j) && 0 <= j < |s'.ent| && j != i ensures EntryOk(s', j) {
      assert AtPair(i) && AtPair(j) && AtEntry(j);
    }
  }

  lemma FramedKeeps(s: State, s': State, p: Pid, i: nat)
    requires Inv(s) && Framed(s, s', p, i) && EntryOk(s', i) && PcOk(s', p)
    ensures Inv(s')
  {
    FramedEntries(s, s', p, i);
    assert AtPair(i);
  }

  lemma Dropped(m: multiset<Pid>, p: Pid)
    requires p in m
    ensures |m - multiset{p}| == |m| - 1
    ensures forall q: Pid {:trigger AtPid(q)} :: AtPid(q) && q != p && q in m ==> q in m - multiset{p}
  {
  }

  lemma GetKeeps(s: State, s': State, p: Pid, step: Step)
    requires Inv(s) && GetNext(s, s', p, step)
    ensures Inv(s')
  {
    assert AtEntry(step.i) && AtPid(p);
    FramedKeeps(s, s', p, step.i);
  }

  lemma LockKeeps(s: State, s': State, p: Pid, step: Step)
    requires Inv(s) && LockNext(s, s', p, step)
    ensures Inv(s')
  {
    assert AtEntry(step.i) && AtPid(p);
    FramedKeeps(s, s', p, step.i);
  }

  lemma PlainKeeps(s: State, s': State, p: Pid, step: Step)
    requires Inv(s) && PutNext(s, s', p, step) && step.PutPlain?
    ensures Inv(s')
  {
    assert AtEntry(step.i) && AtPid(p);
    Dropped(s.ent[step.i].holders, p);
    FramedKeeps(s, s', p, step.i);
  }

  lemma DropKeeps(s: State, s': State, p: Pid, step: Step)
    requires Inv(s) && PutNext(s, s', p, step) && step.PutDrop?
    ensures Inv(s')
  {
    var i := s.pc[p].i;
    assert AtEntry(i) && AtPid(p);
    Dropped(s.ent[i].holders, p);
    FramedKeeps(s, s', p, i);
  }

  lemma FreeKeeps(s: State, s': State, p: Pid, step: Step)
    requires Inv(s) && PutNext(s, s', p, step) && !step.PutPlain? && !step.PutDrop? && !step.AllocDisk?
    ensures Inv(s')
  {
    var i := if step.PutFree? then step.i else s.pc[p].i;
    assert AtEntry(i) && AtPid(p);
    FramedKeeps(s, s', p, i);
  }

  // A free inode on disk is in no valid entry but one being freed.
  lemma AllocKeeps(s: State, s': State, p: Pid, step: Step)
    requires Inv(s) && PutNext(s, s', p, step) && step.AllocDisk?
    ensures Inv(s')
  {
    assert AtPid(p);
    forall j {:trigger AtEntry(j)} | AtEntry(j) && 0 <= j < |s'.ent| ensures EntryOk(s', j) {
      assert AtEntry(j);
    }
  }

  lemma StepKeeps(s: State, s': State, p: Pid, step: Step)
    requires Inv(s) && Next(s, s', p, step)
    ensures Inv(s')
  {
    match step
    case IgetHit(_) | IgetMiss(_, _) | Idup(_) => GetKeeps(s, s', p, step);
    case Lock(_) | Load(_) | Modify(_, _) | Update(_) | Unlock(_) => LockKeeps(s, s', p, step);
    case PutPlain(_) => PlainKeeps(s, s', p, step);
    case PutDrop => DropKeeps(s, s', p, step);
    case AllocDisk(_, _) => AllocKeeps(s, s', p, step);
    case _ => FreeKeeps(s, s', p, step);
  }

  // -------------------------------------------------------- runs and safety

  ghost predicate Init(s: State) {
    && (forall i :: 0 <= i < |s.ent| ==>
          s.ent[i].ref == 0 && s.ent[i].holders == multiset{} && s.ent[i].lock == None && !s.ent[i].dirty)
    && (forall p :: 0 <= p < |s.pc| ==> s.pc[p] == Idle)
  }

  ghost predicate Run(states: seq<State>, who: seq<Pid>, steps: seq<Step>) {
    && |states| == |steps| + 1 == |who| + 1 && Init(states[0])
    && forall k :: 0 <= k < |steps| ==> Next(states[k], states[k + 1], who[k], steps[k])
  }

  lemma {:induction false} RunInv(states: seq<State>, who: seq<Pid>, steps: seq<Step>, k: nat)
    requires Run(states, who, steps) && k < |states|
    ensures Inv(states[k])
  {
    if k > 0 {
      RunInv(states, who, steps, k - 1);
      StepKeeps(states[k - 1], states[k], who[k - 1], steps[k - 1]);
    }
  }

  /** At most one entry in use for each inode number. */
  lemma OneEntry(states: seq<State>, who: seq<Pid>, steps: seq<Step>, k: nat, i: nat, j: nat)
    requires Run(states, who, steps) && k < |states| && i < j < |states[k].ent| && states[k].ent[i].ref > 0
    requires states[k].ent[j].ref > 0
    ensures states[k].ent[i].inum != states[k].ent[j].inum
  {
    RunInv(states, who, steps, k);
    assert AtPair(i) && AtPair(j);
  }

  /** ref counts the references held, and only a process with a reference holds the lock. */
  lemma RefsHeld(states: seq<State>, who: seq<Pid>, steps: seq<Step>, k: nat, i: nat)
    requires Run(states, who, steps) && k < |states| && i < |states[k].ent|
    ensures states[k].ent[i].ref == |states[k].ent[i].holders|
    ensures states[k].ent[i].lock.Some? ==> states[k].ent[i].lock.value in states[k].ent[i].holders
  {
    RunInv(states, who, steps, k);
    assert AtEntry(i);
  }

  lemma HeldStep(s: State, s': State, q: Pid, step: Step, i: nat, p: Pid)
    requires Inv(s) && Next(s, s', q, step) && i < |s.ent| && p in s.ent[i].holders
    ensures |s'.ent| == |s.ent| && s'.ent[i].inum == s.ent[i].inum
  {
    assert AtEntry(i) && |s.ent[i].holders| > 0;
  }

  /** As long as a process holds a reference to an entry, the entry stands for the same inode. */
  lemma {:induction false} HeldStays(states: seq<State>, who: seq<Pid>, steps: seq<Step>, j: nat, k: nat, i: nat,
                                     p: Pid)
    requires Run(states, who, steps) && j <= k < |states| && i < |states[j].ent|
    requires forall m :: j <= m < k ==> i < |states[m].ent| && p in states[m].ent[i].holders
    ensures i < |states[k].ent| && states[k].ent[i].inum == states[j].ent[i].inum
    decreases k - j
  {
    if j < k {
      HeldStays(states, who, steps, j, k - 1, i, p);
      RunInv(states, who, steps, k - 1);
      HeldStep(states[k - 1], states[k], who[k - 1], steps[k - 1], i, p);
    }
  }

  /** An entry in use that is valid and unlocked is the inode on disk, and that is not a free one. */
  lemma Coherent(states: seq<State>, who: seq<Pid>, steps: seq<Step>, k: nat, i: nat)
    requires Run(states, who, steps) && k < |states| && i < |states[k].ent|
    requires states[k].ent[i].ref > 0 && states[k].ent[i].valid && states[k].ent[i].lock == None
    ensures var e := states[k].ent[i];
            e.inum < |states[k].disk| && e.copy == states[k].disk[e.inum] && e.copy.typ != 0
  {
    RunInv(states, who, steps, k);
    assert AtEntry(i);
  }

  /**
    iput's acquiresleep under itable.lock never waits: a process that holds the
    one reference to an entry and not its lock finds the lock free.
   */
  lemma PutNeverWaits(states: seq<State>, who: seq<Pid>, steps: seq<Step>, k: nat, i: nat, p: Pid)
    requires Run(states, who, steps) && k < |states| && i < |states[k].ent|
    requires states[k].ent[i].ref == 1 && p in states[k].ent[i].holders && states[k].ent[i].lock != Some(p)
    ensures states[k].ent[i].lock == None
  {
    RunInv(states, who, steps, k);
    assert AtEntry(i);
    var m := states[k].ent[i].holders;
    assert |m - multiset{p}| == 0;
    assert forall q: Pid :: q != p ==> m[q] == (m - multiset{p})[q];
  }

  /** ialloc never takes a number that a valid entry still stands for, unless its iput is about to invalidate it. */
  lemma AllocFindsFree(states: seq<State>, who: seq<Pid>, steps: seq<Step>, k: nat, i: nat)
    requires Run(states, who, steps) && k < |steps| && steps[k].AllocDisk? && i < |states[k].ent|
    requires states[k].ent[i].ref > 0 && states[k].ent[i].valid && states[k].ent[i].inum == steps[k].inum
    ensures states[k].ent[i].lock.Some? && states[k].ent[i].lock.value < |states[k].pc|
    ensures states[k].pc[states[k].ent[i].lock.value] == Freed(i)
  {
    RunInv(states, who, steps, k);
    assert Next(states[k], states[k + 1], who[k], steps[k]);
    assert AtEntry(i);
  }
}
