/**
  The storage stack under every interleaving and every crash.

  Threads run file-system operations, look up and recycle buffers, wait for
  and take buffer locks, modify buffers inside an operation, log them and let
  them go; the last operation out runs the commit, one block write a step; at
  any moment the machine may crash and recover, and crash again during the
  recovery. Each step is one critical section of kernel/bio.c or kernel/log.c
  or one block write of kernel/ramdisk.c.
 */
module StorageMachine {
  import opened Params
  import opened RedoLog

  type Tid = nat
  const COMMIT: Tid := 0  // the thread that runs commit()

  // waiting: threads with a reference that do not hold the lock yet (bget).
  // leaving: threads that released the lock but not yet the reference (brelse).
  // dirty: the holder changed data since it last logged it.
  datatype Slot = Slot(dev: nat, blockno: nat, valid: bool, data: Block, refcnt: nat,
                       holder: Option<Tid>, waiting: nat, leaving: nat, dirty: bool)

  // One operation between begin_op and end_op, and the distinct blocks it logged.
  datatype Op = Op(tid: Tid, logged: set<nat>)

  datatype Phase =
    | Idle             // not committing
    | Logging(i: nat)  // write_log has copied the first i blocks
    | Installing(i: nat)
    | Booting
    | Replaying(i: nat)

  datatype State = State(
    lay: Layout,
    disk: Image,
    slot: seq<Slot>,
    lh: seq<nat>,
    ops: seq<Op>,
    phase: Phase,
    at: map<nat, nat>,   // the slot of each cached block
    cur: Image,          // the latest contents of every block
    committed: Image     // home blocks as of the last header write
  )

  // ------------------------------------------------------------- invariant

  // The listed blocks whose pin commit has not dropped yet.
  function Pins(lh: seq<nat>, phase: Phase): seq<nat> {
    match phase
    case Installing(i) => if i <= |lh| then lh[i..] else []
    case Booting => []
    case Replaying(_) => []
    case _ => lh
  }

  ghost predicate SlotOk(s: Slot, b: nat, at: map<nat, nat>, cur: Image, pins: seq<nat>, ops: seq<Op>, lay: Layout) {
    if s.dev == 0 then SlotFree(s)
    else
      && s.dev == ROOTDEV && s.blockno < |cur| && s.blockno in at && at[s.blockno] == b
      && s.refcnt == s.waiting + s.leaving + (if s.holder.Some? then 1 else 0) + (if s.blockno in pins then 1 else 0)
      && (s.valid ==> s.data == cur[s.blockno])
      && (s.blockno in pins ==> s.valid)
      && (s.dirty ==> s.valid && s.holder.Some? && Active(ops, s.holder.value) && !lay.InLog(s.blockno))
  }

  ghost predicate Active(ops: seq<Op>, t: Tid) {
    exists i :: 0 <= i < |ops| && ops[i].tid == t
  }

  // No block is cached twice; every valid buffer holds the latest contents of
  // its block; a block whose latest contents are not on disk is pinned by the
  // log or being modified by its holder.
  ghost predicate CacheOk(slot: seq<Slot>, at: map<nat, nat>, cur: Image, disk: Image, pins: seq<nat>, ops: seq<Op>,
                          lay: Layout) {
    && |slot| == NBUF && |cur| == |disk|
    && (forall b {:trigger Index(b)} :: Index(b) && 0 <= b < |slot| ==> SlotOk(slot[b], b, at, cur, pins, ops, lay))
    && (forall x {:trigger Index(x)} :: Index(x) && x in at ==>
          at[x] < |slot| && slot[at[x]].dev == ROOTDEV && slot[at[x]].blockno == x)
    && (forall x {:trigger Index(x)} :: Index(x) && x in pins ==> x in at)
    && (forall x {:trigger Index(x)} :: Index(x) && 0 <= x < |disk| && cur[x] != disk[x] ==>
          x in at && (x in pins || slot[at[x]].dirty))
  }

  function Unused(ops: seq<Op>): int {
    if ops == [] then 0 else Unused(ops[..|ops| - 1]) + MAXOPBLOCKS - |ops[|ops| - 1].logged|
  }

  // Admission: what is listed plus what the active operations may still add
  // fits in the log.
  ghost predicate OpsOk(ops: seq<Op>, lh: seq<nat>) {
    && (forall i :: 0 <= i < |ops| ==> ops[i].tid != COMMIT && |ops[i].logged| <= MAXOPBLOCKS)
    && (forall i, x :: 0 <= i < |ops| && x in ops[i].logged ==> x in lh)
    && (forall i, j :: 0 <= i < j < |ops| ==> ops[i].tid != ops[j].tid)
    && |lh| + Unused(ops) <= LOGSIZE
  }

  // Recovering d would give exactly the home blocks of c: a block the header
  // does not list is already home, a listed one is in the log.
  ghost predicate Stable(lay: Layout, d: Image, c: Image) {
    && Recoverable(lay, d) && |c| == |d|
    && var blocks := HeadBlocks(d[lay.start]);
    && (forall x {:trigger Index(x)} :: Index(x) && 0 <= x < |d| && !lay.InLog(x) && x !in blocks ==> d[x] == c[x])
    && (forall j {:trigger Index(j)} :: Index(j) && 0 <= j < |blocks| ==> c[blocks[j]] == d[lay.start + 1 + j])
  }

  // The log slots of the first n listed blocks hold their latest contents.
  ghost predicate Copied(lay: Layout, d: Image, cur: Image, lh: seq<nat>, n: nat)
    requires lay.Fits(d) && ListOk(lay, d, lh) && |cur| == |d|
  {
    n <= |lh| && forall j {:trigger Index(j)} :: Index(j) && 0 <= j < n ==> d[lay.start + 1 + j] == cur[lh[j]]
  }

  ghost predicate PhaseOk(s: State)
    requires s.lay.Fits(s.disk) && ListOk(s.lay, s.disk, s.lh) && |s.cur| == |s.disk| && HeadOk(s.disk[s.lay.start])
  {
    var head := HeadBlocks(s.disk[s.lay.start]);
    match s.phase
    case Idle => head == []
    case Logging(i) => s.ops == [] && head == [] && Copied(s.lay, s.disk, s.cur, s.lh, i)
    case Installing(i) => s.ops == [] && i <= |s.lh| && head == s.lh && Copied(s.lay, s.disk, s.cur, s.lh, |s.lh|)
    case Booting => s.ops == [] && s.lh == [] && Cold(s)
    case Replaying(i) => s.ops == [] && Cold(s) && head == s.lh && Replayed(s.lay, s.disk, s.lh, i)
  }

  // Nothing is cached yet.
  ghost predicate Cold(s: State) {
    s.at == map[] && forall b :: 0 <= b < |s.slot| ==> s.slot[b].dev == 0
  }

  // Recovery has copied the first i listed blocks home.
  ghost predicate Replayed(lay: Layout, d: Image, lh: seq<nat>, i: nat)
    requires lay.Fits(d) && ListOk(lay, d, lh)
  {
    i <= |lh| && forall j {:trigger Index(j)} :: Index(j) && 0 <= j < i ==> d[lh[j]] == d[lay.start + 1 + j]
  }

  ghost predicate Inv(s: State) {
    && ListOk(s.lay, s.disk, s.lh)
    && Stable(s.lay, s.disk, s.committed)
    && CacheOk(s.slot, s.at, s.cur, s.disk, Pins(s.lh, s.phase), s.ops, s.lay)
    && OpsOk(s.ops, s.lh)
    && PhaseOk(s)
  }

  // ------------------------------------------------------------------ steps

  predicate Running(s: State) { s.phase.Idle? || s.phase.Logging? || s.phase.Installing? }

  // begin_op admits thread t.
  ghost predicate BeginOp(s: State, s': State, t: Tid) {
    && s.phase == Idle && t != COMMIT && !Active(s.ops, t)
    && |s.lh| + (|s.ops| + 1) * MAXOPBLOCKS <= LOGSIZE
    && s' == s.(ops := s.ops + [Op(t, {})])
  }

  // end_op of operation i, which holds no buffer any more; the last one out
  // starts the commit unless nothing was logged.
  ghost predicate EndOp(s: State, s': State, i: nat) {
    && s.phase == Idle && i < |s.ops|
    && (forall b :: 0 <= b < |s.slot| ==> s.slot[b].holder != Some(s.ops[i].tid))
    && var ops := s.ops[..i] + s.ops[i + 1..];
    && s' == s.(ops := ops, phase := if ops == [] && s.lh != [] then Logging(0) else Idle)
  }

  // One buffer changes, and with it perhaps its block's latest contents.
  function Set(s: State, b: nat, v: Slot, x: nat): State
    requires b < |s.slot|
  {
    s.(slot := s.slot[b := v],
       at := (if s.slot[b].dev == 0 then s.at else s.at - {s.slot[b].blockno})[x := b])
  }

  // bget finds the block cached.
  ghost predicate BgetHit(s: State, s': State, b: nat) {
    && Running(s) && b < |s.slot| && s.slot[b].dev == ROOTDEV
    && var v := s.slot[b];
    && s' == Set(s, b, v.(refcnt := v.refcnt + 1, waiting := v.waiting + 1), v.blockno)
  }

  // bget recycles an unreferenced buffer for block x.
  ghost predicate BgetMiss(s: State, s': State, b: nat, x: nat) {
    && Running(s) && b < |s.slot| && s.slot[b].refcnt == 0 && x < |s.disk|
    && (forall i :: 0 <= i < |s.slot| ==> !(s.slot[i].dev == ROOTDEV && s.slot[i].blockno == x))
    && s' == Set(s, b, Slot(ROOTDEV, x, false, s.slot[b].data, 1, None, 1, 0, false), x)
  }

  // acquiresleep on a buffer that has just been looked up.
  ghost predicate Lock(s: State, s': State, b: nat, t: Tid) {
    && Running(s) && b < |s.slot|
    && var v := s.slot[b];
    && v.dev == ROOTDEV && v.holder.None? && v.waiting > 0
    && s' == Set(s, b, v.(holder := Some(t), waiting := v.waiting - 1), v.blockno)
  }

  // bread fills an invalid buffer from the disk.
  ghost predicate Fill(s: State, s': State, b: nat) {
    && Running(s) && b < |s.slot|
    && var v := s.slot[b];
    && v.dev == ROOTDEV && v.holder.Some? && !v.valid && v.blockno < |s.disk|
    && s' == Set(s, b, v.(valid := true, data := s.disk[v.blockno]), v.blockno)
  }

  // The holder changes the data of a home block, inside its operation.
  ghost predicate Modify(s: State, s': State, b: nat, data: Block) {
    && s.phase == Idle && b < |s.slot|
    && var v := s.slot[b];
    && v.dev == ROOTDEV && v.valid && v.holder.Some? && Active(s.ops, v.holder.value)
    && v.blockno < |s.cur| && !s.lay.InLog(v.blockno)
    && s' == Set(s, b, v.(data := data, dirty := true), v.blockno).(cur := s.cur[v.blockno := data])
  }

  // Whether logging block x stays within the budget of an operation.
  predicate InBudget(op: Op, x: nat) { x in op.logged || |op.logged| < MAXOPBLOCKS }

  // The first check of log_write.
  predicate TooBig(s: State) { |s.lh| >= LOGSIZE || |s.lh| >= s.lay.size - 1 }

  // log_write by operation i.
  ghost predicate LogWrite(s: State, s': State, i: nat, b: nat) {
    && s.phase == Idle && i < |s.ops| && b < |s.slot|
    && var v := s.slot[b];
    && v.dev == ROOTDEV && v.valid && v.holder == Some(s.ops[i].tid) && !s.lay.InLog(v.blockno)
    && InBudget(s.ops[i], v.blockno) && !TooBig(s)
    && var ops := s.ops[i := s.ops[i].(logged := s.ops[i].logged + {v.blockno})];
    && s' == if v.blockno in s.lh
             then Set(s, b, v.(dirty := false), v.blockno).(ops := ops)
             else Set(s, b, v.(dirty := false, refcnt := v.refcnt + 1), v.blockno)
                  .(ops := ops, lh := s.lh + [v.blockno])
  }

  // brelse, first half: releasesleep. A changed buffer has been logged.
  ghost predicate Unlock(s: State, s': State, b: nat) {
    && Running(s) && b < |s.slot|
    && var v := s.slot[b];
    && v.dev == ROOTDEV && v.holder.Some? && !v.dirty
    && s' == Set(s, b, v.(holder := None, leaving := v.leaving + 1), v.blockno)
  }

  // brelse, second half.
  ghost predicate Drop(s: State, s': State, b: nat) {
    && Running(s) && b < |s.slot|
    && var v := s.slot[b];
    && v.dev == ROOTDEV && v.leaving > 0 && v.refcnt > 0
    && s' == Set(s, b, v.(refcnt := v.refcnt - 1, leaving := v.leaving - 1), v.blockno)
  }

  // The commit thread holds a valid buffer of block x.
  ghost predicate Holding(s: State, b: nat, x: nat) {
    && b < |s.slot| && x < |s.disk| == |s.cur|
    && s.slot[b].dev == ROOTDEV && s.slot[b].blockno == x && s.slot[b].valid && s.slot[b].holder == Some(COMMIT)
  }

  // memmove into a held buffer and bwrite it.
  function WriteBack(s: State, b: nat, v: Slot, x: nat): State
    requires b < |s.slot| && x < |s.disk| == |s.cur|
  {
    Set(s, b, v, x).(cur := s.cur[x := v.data], disk := s.disk[x := v.data])
  }

  // write_log copies listed block i to the log.
  ghost predicate LogCopy(s: State, s': State, to: nat, from: nat) {
    && s.phase.Logging? && s.phase.i < |s.lh|
    && var i := s.phase.i;
    && Holding(s, to, s.lay.start + 1 + i) && Holding(s, from, s.lh[i])
    && s' == WriteBack(s, to, s.slot[to].(data := s.slot[from].data), s.lay.start + 1 + i).(phase := Logging(i + 1))
  }

  // write_head with the whole list: the commit point.
  ghost predicate HeadWrite(s: State, s': State, b: nat) {
    && s.phase == Logging(|s.lh|) && |s.lh| <= LOGSIZE && Holding(s, b, s.lay.start)
    && var s1 := WriteBack(s, b, s.slot[b].(data := WithHead(s.slot[b].data, s.lh)), s.lay.start);
    && s' == s1.(phase := Installing(0), committed := s1.cur)
  }

  // install_trans copies listed block i home and drops its pin.
  ghost predicate Install(s: State, s': State, from: nat, to: nat) {
    && s.phase.Installing? && s.phase.i < |s.lh|
    && var i := s.phase.i;
    && Holding(s, from, s.lay.start + 1 + i) && Holding(s, to, s.lh[i]) && s.slot[to].refcnt > 0
    && s' == WriteBack(s, to, s.slot[to].(data := s.slot[from].data, refcnt := s.slot[to].refcnt - 1), s.lh[i])
             .(phase := Installing(i + 1))
  }

  // write_head with an empty list ends the commit.
  ghost predicate Clear(s: State, s': State, b: nat) {
    && s.phase == Installing(|s.lh|) && Holding(s, b, s.lay.start)
    && s' == WriteBack(s, b, s.slot[b].(data := WithHead(s.slot[b].data, [])), s.lay.start).(phase := Idle, lh := [])
  }

  // binit: buffers that hold no block.
  function FreeSlots(): (r: seq<Slot>)
    ensures |r| == NBUF && forall b :: 0 <= b < NBUF ==> r[b].dev == 0 && SlotFree(r[b])
  {
    seq(NBUF, _ => Slot(0, 0, false, seq(WORDS, _ => 0), 0, None, 0, 0, false))
  }

  predicate SlotFree(s: Slot) {
    s.refcnt == 0 && !s.valid && s.holder.None? && s.waiting == 0 && s.leaving == 0 && !s.dirty
  }

  // Power fails: memory is gone, the disk stays.
  ghost predicate Crash(s: State, s': State) {
    s' == s.(slot := FreeSlots(), at := map[], lh := [], ops := [], phase := Booting, cur := s.disk)
  }

  // Recovery reads the header, copies the listed blocks home, clears the header.
  ghost predicate ReadHead(s: State, s': State) {
    && s.phase == Booting && s.lay.Fits(s.disk) && HeadOk(s.disk[s.lay.start])
    && s' == s.(lh := HeadBlocks(s.disk[s.lay.start]), phase := Replaying(0))
  }

  ghost predicate Replay(s: State, s': State) {
    && s.phase.Replaying? && s.phase.i < |s.lh| && s.lay.start + 1 + s.phase.i < |s.disk|
    && var d := Put(s.disk, Write(s.lh[s.phase.i], s.disk[s.lay.start + 1 + s.phase.i]));
    && s' == s.(disk := d, cur := d, phase := Replaying(s.phase.i + 1))
  }

  ghost predicate ReplayClear(s: State, s': State) {
    && s.phase == Replaying(|s.lh|) && s.lay.start < |s.disk|
    && var d := Put(s.disk, Write(s.lay.start, WithHead(s.disk[s.lay.start], [])));
    && s' == s.(disk := d, cur := d, lh := [], phase := Idle)
  }

  // ----------------------------------------------------------- preservation

  ghost predicate SameOff(p: seq<nat>, q: seq<nat>, x: nat) {
    forall y {:trigger Index(y)} :: Index(y) && y != x ==> (y in p <==> y in q)
  }

  // A step on the buffer of one block leaves the other blocks alone.
  lemma Touch(s: State, s': State, b: nat, v: Slot, x: nat, c: Block, d: Block)
    requires CacheOk(s.slot, s.at, s.cur, s.disk, Pins(s.lh, s.phase), s.ops, s.lay)
    requires b < |s.slot| && x < |s.disk| && v.dev == ROOTDEV && v.blockno == x
    requires (s.slot[b].dev == ROOTDEV && s.slot[b].blockno == x) || (x !in s.at && s.slot[b].refcnt == 0)
    requires s'.slot == Set(s, b, v, x).slot && s'.at == Set(s, b, v, x).at
    requires s'.cur == s.cur[x := c] && s'.disk == s.disk[x := d] && s'.lay == s.lay
    requires forall t :: Active(s.ops, t) ==> Active(s'.ops, t)
    requires SameOff(Pins(s'.lh, s'.phase), Pins(s.lh, s.phase), x)
    requires SlotOk(v, b, s'.at, s'.cur, Pins(s'.lh, s'.phase), s'.ops, s.lay)
    requires c != d ==> x in Pins(s'.lh, s'.phase) || v.dirty
    ensures CacheOk(s'.slot, s'.at, s'.cur, s'.disk, Pins(s'.lh, s'.phase), s'.ops, s'.lay)
  {
    assert Index(b) && Index(x) && Index(s.slot[b].blockno);
    forall i {:trigger Index(i)} | Index(i) && 0 <= i < |s'.slot|
      ensures SlotOk(s'.slot[i], i, s'.at, s'.cur, Pins(s'.lh, s'.phase), s'.ops, s'.lay)
    {
      assert Index(s.slot[i].blockno);
    }
  }

  // The buffer of a cached block, as the invariant describes it.
  lemma SlotFacts(s: State, b: nat)
    requires CacheOk(s.slot, s.at, s.cur, s.disk, Pins(s.lh, s.phase), s.ops, s.lay) && b < |s.slot|
    ensures SlotOk(s.slot[b], b, s.at, s.cur, Pins(s.lh, s.phase), s.ops, s.lay)
    ensures var v := s.slot[b];
            v.dev == ROOTDEV && v.blockno < |s.disk| && s.cur[v.blockno] != s.disk[v.blockno] ==>
              v.blockno in Pins(s.lh, s.phase) || v.dirty
  {
    assert Index(b) && Index(s.slot[b].blockno);
  }

  lemma BgetHitKeeps(s: State, s': State, b: nat)
    requires Inv(s) && BgetHit(s, s', b)
    ensures Inv(s')
  {
    SlotFacts(s, b);
    var x := s.slot[b].blockno;
    Touch(s, s', b, s'.slot[b], x, s.cur[x], s.disk[x]);
  }

  // Recycling loses nothing: the buffer's block is on disk as it last was.
  lemma BgetMissKeeps(s: State, s': State, b: nat, x: nat)
    requires Inv(s) && BgetMiss(s, s', b, x)
    ensures Inv(s') && s'.cur == s.cur
    ensures s.slot[b].valid ==> s.slot[b].blockno < |s.disk| && s.slot[b].data == s.disk[s.slot[b].blockno]
  {
    SlotFacts(s, b);
    assert Index(x);
    Touch(s, s', b, s'.slot[b], x, s.cur[x], s.disk[x]);
  }

  lemma LockKeeps(s: State, s': State, b: nat, t: Tid)
    requires Inv(s) && Lock(s, s', b, t)
    ensures Inv(s')
  {
    SlotFacts(s, b);
    var x := s.slot[b].blockno;
    Touch(s, s', b, s'.slot[b], x, s.cur[x], s.disk[x]);
  }

  lemma FillKeeps(s: State, s': State, b: nat)
    requires Inv(s) && Fill(s, s', b)
    ensures Inv(s')
  {
    SlotFacts(s, b);
    var x := s.slot[b].blockno;
    Touch(s, s', b, s'.slot[b], x, s.cur[x], s.disk[x]);
  }

  lemma UnlockKeeps(s: State, s': State, b: nat)
    requires Inv(s) && Unlock(s, s', b)
    ensures Inv(s')
  {
    SlotFacts(s, b);
    var x := s.slot[b].blockno;
    Touch(s, s', b, s'.slot[b], x, s.cur[x], s.disk[x]);
  }

  lemma DropKeeps(s: State, s': State, b: nat)
    requires Inv(s) && Drop(s, s', b)
    ensures Inv(s')
  {
    SlotFacts(s, b);
    var x := s.slot[b].blockno;
    Touch(s, s', b, s'.slot[b], x, s.cur[x], s.disk[x]);
  }

  lemma ModifyKeeps(s: State, s': State, b: nat, data: Block)
    requires Inv(s) && Modify(s, s', b, data)
    ensures Inv(s')
  {
    SlotFacts(s, b);
    var x := s.slot[b].blockno;
    Touch(s, s', b, s'.slot[b], x, data, s.disk[x]);
  }

  lemma BeginOps(ops: seq<Op>, lh: seq<nat>, t: Tid)
    requires OpsOk(ops, lh) && t != COMMIT && !Active(ops, t) && |lh| + (|ops| + 1) * MAXOPBLOCKS <= LOGSIZE
    ensures OpsOk(ops + [Op(t, {})], lh) && forall u :: Active(ops, u) ==> Active(ops + [Op(t, {})], u)
  {
    var more := ops + [Op(t, {})];
    assert more[..|more| - 1] == ops;
    UnusedBound(ops);
    forall u | Active(ops, u) ensures Active(more, u) {
      var i :| 0 <= i < |ops| && ops[i].tid == u;
      assert more[i].tid == u;
    }
    forall i, j | 0 <= i < j < |more| ensures more[i].tid != more[j].tid {
      if j == |ops| {
        assert !Active(ops, t);
      }
    }
  }

  lemma BeginOpKeeps(s: State, s': State, t: Tid)
    requires Inv(s) && BeginOp(s, s', t)
    ensures Inv(s')
  {
    BeginOps(s.ops, s.lh, t);
  }

  lemma {:induction false} UnusedBound(ops: seq<Op>)
    ensures Unused(ops) <= |ops| * MAXOPBLOCKS
  {
    if ops != [] {
      UnusedBound(ops[..|ops| - 1]);
    }
  }

  // Ending an operation gives back what it did not use.
  lemma {:induction false} UnusedWithout(ops: seq<Op>, i: nat)
    requires i < |ops|
    ensures Unused(ops[..i] + ops[i + 1..]) == Unused(ops) - MAXOPBLOCKS + |ops[i].logged|
  {
    var rest := ops[..i] + ops[i + 1..];
    if i == |ops| - 1 {
      assert rest == ops[..|ops| - 1];
    } else {
      var init := ops[..|ops| - 1];
      UnusedWithout(init, i);
      assert rest[..|rest| - 1] == init[..i] + init[i + 1..];
      assert rest[|rest| - 1] == ops[|ops| - 1];
    }
  }

  lemma {:induction false} UnusedUpdate(ops: seq<Op>, i: nat, op: Op)
    requires i < |ops|
    ensures Unused(ops[i := op]) == Unused(ops) + |ops[i].logged| - |op.logged|
  {
    var upd := ops[i := op];
    if i == |ops| - 1 {
      assert upd[..|ops| - 1] == ops[..|ops| - 1];
    } else {
      UnusedUpdate(ops[..|ops| - 1], i, op);
      assert upd[..|ops| - 1] == ops[..|ops| - 1][i := op];
    }
  }

  lemma EndOpKeeps(s: State, s': State, i: nat)
    requires Inv(s) && EndOp(s, s', i)
    ensures Inv(s')
  {
    UnusedWithout(s.ops, i);
    forall j {:trigger Index(j)} | Index(j) && 0 <= j < |s.slot|
      ensures SlotOk(s'.slot[j], j, s'.at, s'.cur, Pins(s'.lh, s'.phase), s'.ops, s'.lay)
    {
      var v := s.slot[j];
      if v.dirty {
        var k :| 0 <= k < |s.ops| && s.ops[k].tid == v.holder.value;
        assert k != i;
        assert s'.ops[if k < i then k else k - 1] == s.ops[k];
      }
    }
  }

  lemma LogWriteKeeps(s: State, s': State, i: nat, b: nat)
    requires Inv(s) && LogWrite(s, s', i, b)
    ensures Inv(s')
  {
    SlotFacts(s, b);
    var x := s.slot[b].blockno;
    LogWriteOps(s.ops, s.lh, i, x);
    Touch(s, s', b, s'.slot[b], x, s.cur[x], s.disk[x]);
  }

  lemma LogWriteOps(ops: seq<Op>, lh: seq<nat>, i: nat, x: nat)
    requires OpsOk(ops, lh) && i < |ops| && InBudget(ops[i], x)
    ensures var ops' := ops[i := ops[i].(logged := ops[i].logged + {x})];
            && OpsOk(ops', if x in lh then lh else lh + [x])
            && forall t :: Active(ops, t) ==> Active(ops', t)
  {
    var ops' := ops[i := ops[i].(logged := ops[i].logged + {x})];
    assert forall k :: 0 <= k < |ops| ==> ops'[k].tid == ops[k].tid;
    forall u | Active(ops, u) ensures Active(ops', u) {
      var k :| 0 <= k < |ops| && ops[k].tid == u;
      assert ops'[k].tid == u;
    }
    assert x in ops[i].logged ==> ops[i].logged + {x} == ops[i].logged;
    UnusedUpdate(ops, i, ops'[i]);
  }

  // With no operation active only pinned blocks are ahead of the disk.
  lemma Settled(s: State, x: nat)
    requires CacheOk(s.slot, s.at, s.cur, s.disk, Pins(s.lh, s.phase), s.ops, s.lay)
    requires s.ops == [] && x < |s.disk| && x !in Pins(s.lh, s.phase)
    ensures s.cur[x] == s.disk[x]
  {
    assert Index(x);
    if x in s.at {
      assert Index(s.at[x]);
    }
  }

  // Writing a listed block home, or a log slot the header does not list,
  // changes nothing for recovery.
  lemma StableWrite(lay: Layout, d: Image, c: Image, x: nat, v: Block)
    requires Stable(lay, d, c) && x < |d|
    requires var blocks := HeadBlocks(d[lay.start]); x in blocks || lay.start + |blocks| < x < lay.start + lay.size
    ensures d[x := v][lay.start] == d[lay.start] && Stable(lay, d[x := v], c)
  {
  }

  lemma CopiedNext(lay: Layout, d: Image, cur: Image, lh: seq<nat>, i: nat)
    requires lay.Fits(d) && ListOk(lay, d, lh) && |cur| == |d| && i < |lh| && Copied(lay, d, cur, lh, i)
    ensures var x, v := lay.start + 1 + i, cur[lh[i]];
            ListOk(lay, d[x := v], lh) && Copied(lay, d[x := v], cur[x := v], lh, i + 1)
  {
  }

  lemma LogCopyKeeps(s: State, s': State, to: nat, from: nat)
    requires Inv(s) && LogCopy(s, s', to, from)
    ensures Inv(s')
  {
    SlotFacts(s, to);
    SlotFacts(s, from);
    var x := s.lay.start + 1 + s.phase.i;
    Touch(s, s', to, s'.slot[to], x, s'.slot[to].data, s'.slot[to].data);
    StableWrite(s.lay, s.disk, s.committed, x, s'.slot[to].data);
    CopiedNext(s.lay, s.disk, s.cur, s.lh, s.phase.i);
  }

  // The commit point: every listed block is in the log as it last was, so
  // sealing the list makes the current home blocks the durable ones.
  lemma HeadWriteCache(s: State, s': State, b: nat)
    requires Inv(s) && HeadWrite(s, s', b)
    ensures CacheOk(s'.slot, s'.at, s'.cur, s'.disk, Pins(s'.lh, s'.phase), s'.ops, s'.lay)
  {
    SlotFacts(s, b);
    assert Pins(s'.lh, s'.phase) == s.lh[0..] == s.lh;
    Touch(s, s', b, s'.slot[b], s.lay.start, s'.slot[b].data, s'.slot[b].data);
  }

  // After the header write, recovery would give the latest home blocks.
  lemma HeadWriteStable(s: State, s': State, b: nat)
    requires Inv(s) && HeadWrite(s, s', b)
    ensures Stable(s'.lay, s'.disk, s'.committed)
  {
    SlotFacts(s, b);
    assert HeadBlocks(s'.disk[s.lay.start]) == s.lh;
    forall x {:trigger Index(x)} | Index(x) && 0 <= x < |s'.disk| && !s.lay.InLog(x) && x !in s.lh
      ensures s'.disk[x] == s'.committed[x]
    {
      Settled(s, x);
    }
  }

  lemma HeadWriteKeeps(s: State, s': State, b: nat)
    requires Inv(s) && HeadWrite(s, s', b)
    ensures Inv(s')
  {
    HeadWriteCache(s, s', b);
    HeadWriteStable(s, s', b);
    assert HeadBlocks(s'.disk[s.lay.start]) == s.lh;
  }

  // The log block that install_trans reads is the listed block as it last was.
  lemma InstallCopies(s: State, from: nat, to: nat)
    requires Inv(s) && s.phase.Installing? && s.phase.i < |s.lh|
    requires Holding(s, from, s.lay.start + 1 + s.phase.i) && Holding(s, to, s.lh[s.phase.i])
    ensures s.slot[from].data == s.cur[s.lh[s.phase.i]] == s.slot[to].data
  {
    SlotFacts(s, from);
    SlotFacts(s, to);
    assert Index(s.phase.i);
    assert forall j :: s.phase.i <= j < |s.lh| ==> s.lh[j] != s.lay.start + 1 + s.phase.i;
    Settled(s, s.lay.start + 1 + s.phase.i);
  }

  lemma InstallCache(s: State, s': State, from: nat, to: nat)
    requires Inv(s) && Install(s, s', from, to)
    ensures CacheOk(s'.slot, s'.at, s'.cur, s'.disk, Pins(s'.lh, s'.phase), s'.ops, s'.lay)
    ensures s'.cur == s.cur && s'.disk == s.disk[s.lh[s.phase.i] := s.cur[s.lh[s.phase.i]]]
  {
    InstallCopies(s, from, to);
    SlotFacts(s, to);
    var i := s.phase.i;
    var y := s.lh[i];
    assert s'.cur == s.cur;
    assert Pins(s.lh, s.phase) == [y] + Pins(s'.lh, s'.phase);
    assert y !in s.lh[i + 1..];
    Touch(s, s', to, s'.slot[to], y, s.cur[y], s.cur[y]);
  }

  lemma InstallKeeps(s: State, s': State, from: nat, to: nat)
    requires Inv(s) && Install(s, s', from, to)
    ensures Inv(s') && s'.cur == s.cur
  {
    InstallCache(s, s', from, to);
    var y := s.lh[s.phase.i];
    StableWrite(s.lay, s.disk, s.committed, y, s.cur[y]);
  }

  lemma ClearKeeps(s: State, s': State, b: nat)
    requires Inv(s) && Clear(s, s', b)
    ensures Inv(s')
  {
    SlotFacts(s, b);
    assert s.lh[|s.lh|..] == [];
    Touch(s, s', b, s'.slot[b], s.lay.start, s'.slot[b].data, s'.slot[b].data);
    forall x {:trigger Index(x)} | Index(x) && 0 <= x < |s'.disk| && !s.lay.InLog(x)
      ensures s'.disk[x] == s'.committed[x]
    {
      InstalledHome(s, x);
    }
  }

  // When every listed block is installed the disk holds the durable home blocks.
  lemma InstalledHome(s: State, x: nat)
    requires Inv(s) && s.phase == Installing(|s.lh|) && x < |s.disk| && !s.lay.InLog(x)
    ensures s.disk[x] == s.committed[x]
  {
    assert Index(x) && Pins(s.lh, s.phase) == [];
    Settled(s, x);
    if x in s.lh {
      var j :| 0 <= j < |s.lh| && s.lh[j] == x;
      assert Index(j);
    }
  }

  lemma CrashKeeps(s: State, s': State)
    requires Inv(s) && Crash(s, s')
    ensures Inv(s')
  {
  }

  lemma ReadHeadKeeps(s: State, s': State)
    requires Inv(s) && ReadHead(s, s')
    ensures Inv(s')
  {
  }

  // An empty cache agrees with any disk.
  lemma ColdCache(s: State, d: Image)
    requires Inv(s) && Cold(s) && Pins(s.lh, s.phase) == [] && |d| == |s.disk|
    ensures CacheOk(s.slot, s.at, d, d, [], s.ops, s.lay)
  {
  }

  lemma ReplayKeeps(s: State, s': State)
    requires Inv(s) && Replay(s, s')
    ensures Inv(s')
  {
    ReplayStable(s, s');
    ReplayCache(s, s');
    ReplayedNext(s.lay, s.disk, s.lh, s.phase.i);
  }

  lemma ReplayCache(s: State, s': State)
    requires Inv(s) && Replay(s, s')
    ensures CacheOk(s'.slot, s'.at, s'.cur, s'.disk, Pins(s'.lh, s'.phase), s'.ops, s'.lay) && Cold(s')
    ensures OpsOk(s'.ops, s'.lh)
  {
    ColdCache(s, s'.disk);
  }

  lemma ReplayStable(s: State, s': State)
    requires Inv(s) && Replay(s, s')
    ensures Stable(s'.lay, s'.disk, s'.committed) && s'.disk[s.lay.start] == s.disk[s.lay.start]
  {
    StableWrite(s.lay, s.disk, s.committed, s.lh[s.phase.i], s.disk[s.lay.start + 1 + s.phase.i]);
  }

  lemma ReplayedNext(lay: Layout, d: Image, lh: seq<nat>, i: nat)
    requires lay.Fits(d) && ListOk(lay, d, lh) && i < |lh| && Replayed(lay, d, lh, i)
    ensures var d' := d[lh[i] := d[lay.start + 1 + i]]; ListOk(lay, d', lh) && Replayed(lay, d', lh, i + 1)
  {
    assert Index(i);
  }

  // Once every listed block is copied home the disk holds the durable home blocks.
  lemma ReplayedHome(s: State, x: nat)
    requires Inv(s) && s.phase == Replaying(|s.lh|) && x < |s.disk| && !s.lay.InLog(x)
    ensures s.disk[x] == s.committed[x]
  {
    assert Index(x);
    if x in s.lh {
      var j :| 0 <= j < |s.lh| && s.lh[j] == x;
      assert Index(j);
    }
  }

  lemma ReplayClearKeeps(s: State, s': State)
    requires Inv(s) && ReplayClear(s, s')
    ensures Inv(s')
  {
    ColdCache(s, s'.disk);
    forall x {:trigger Index(x)} | Index(x) && 0 <= x < |s'.disk| && !s.lay.InLog(x)
      ensures s'.disk[x] == s'.committed[x]
    {
      ReplayedHome(s, x);
    }
  }

  // -------------------------------------------------------- runs and safety

  datatype Step =
    | SBeginOp(t: Tid) | SEndOp(i: nat)
    | SBgetHit(b: nat) | SBgetMiss(b: nat, x: nat) | SLock(b: nat, t: Tid) | SFill(b: nat)
    | SModify(b: nat, data: Block) | SLogWrite(i: nat, b: nat) | SUnlock(b: nat) | SDrop(b: nat)
    | SLogCopy(b: nat, from: nat) | SHeadWrite(b: nat) | SInstall(from: nat, b: nat) | SClear(b: nat)
    | SCrash | SReadHead | SReplay | SReplayClear

  ghost predicate Next(s: State, s': State, st: Step) {
    match st
    case SBeginOp(t) => BeginOp(s, s', t)
    case SEndOp(i) => EndOp(s, s', i)
    case SBgetHit(b) => BgetHit(s, s', b)
    case SBgetMiss(b, x) => BgetMiss(s, s', b, x)
    case SLock(b, t) => Lock(s, s', b, t)
    case SFill(b) => Fill(s, s', b)
    case SModify(b, data) => Modify(s, s', b, data)
    case SLogWrite(i, b) => LogWrite(s, s', i, b)
    case SUnlock(b) => Unlock(s, s', b)
    case SDrop(b) => Drop(s, s', b)
    case SLogCopy(to, from) => LogCopy(s, s', to, from)
    case SHeadWrite(b) => HeadWrite(s, s', b)
    case SInstall(from, to) => Install(s, s', from, to)
    case SClear(b) => Clear(s, s', b)
    case SCrash => Crash(s, s')
    case SReadHead => ReadHead(s, s')
    case SReplay => Replay(s, s')
    case SReplayClear => ReplayClear(s, s')
  }

  // A machine about to boot from a disk whose log is empty.
  ghost predicate Init(s: State) {
    && Clean(s.lay, s.disk) && s.cur == s.disk == s.committed
    && s.slot == FreeSlots() && s.at == map[] && s.lh == [] && s.ops == [] && s.phase == Booting
  }

  lemma StepKeeps(s: State, s': State, st: Step)
    requires Inv(s) && Next(s, s', st)
    ensures Inv(s')
  {
    match st
    case SBeginOp(t) => BeginOpKeeps(s, s', t);
    case SEndOp(i) => EndOpKeeps(s, s', i);
    case SBgetHit(b) => BgetHitKeeps(s, s', b);
    case SBgetMiss(b, x) => BgetMissKeeps(s, s', b, x);
    case SLock(b, t) => LockKeeps(s, s', b, t);
    case SFill(b) => FillKeeps(s, s', b);
    case SModify(b, data) => ModifyKeeps(s, s', b, data);
    case SLogWrite(i, b) => LogWriteKeeps(s, s', i, b);
    case SUnlock(b) => UnlockKeeps(s, s', b);
    case SDrop(b) => DropKeeps(s, s', b);
    case SLogCopy(to, from) => LogCopyKeeps(s, s', to, from);
    case SHeadWrite(b) => HeadWriteKeeps(s, s', b);
    case SInstall(from, to) => InstallKeeps(s, s', from, to);
    case SClear(b) => ClearKeeps(s, s', b);
    case SCrash => CrashKeeps(s, s');
    case SReadHead => ReadHeadKeeps(s, s');
    case SReplay => ReplayKeeps(s, s');
    case SReplayClear => ReplayClearKeeps(s, s');
  }

  // A run: states joined by steps.
  ghost predicate Run(states: seq<State>, steps: seq<Step>) {
    && |states| == |steps| + 1 && Init(states[0])
    && forall k :: 0 <= k < |steps| ==> Next(states[k], states[k + 1], steps[k])
  }

  lemma {:induction false} RunInv(states: seq<State>, steps: seq<Step>, k: nat)
    requires Run(states, steps) && k < |states|
    ensures Inv(states[k])
  {
    if k > 0 {
      RunInv(states, steps, k - 1);
      StepKeeps(states[k - 1], states[k], steps[k - 1]);
    }
  }

  /**
    Durability over all interleavings and crashes: in every state of every run,
    recovery, interrupted any number of times, ends with exactly the home
    blocks of the last header write.
   */
  lemma Durability(states: seq<State>, steps: seq<Step>, k: nat, ks: seq<nat>)
    requires Run(states, steps) && k < |states|
    ensures var s := states[k];
            && Crashes(s.lay, s.disk, ks).Some? && Recoverable(s.lay, Crashes(s.lay, s.disk, ks).value)
            && var e := Recover(s.lay, Crashes(s.lay, s.disk, ks).value);
            && |e| == |s.committed|
            && forall x :: 0 <= x < |e| && !s.lay.InLog(x) ==> e[x] == s.committed[x]
  {
    RunInv(states, steps, k);
    StableRecovers(states[k].lay, states[k].disk, states[k].committed, ks);
  }

  lemma StableRecovers(lay: Layout, d: Image, c: Image, ks: seq<nat>)
    requires Stable(lay, d, c)
    ensures Crashes(lay, d, ks).Some? && Recoverable(lay, Crashes(lay, d, ks).value)
    ensures var e := Recover(lay, Crashes(lay, d, ks).value);
            |e| == |c| && forall x :: 0 <= x < |e| && !lay.InLog(x) ==> e[x] == c[x]
  {
    StableSealed(lay, d, c);
    var blocks := HeadBlocks(d[lay.start]);
    var vals := Slots(lay, d, |blocks|);
    DurableRecovers(lay, d, c, blocks, vals, ks);
    HomeOf(lay, Recover(lay, Crashes(lay, d, ks).value), d, c);
  }

  lemma StableSealed(lay: Layout, d: Image, c: Image)
    requires Stable(lay, d, c)
    ensures var blocks := HeadBlocks(d[lay.start]);
            Sealed(lay, d, c, blocks, Slots(lay, d, |blocks|))
  {
    var blocks := HeadBlocks(d[lay.start]);
    forall b | 0 <= b < |d| && !lay.InLog(b) && b !in blocks ensures d[b] == c[b] {
      assert Index(b);
    }
  }

  lemma HomeOf(lay: Layout, e: Image, d: Image, c: Image)
    requires Stable(lay, d, c)
    requires var blocks := HeadBlocks(d[lay.start]); HomeIs(lay, e, c, blocks, Slots(lay, d, |blocks|))
    ensures forall x :: 0 <= x < |e| && !lay.InLog(x) ==> e[x] == c[x]
  {
    var blocks := HeadBlocks(d[lay.start]);
    forall x | 0 <= x < |e| && !lay.InLog(x) ensures e[x] == c[x] {
      if x in blocks {
        var j :| 0 <= j < |blocks| && blocks[j] == x;
        assert Index(j) && Slots(lay, d, |blocks|)[j] == d[lay.start + 1 + j];
      }
    }
  }

  /**
    Atomicity: the durable home blocks change only when the commit writes its
    header, at a moment when no operation is active, and then to the current
    contents of every block. So they hold all of an operation or none of it.
   */
  lemma Atomicity(states: seq<State>, steps: seq<Step>, k: nat)
    requires Run(states, steps) && k < |steps|
    ensures states[k + 1].committed != states[k].committed ==>
              && steps[k].SHeadWrite? && states[k].ops == []
              && |states[k + 1].committed| == |states[k].cur|
              && forall x :: 0 <= x < |states[k].cur| && !states[k].lay.InLog(x) ==>
                   states[k + 1].committed[x] == states[k].cur[x]
  {
    RunInv(states, steps, k);
    assert Next(states[k], states[k + 1], steps[k]);
  }

  /**
    Cache and disk agree: in every state of every run no block is cached
    twice, and a valid buffer whose block is neither listed in the log nor
    being modified by its holder equals its disk block.
   */
  lemma Coherence(states: seq<State>, steps: seq<Step>, k: nat, b: nat, b': nat)
    requires Run(states, steps) && k < |states| && b < NBUF && b' < NBUF
    ensures var s := states[k];
            && |s.slot| == NBUF
            && (b != b' && s.slot[b].dev != 0 && s.slot[b'].dev != 0 ==> s.slot[b].blockno != s.slot[b'].blockno)
            && (s.slot[b].valid ==> s.slot[b].blockno < |s.disk|)
            && (s.slot[b].valid && s.slot[b].blockno !in s.lh && !s.slot[b].dirty ==>
                  s.slot[b].data == s.disk[s.slot[b].blockno])
  {
    RunInv(states, steps, k);
    var s := states[k];
    SlotFacts(s, b);
    SlotFacts(s, b');
    assert forall x :: x in Pins(s.lh, s.phase) ==> x in s.lh;
  }

  /**
    Admission: in every state of every run a commit is running only with no
    operation active, the listed blocks are distinct, and the listed blocks
    plus the unused budgets fit in LOGSIZE. A write by an operation within its
    budget is refused as too big exactly when the on-disk log is full or, for a
    block that is listed already, the list has LOGSIZE blocks. So with a log of
    at least LOGSIZE + 1 blocks a block not yet listed is never refused.
   */
  lemma Admission(states: seq<State>, steps: seq<Step>, k: nat)
    requires Run(states, steps) && k < |states|
    ensures var s := states[k];
            && (s.phase != Idle ==> s.ops == [])
            && Distinct(s.lh) && |s.lh| + Unused(s.ops) <= LOGSIZE
            && (forall i, x {:trigger InBudget(s.ops[i], x)} :: 0 <= i < |s.ops| && InBudget(s.ops[i], x) ==>
                  && (TooBig(s) <==> |s.lh| + 1 == s.lay.size || (x in s.lh && |s.lh| == LOGSIZE))
                  && (s.lay.size >= LOGSIZE + 1 && x !in s.lh ==> !TooBig(s)))
  {
    RunInv(states, steps, k);
    var s := states[k];
    forall i, x {:trigger InBudget(s.ops[i], x)} | 0 <= i < |s.ops| && InBudget(s.ops[i], x)
      ensures TooBig(s) <==> |s.lh| + 1 == s.lay.size || (x in s.lh && |s.lh| == LOGSIZE)
      ensures s.lay.size >= LOGSIZE + 1 && x !in s.lh ==> !TooBig(s)
    {
      Refused(s, i, x);
    }
  }

  lemma Refused(s: State, i: nat, x: nat)
    requires Inv(s) && i < |s.ops| && InBudget(s.ops[i], x)
    ensures TooBig(s) <==> |s.lh| + 1 == s.lay.size || (x in s.lh && |s.lh| == LOGSIZE)
    ensures s.lay.size >= LOGSIZE + 1 && x !in s.lh ==> !TooBig(s)
  {
    UnusedNonneg(s.ops);
    if x !in s.lh {
      UnusedWithout(s.ops, i);
      UnusedNonneg(s.ops[..i] + s.ops[i + 1..]);
    }
  }

  lemma {:induction false} UnusedNonneg(ops: seq<Op>)
    requires forall i :: 0 <= i < |ops| ==> |ops[i].logged| <= MAXOPBLOCKS
    ensures Unused(ops) >= 0
  {
    if ops != [] {
      UnusedNonneg(ops[..|ops| - 1]);
    }
  }
}
