/**
  Runs of the storage stack that show where its capacity ends (kernel/log.c,
  kernel/bio.c): the log that mkfs makes can be full for an operation within
  its reservation, and a full list leaves the commit without a buffer.
 */
module LogRuns {
  import opened Params
  import opened RedoLog
  import opened StorageMachine

  // Some run reaches s.
  ghost predicate Reached(s: State) {
    exists states, steps :: Run(states, steps) && states[|steps|] == s
  }

  lemma ReachNext(s: State, s': State, st: Step)
    requires Reached(s) && Next(s, s', st)
    ensures Reached(s')
  {
    var states, steps :| Run(states, steps) && states[|steps|] == s;
    var more, done := states + [s'], steps + [st];
    forall k | 0 <= k < |done| ensures Next(more[k], more[k + 1], done[k]) {
      if k < |steps| { assert Next(states[k], states[k + 1], steps[k]); }
    }
    assert Run(more, done) && more[|done|] == s';
  }

  // ------------------------------------------------------- filling the list

  // What operation i has logged of the first j blocks, ten for each.
  function Share(i: nat, j: nat): nat { if j <= 10 * i then 0 else if j >= 10 * i + 10 then 10 else j - 10 * i }

  // Three operations are active and have logged the first j blocks of xs; each
  // is in the buffer of its number, pinned, and the other buffers are free.
  ghost predicate Filled(s: State, lay: Layout, xs: seq<nat>, j: nat) {
    && s.lay == lay && s.phase == Idle && |s.cur| == |s.disk| && j <= |xs| && s.lh == xs[..j]
    && Homes(lay, |s.disk|, xs) && SlotsFilled(s.slot, xs, j) && OpsFilled(s.ops, xs, j)
  }

  // Distinct home blocks, no more than there are buffers.
  ghost predicate Homes(lay: Layout, size: nat, xs: seq<nat>) {
    Distinct(xs) && |xs| <= NBUF && forall k :: 0 <= k < |xs| ==> xs[k] < size && !lay.InLog(xs[k])
  }

  ghost predicate SlotsFilled(slot: seq<Slot>, xs: seq<nat>, j: nat)
    requires j <= |xs|
  {
    && |slot| == NBUF && |xs| <= NBUF
    && forall b :: 0 <= b < NBUF ==>
         && slot[b].holder == None
         && if b < j then slot[b].dev == ROOTDEV && slot[b].blockno == xs[b] && slot[b].refcnt == 1
            else slot[b].dev == 0 && slot[b].refcnt == 0
  }

  ghost predicate OpsFilled(ops: seq<Op>, xs: seq<nat>, j: nat)
    requires j <= |xs|
  {
    && |ops| == 3
    && forall i :: 0 <= i < 3 ==> ops[i].tid == i + 1 && |ops[i].logged| == Share(i, j) && ops[i].logged <= Among(xs, j)
  }

  function Among(xs: seq<nat>, j: nat): set<nat>
    requires j <= |xs|
  {
    set x | x in xs[..j]
  }

  // Boot, and recover an empty log.
  lemma Booted(lay: Layout, d: Image) returns (s: State)
    requires Clean(lay, d)
    ensures Reached(s) && s.lay == lay && s.phase == Idle && |s.cur| == |s.disk| == |d| && s.slot == FreeSlots()
    ensures s.lh == [] && s.ops == []
  {
    var s0 := State(lay, d, FreeSlots(), [], [], Booting, map[], d, d);
    var none: seq<Step> := [];
    assert Run([s0], none) && [s0][|none|] == s0;
    var s1 := s0.(phase := Replaying(0));
    assert HeadBlocks(d[lay.start]) == [];
    assert ReadHead(s0, s1);
    ReachNext(s0, s1, SReadHead);
    var e := Put(d, Write(lay.start, WithHead(d[lay.start], [])));
    s := s1.(disk := e, cur := e, phase := Idle);
    assert ReplayClear(s1, s);
    ReachNext(s1, s, SReplayClear);
  }

  // Three operations begin.
  lemma Begun(lay: Layout, d: Image, xs: seq<nat>) returns (s: State)
    requires Clean(lay, d) && Homes(lay, |d|, xs)
    ensures Reached(s) && Filled(s, lay, xs, 0)
  {
    var s0 := Booted(lay, d);
    s := Begin(s0, 1);
    s := Begin(s, 2);
    s := Begin(s, 3);
    assert s == s0.(ops := [Op(1, {}), Op(2, {}), Op(3, {})]);
  }

  lemma Begin(s: State, t: Tid) returns (s': State)
    requires Reached(s) && s.phase == Idle && |s.lh| == 0 && t == |s.ops| + 1 <= 3
    requires forall i :: 0 <= i < |s.ops| ==> s.ops[i].tid == i + 1
    ensures Reached(s') && s' == s.(ops := s.ops + [Op(t, {})])
  {
    s' := s.(ops := s.ops + [Op(t, {})]);
    assert !Active(s.ops, t);
    ReachNext(s, s', SBeginOp(t));
  }

  // The buffer of the next block: looked up, locked and filled by operation i.
  lemma Read(s: State, lay: Layout, xs: seq<nat>, j: nat, t: Tid) returns (s': State, data: Block)
    requires Reached(s) && Filled(s, lay, xs, j) && j < |xs|
    ensures Reached(s') && |s'.slot| == NBUF && s'.slot == s.slot[j := s'.slot[j]]
    ensures s'.(slot := s.slot, at := s.at) == s
    ensures s'.slot[j] == Slot(ROOTDEV, xs[j], true, data, 1, Some(t), 0, 0, false)
  {
    var x := xs[j];
    var s1 := Set(s, j, Slot(ROOTDEV, x, false, s.slot[j].data, 1, None, 1, 0, false), x);
    forall i | 0 <= i < |s.slot| ensures !(s.slot[i].dev == ROOTDEV && s.slot[i].blockno == x) {
      assert i < j ==> xs[i] != xs[j];
    }
    assert BgetMiss(s, s1, j, x);
    ReachNext(s, s1, SBgetMiss(j, x));
    var s2 := Set(s1, j, s1.slot[j].(holder := Some(t), waiting := 0), x);
    assert Lock(s1, s2, j, t);
    ReachNext(s1, s2, SLock(j, t));
    data := s.disk[x];
    s' := Set(s2, j, s2.slot[j].(valid := true, data := data), x);
    assert Fill(s2, s', j);
    ReachNext(s2, s', SFill(j));
    assert s'.slot == s.slot[j := s'.slot[j]];
  }

  // log_write of the buffer that operation i holds.
  lemma LogIt(s: State, i: nat, j: nat, x: nat, data: Block) returns (s': State)
    requires Reached(s) && s.phase == Idle && i < |s.ops| && j < |s.slot| && !s.lay.InLog(x) && x !in s.lh
    requires s.slot[j] == Slot(ROOTDEV, x, true, data, 1, Some(s.ops[i].tid), 0, 0, false)
    requires |s.ops[i].logged| < MAXOPBLOCKS && !TooBig(s)
    ensures Reached(s') && |s'.slot| == |s.slot|
    ensures s'.slot == s.slot[j := Slot(ROOTDEV, x, true, data, 2, Some(s.ops[i].tid), 0, 0, false)]
    ensures s'.lh == s.lh + [x] && s'.ops == s.ops[i := s.ops[i].(logged := s.ops[i].logged + {x})]
    ensures s'.(slot := s.slot, at := s.at, lh := s.lh, ops := s.ops) == s
  {
    var v := s.slot[j].(refcnt := 2);
    s' := Set(s, j, v, x).(ops := s.ops[i := s.ops[i].(logged := s.ops[i].logged + {x})], lh := s.lh + [x]);
    assert LogWrite(s, s', i, j);
    ReachNext(s, s', SLogWrite(i, j));
  }

  // brelse of a pinned buffer.
  lemma LetGo(s: State, j: nat, x: nat, data: Block, t: Tid) returns (s': State)
    requires Reached(s) && s.phase == Idle && j < |s.slot|
    requires s.slot[j] == Slot(ROOTDEV, x, true, data, 2, Some(t), 0, 0, false)
    ensures Reached(s') && s'.slot == s.slot[j := Slot(ROOTDEV, x, true, data, 1, None, 0, 0, false)]
    ensures s'.(slot := s.slot, at := s.at) == s
  {
    var s1 := Set(s, j, Slot(ROOTDEV, x, true, data, 2, None, 0, 1, false), x);
    assert Unlock(s, s1, j);
    ReachNext(s, s1, SUnlock(j));
    s' := Set(s1, j, Slot(ROOTDEV, x, true, data, 1, None, 0, 0, false), x);
    assert Drop(s1, s', j);
    ReachNext(s1, s', SDrop(j));
    assert s1.slot[j := s'.slot[j]] == s.slot[j := s'.slot[j]];
  }

  lemma Overwritten(slot: seq<Slot>, j: nat, v: Slot, w: Slot)
    requires j < |slot|
    ensures slot[j := v][j := w] == slot[j := w]
  {
  }

  // The next block is logged and let go.
  lemma LogNext(s: State, lay: Layout, xs: seq<nat>, j: nat) returns (s': State)
    requires Reached(s) && Filled(s, lay, xs, j) && j < |xs| && j < lay.size - 1
    ensures Reached(s') && Filled(s', lay, xs, j + 1)
  {
    var i := j / 10;
    var r, data := Read(s, lay, xs, j, i + 1);
    var s1 := LogIt(r, i, j, xs[j], data);
    s' := LetGo(s1, j, xs[j], data, i + 1);
    Overwritten(s.slot, j, r.slot[j], s1.slot[j]);
    Overwritten(s.slot, j, s1.slot[j], s'.slot[j]);
    FilledNext(s, s', lay, xs, j, data);
  }

  lemma FilledNext(s: State, s': State, lay: Layout, xs: seq<nat>, j: nat, data: Block)
    requires Filled(s, lay, xs, j) && j < |xs|
    requires s'.slot == s.slot[j := Slot(ROOTDEV, xs[j], true, data, 1, None, 0, 0, false)]
    requires s'.lh == s.lh + [xs[j]]
    requires s'.ops == s.ops[j / 10 := s.ops[j / 10].(logged := s.ops[j / 10].logged + {xs[j]})]
    requires s'.lay == lay && s'.phase == Idle && s'.cur == s.cur && s'.disk == s.disk
    ensures Filled(s', lay, xs, j + 1)
  {
    OpsFilledNext(s.ops, s'.ops, xs, j);
    assert xs[..j + 1] == xs[..j] + [xs[j]];
  }

  lemma OpsFilledNext(ops: seq<Op>, ops': seq<Op>, xs: seq<nat>, j: nat)
    requires j < |xs| <= NBUF && Distinct(xs) && OpsFilled(ops, xs, j)
    requires ops' == ops[j / 10 := ops[j / 10].(logged := ops[j / 10].logged + {xs[j]})]
    ensures OpsFilled(ops', xs, j + 1)
  {
    assert xs[..j + 1] == xs[..j] + [xs[j]];
    assert xs[j] !in xs[..j];
  }

  lemma {:induction false} FillTo(lay: Layout, d: Image, xs: seq<nat>, n: nat) returns (s: State)
    requires Clean(lay, d) && Homes(lay, |d|, xs) && n <= |xs| && n < lay.size
    ensures Reached(s) && Filled(s, lay, xs, n)
    decreases n
  {
    if n == 0 {
      s := Begun(lay, d, xs);
    } else {
      s := FillTo(lay, d, xs, n - 1);
      s := LogNext(s, lay, xs, n - 1);
    }
  }

  /**
    With the log that mkfs makes the capacity check can hit an operation within
    its reservation: for any clean disk and any LOGSIZE home blocks some run
    lists all of them but one and then refuses the last.
   */
  lemma FullLogReached(lay: Layout, d: Image, xs: seq<nat>) returns (s: State)
    requires Clean(lay, d) && lay.size == LOGSIZE && Homes(lay, |d|, xs) && |xs| == LOGSIZE
    ensures Reached(s) && s.lay == lay && |s.lh| == LOGSIZE - 1 && |s.ops| == 3 && xs[LOGSIZE - 1] !in s.lh
    ensures InBudget(s.ops[2], xs[LOGSIZE - 1]) && TooBig(s)
  {
    s := FillTo(lay, d, xs, LOGSIZE - 1);
  }

  /**
    A larger log does not help a block that is listed already: log_write tests
    the capacity before it looks the block up. Some run lists LOGSIZE blocks and
    then refuses a second write of one of them by the operation that logged it.
   */
  lemma ListedRefused(lay: Layout, d: Image, xs: seq<nat>) returns (s: State, x: nat)
    requires Clean(lay, d) && lay.size >= LOGSIZE + 1 && Homes(lay, |d|, xs) && |xs| == LOGSIZE
    ensures Reached(s) && s.lay == lay && |s.lh| == LOGSIZE && |s.ops| == 3
    ensures x in s.lh && x in s.ops[0].logged && InBudget(s.ops[0], x) && TooBig(s)
  {
    s := FillTo(lay, d, xs, LOGSIZE);
    assert |s.ops[0].logged| == Share(0, LOGSIZE) == 10;
    assert s.ops[0].logged != {};
    x :| x in s.ops[0].logged;
  }

  // ---------------------------------------------- the buffers of the commit

  // Buffers that threads other than the log refer to.
  ghost function Borrowed(s: State): set<nat> {
    set b: nat | b < |s.slot| && s.slot[b].refcnt > 0 &&
                 !(s.slot[b].dev == ROOTDEV && s.slot[b].blockno in Pins(s.lh, s.phase))
  }

  ghost function Pinned(s: State): set<nat> {
    set b: nat | b < |s.slot| && s.slot[b].dev == ROOTDEV && s.slot[b].blockno in Pins(s.lh, s.phase)
  }

  // Each pinned block has a buffer of its own.
  lemma {:induction false} OneEach(at: map<nat, nat>, pins: seq<nat>)
    requires Distinct(pins) && (forall x :: x in pins ==> x in at)
    requires forall x, y :: x in pins && y in pins && x != y ==> at[x] != at[y]
    ensures |set x | x in pins :: at[x]| == |pins|
  {
    if pins != [] {
      var n := |pins| - 1;
      var x := pins[n];
      assert pins == pins[..n] + [x] && x !in pins[..n];
      OneEach(at, pins[..n]);
      assert (set y | y in pins :: at[y]) == (set y | y in pins[..n] :: at[y]) + {at[x]};
    }
  }

  lemma PinnedCount(s: State)
    requires Inv(s)
    ensures |Pinned(s)| == |Pins(s.lh, s.phase)| && forall b :: b in Pinned(s) ==> s.slot[b].refcnt > 0
  {
    var pins := Pins(s.lh, s.phase);
    forall x | x in pins
      ensures x in s.at && s.at[x] < |s.slot| && s.slot[s.at[x]].dev == ROOTDEV && s.slot[s.at[x]].blockno == x
    {
      assert Index(x);
    }
    assert Distinct(pins);
    OneEach(s.at, pins);
    forall b: nat | b < |s.slot| ensures b in Pinned(s) <==> exists x :: x in pins && s.at[x] == b {
      assert Index(b);
    }
    assert Pinned(s) == set x | x in pins :: s.at[x];
    forall b | b in Pinned(s) ensures s.slot[b].refcnt > 0 { assert Index(b); }
  }

  lemma Below(n: nat, A: set<nat>)
    requires forall b :: b in A ==> b < n
    ensures |A| <= n && (|A| == n <==> forall b :: 0 <= b < n ==> b in A)
    decreases n
  {
    if n > 0 {
      var B := A - {n - 1};
      Below(n - 1, B);
      if n - 1 in A { assert A == B + {n - 1}; } else { assert A == B; }
    } else {
      assert A == {};
    }
  }

  /**
    When bget can recycle a buffer for a block that is not cached: exactly when
    the pins of the log and the buffers others refer to leave one over.
   */
  lemma FindsBuffer(s: State, x: nat)
    requires Inv(s) && Running(s) && x < |s.disk| && x !in s.at
    ensures (exists b, s' :: BgetMiss(s, s', b, x)) <==> |Pins(s.lh, s.phase)| + |Borrowed(s)| < NBUF
  {
    PinnedCount(s);
    var used := Pinned(s) + Borrowed(s);
    assert |used| == |Pinned(s)| + |Borrowed(s)|;
    Below(NBUF, used);
    forall i: nat | i < |s.slot| ensures !(s.slot[i].dev == ROOTDEV && s.slot[i].blockno == x) { assert Index(i); }
    if b: nat :| b < NBUF && b !in used {
      var s' := Set(s, b, Slot(ROOTDEV, x, false, s.slot[b].data, 1, None, 1, 0, false), x);
      assert BgetMiss(s, s', b, x);
    }
  }

  /**
    So a commit that shares the cache with nobody finds the buffers for its
    log blocks exactly when its list is shorter than NBUF.
   */
  lemma CommitFindsBuffers(s: State, x: nat)
    requires Inv(s) && s.phase.Logging? && x < |s.disk| && x !in s.at && Borrowed(s) == {}
    ensures (exists b, s' :: BgetMiss(s, s', b, x)) <==> |s.lh| < NBUF
  {
    FindsBuffer(s, x);
  }

  // Operation i of those left ends.
  lemma EndFirst(s: State) returns (s': State)
    requires Reached(s) && s.phase == Idle && s.ops != [] && s.lh != []
    requires forall b :: 0 <= b < |s.slot| ==> s.slot[b].holder == None
    ensures Reached(s') && s' == s.(ops := s.ops[1..], phase := if |s.ops| == 1 then Logging(0) else Idle)
  {
    s' := s.(ops := s.ops[1..], phase := if |s.ops| == 1 then Logging(0) else Idle);
    assert s.ops[..0] + s.ops[1..] == s.ops[1..];
    assert EndOp(s, s', 0);
    ReachNext(s, s', SEndOp(0));
  }

  /**
    A larger log lets three operations list LOGSIZE blocks, and as NBUF is
    LOGSIZE the commit then finds no buffer for its first log block.
   */
  lemma FullCacheReached(lay: Layout, d: Image, xs: seq<nat>) returns (s: State)
    requires Clean(lay, d) && lay.size >= LOGSIZE + 1 && Homes(lay, |d|, xs) && |xs| == LOGSIZE
    ensures Reached(s) && s.lay == lay && s.phase == Logging(0) && s.lh == xs
    ensures forall b, x, s' :: !BgetMiss(s, s', b, x)
  {
    s := FillTo(lay, d, xs, LOGSIZE);
    assert xs[..LOGSIZE] == xs;
    s := EndFirst(s);
    s := EndFirst(s);
    s := EndFirst(s);
  }
}
