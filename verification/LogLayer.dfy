/**
  The logging layer (kernel/log.c) on top of the buffer cache, as the one
  thread that commits or recovers sees it. Other threads may hold and refer to
  any buffers; a method that has to wait for one of them, or that panics, stops
  there, with ok false.
  Each method is tied to the block writes it issues, in order, so the crash
  theorem of module RedoLog applies to every point of its execution.
 */
module LogLayer {
  import opened Params
  import opened RedoLog
  import opened BufferCache

  // The references and locks of other threads.
  datatype Others = Others(refs: seq<nat>, held: set<nat>)

  // Each block in S has one reference more than others have to it, its pin.
  ghost predicate Quiet(o: Others, refs: seq<nat>, held: set<nat>, S: seq<nat>) {
    && held == o.held && |refs| == |o.refs|
    && forall x {:trigger Index(x)} :: Index(x) && 0 <= x < |refs| ==> refs[x] == o.refs[x] + if x in S then 1 else 0
  }

  // Nothing keeps the thread from finishing: the others hold no block of the
  // log and none of S, and k buffers are unreferenced.
  ghost predicate Unhindered(o: Others, lay: Layout, S: seq<nat>, refs: seq<nat>, k: nat) {
    (forall x {:trigger x in o.held} :: x in o.held ==> !lay.InLog(x) && x !in S) && Room(refs, k)
  }

  // It stays so while pins are only dropped.
  lemma StillUnhindered(o: Others, lay: Layout, S: seq<nat>, refs: seq<nat>, refs': seq<nat>, T: seq<nat>, T': seq<nat>,
                        k: nat)
    requires Unhindered(o, lay, S, refs, k) && (forall x :: x in T' ==> x in T)
    requires Quiet(o, refs, o.held, T) && Quiet(o, refs', o.held, T')
    ensures Unhindered(o, lay, S, refs', k)
  {
    forall x | x in Used(refs') ensures x in Used(refs) {
      assert Index(x);
    }
    RoomFewer(refs, refs', k);
  }

  // Dropping the pin of the first of the remaining blocks.
  lemma QuietNext(o: Others, refs: seq<nat>, S: seq<nat>, tail: nat)
    requires Distinct(S) && tail < |S| && S[tail] < |refs| && Quiet(o, refs, o.held, S[tail..])
    ensures refs[S[tail]] > 0 && Quiet(o, refs[S[tail] := refs[S[tail]] - 1], o.held, S[tail + 1..])
  {
    assert Index(S[tail]) && S[tail] in S[tail..];
    assert S[tail..] == [S[tail]] + S[tail + 1..];
  }

  // Outside S the disk holds the latest contents of every block.
  ghost predicate Settled(cur: Image, disk: Image, S: seq<nat>) {
    |cur| == |disk| && forall x {:trigger Index(x)} :: Index(x) && 0 <= x < |disk| && x !in S ==> cur[x] == disk[x]
  }

  ghost function Latest(cur: Image, blocks: seq<nat>): (r: seq<Block>)
    requires forall i :: 0 <= i < |blocks| ==> blocks[i] < |cur|
  {
    seq(|blocks|, i requires 0 <= i < |blocks| => cur[blocks[i]])
  }

  // Neither loop overwrites what it has yet to read.
  lemma LogReads(lay: Layout, cur: Image, S: seq<nat>, tail: nat)
    requires lay.Fits(cur) && ListOk(lay, cur, S) && tail < |S|
    ensures var ws := LogWrites(lay, Latest(cur, S));
            && ws[tail] == Write(lay.start + 1 + tail, cur[S[tail]])
            && Apply(cur, ws[..tail])[S[tail]] == cur[S[tail]]
  {
    ApplyElsewhere(cur, LogWrites(lay, Latest(cur, S))[..tail], S[tail]);
  }

  lemma InstallReads(lay: Layout, cur: Image, d: Image, S: seq<nat>, tail: nat)
    requires lay.Fits(d) && |cur| == |d| && ListOk(lay, cur, S) && tail < |S|
    ensures var ws, x := InstallWrites(S, Slots(lay, cur, |S|)), lay.start + 1 + tail;
            && x < |d|
            && ws[tail] == Write(S[tail], cur[x])
            && Apply(d, ws[..tail])[x] == d[x]
  {
    var ws, x := InstallWrites(S, Slots(lay, cur, |S|)), lay.start + 1 + tail;
    assert lay.InLog(x);
    forall i | 0 <= i < tail ensures ws[..tail][i].bno != x { assert ws[i].bno == S[i]; }
    ApplyElsewhere(d, ws[..tail], x);
  }

  // Disk image, latest contents and trace of block writes at one moment.
  datatype Moment = Moment(trace: seq<Write>, disk: Image, cur: Image)

  // A prefix of ws has been issued, through the cache, since m0.
  ghost predicate Issued(m0: Moment, m: Moment, ws: seq<Write>) {
    && |m0.trace| <= |m.trace| <= |m0.trace| + |ws|
    && var done := ws[..|m.trace| - |m0.trace|];
    && m.trace == m0.trace + done
    && m.disk == Apply(m0.disk, done)
    && m.cur == Apply(m0.cur, done)
  }

  ghost predicate IssuedAll(m0: Moment, m: Moment, ws: seq<Write>) {
    Issued(m0, m, ws) && |m.trace| == |m0.trace| + |ws|
  }

  lemma IssuedNone(m: Moment, ws: seq<Write>)
    ensures Issued(m, m, ws)
  {
    assert ws[..0] == [];
  }

  // One more write of the list.
  lemma IssuedNext(m0: Moment, m: Moment, ws: seq<Write>, w: Write)
    requires Issued(m0, m, ws) && |m.trace| < |m0.trace| + |ws| && w == ws[|m.trace| - |m0.trace|]
    ensures Issued(m0, Moment(m.trace + [w], Put(m.disk, w), Put(m.cur, w)), ws)
  {
    var k := |m.trace| - |m0.trace|;
    assert ws[..k + 1] == ws[..k] + [w];
    assert ws[..k + 1][..k] == ws[..k];
  }

  // All of ws, then a prefix of vs.
  lemma IssuedThen(m0: Moment, m1: Moment, m: Moment, ws: seq<Write>, vs: seq<Write>)
    requires IssuedAll(m0, m1, ws) && Issued(m1, m, vs)
    ensures Issued(m0, m, ws + vs)
  {
    var k := |m.trace| - |m1.trace|;
    assert ws[..|ws|] == ws;
    assert (ws + vs)[..|m.trace| - |m0.trace|] == ws + vs[..k];
    ApplyConcat(m0.disk, ws, vs[..k]);
    ApplyConcat(m0.cur, ws, vs[..k]);
  }

  lemma IssuedPart(m0: Moment, m: Moment, ws: seq<Write>, vs: seq<Write>)
    requires Issued(m0, m, ws)
    ensures Issued(m0, m, ws + vs)
  {
    assert (ws + vs)[..|m.trace| - |m0.trace|] == ws[..|m.trace| - |m0.trace|];
  }

  ghost function After(m: Moment, w: Write): Moment {
    Moment(m.trace + [w], Put(m.disk, w), Put(m.cur, w))
  }

  // write_log, begun at m0, has copied the first tail blocks of S.
  ghost predicate Logging(o: Others, lay: Layout, S: seq<nat>, m0: Moment, m: Moment, refs: seq<nat>, held: set<nat>,
                          tail: nat) {
    && lay.Fits(m0.cur) && ListOk(lay, m0.cur, S) && tail <= |S| && |refs| == |m0.cur|
    && Quiet(o, refs, held, S)
    && Issued(m0, m, LogWrites(lay, Latest(m0.cur, S))) && |m.trace| == |m0.trace| + tail
  }

  lemma LoggingNext(o: Others, lay: Layout, S: seq<nat>, m0: Moment, m: Moment, refs: seq<nat>, tail: nat)
    requires Logging(o, lay, S, m0, m, refs, o.held, tail) && tail < |S|
    ensures S[tail] < |m.cur| && refs[S[tail]] > 0
    ensures Logging(o, lay, S, m0, After(m, Write(lay.start + 1 + tail, m.cur[S[tail]])), refs, o.held, tail + 1)
  {
    assert Index(S[tail]);
    LogReads(lay, m0.cur, S, tail);
    var ws := LogWrites(lay, Latest(m0.cur, S));
    IssuedNext(m0, m, ws, ws[tail]);
  }

  // install_trans, begun at m0, has installed the first tail blocks of S.
  ghost predicate Installing(recovering: bool, o: Others, lay: Layout, S: seq<nat>, m0: Moment, m: Moment,
                             refs: seq<nat>, held: set<nat>, tail: nat) {
    && lay.Fits(m0.cur) && ListOk(lay, m0.cur, S) && tail <= |S| && |refs| == |m0.cur|
    && Settled(m0.cur, m0.disk, S)
    && Quiet(o, refs, held, if recovering then [] else S[tail..])
    && Issued(m0, m, InstallWrites(S, Slots(lay, m0.cur, |S|))) && |m.trace| == |m0.trace| + tail
  }

  lemma InstallingNext(recovering: bool, o: Others, lay: Layout, S: seq<nat>, m0: Moment, m: Moment, refs: seq<nat>,
                       tail: nat)
    requires Installing(recovering, o, lay, S, m0, m, refs, o.held, tail) && tail < |S|
    ensures S[tail] < |m.disk| && !lay.InLog(S[tail])
    ensures lay.start + 1 + tail < |m.cur| == |m.disk| && m.cur[lay.start + 1 + tail] == m.disk[lay.start + 1 + tail]
    ensures !recovering ==> refs[S[tail]] > 0
    ensures Installing(recovering, o, lay, S, m0, After(m, Write(S[tail], m.cur[lay.start + 1 + tail])),
                       if recovering then refs else refs[S[tail] := refs[S[tail]] - 1], o.held, tail + 1)
  {
    assert Index(S[tail]) && Index(lay.start + 1 + tail);
    InstallReads(lay, m0.cur, m0.cur, S, tail);
    InstallReads(lay, m0.cur, m0.disk, S, tail);
    if !recovering {
      QuietNext(o, refs, S, tail);
    }
    var ws := InstallWrites(S, Slots(lay, m0.cur, |S|));
    IssuedNext(m0, m, ws, ws[tail]);
  }

  // The same writes keep cache and disk apart only on S.
  lemma {:induction false} ApplySettled(cur: Image, disk: Image, ws: seq<Write>, S: seq<nat>)
    requires Settled(cur, disk, S)
    ensures Settled(Apply(cur, ws), Apply(disk, ws), S)
  {
    if ws != [] {
      ApplySettled(cur, disk, ws[..|ws| - 1], S);
    }
  }

  // What a commit of S starts from.
  ghost predicate Ready(lay: Layout, S: seq<nat>, m: Moment) {
    && Clean(lay, m.disk) && |m.cur| == |m.disk| && ListOk(lay, m.disk, S)
    && Settled(m.cur, m.disk, S)
  }

  ghost function HeadWrites(lay: Layout, S: seq<nat>, m0: Moment): (r: seq<Write>)
    requires Ready(lay, S, m0)
  {
    LogWrites(lay, Latest(m0.cur, S)) + [Write(lay.start, WithHead(m0.disk[lay.start], S))]
  }

  ghost function FinishWrites(lay: Layout, S: seq<nat>, m0: Moment): (r: seq<Write>)
    requires Ready(lay, S, m0)
  {
    InstallWrites(S, Latest(m0.cur, S)) + [Write(lay.start, WithHead(WithHead(m0.disk[lay.start], S), []))]
  }

  lemma CommitIs(lay: Layout, S: seq<nat>, m0: Moment)
    requires Ready(lay, S, m0)
    ensures CommitWrites(lay, m0.disk[lay.start], S, Latest(m0.cur, S)) ==
              HeadWrites(lay, S, m0) + FinishWrites(lay, S, m0)
  {
  }

  lemma LoggedHead(lay: Layout, S: seq<nat>, m0: Moment, m: Moment)
    requires Ready(lay, S, m0) && IssuedAll(m0, m, LogWrites(lay, Latest(m0.cur, S)))
    ensures m.cur[lay.start] == m.disk[lay.start] == m0.disk[lay.start]
  {
    var ws := LogWrites(lay, Latest(m0.cur, S));
    assert ws[..|ws|] == ws && Index(lay.start);
    ApplyElsewhere(m0.cur, ws, lay.start);
    ApplyElsewhere(m0.disk, ws, lay.start);
  }

  lemma SealedInCache(lay: Layout, S: seq<nat>, m0: Moment, m: Moment)
    requires Ready(lay, S, m0) && IssuedAll(m0, m, HeadWrites(lay, S, m0))
    ensures Settled(m.cur, m.disk, S) && lay.Fits(m.disk) && ListOk(lay, m.disk, S)
    ensures Slots(lay, m.cur, |S|) == Latest(m0.cur, S)
    ensures m.cur[lay.start] == m.disk[lay.start] == WithHead(m0.disk[lay.start], S)
  {
    var ws := HeadWrites(lay, S, m0);
    assert ws[..|ws|] == ws && Index(lay.start);
    ApplySettled(m0.cur, m0.disk, ws, S);
    assert m0.cur[lay.start] == m0.disk[lay.start];
    LogThenHead(lay, m0.cur, S, Latest(m0.cur, S));
    ApplyAt(m0.cur, ws, |S|);
    ApplyAt(m0.disk, ws, |S|);
  }

  lemma InstalledHead(lay: Layout, S: seq<nat>, m: Moment, m': Moment, vals: seq<Block>)
    requires lay.Fits(m.disk) && |m.cur| == |m.disk| && ListOk(lay, m.disk, S) && |vals| == |S|
    requires IssuedAll(m, m', InstallWrites(S, vals))
    ensures m'.cur[lay.start] == m.cur[lay.start] && m'.disk[lay.start] == m.disk[lay.start]
  {
    var ws := InstallWrites(S, vals);
    assert ws[..|ws|] == ws;
    ApplyElsewhere(m.cur, ws, lay.start);
    ApplyElsewhere(m.disk, ws, lay.start);
  }

  // After a whole commit the log is empty and cache and disk both hold the
  // latest home blocks.
  lemma Committed(lay: Layout, S: seq<nat>, m0: Moment, m: Moment)
    requires Ready(lay, S, m0)
    requires IssuedAll(m0, m, CommitWrites(lay, m0.disk[lay.start], S, Latest(m0.cur, S)))
    ensures Clean(lay, m.disk) && m.cur == m.disk
    ensures forall x :: 0 <= x < |m.disk| && !lay.InLog(x) ==> m.disk[x] == m0.cur[x]
  {
    var vals := Latest(m0.cur, S);
    var ws := CommitWrites(lay, m0.disk[lay.start], S, vals);
    assert ws[..|ws|] == ws;
    CommitPrefix(lay, m0.disk, S, vals, |ws|);
    ApplySettled(m0.cur, m0.disk, ws, S);
    CommitEnds(lay, m0.disk, S, vals);
    assert Index(lay.start) && m0.cur[lay.start] == m0.disk[lay.start];
    CommitEnds(lay, m0.cur, S, vals);
    forall x | 0 <= x < |m.disk| ensures m.cur[x] == m.disk[x] {
      assert Index(x);
    }
    HomeLatest(lay, S, m0, m.disk);
  }

  lemma HomeLatest(lay: Layout, S: seq<nat>, m0: Moment, e: Image)
    requires Ready(lay, S, m0) && HomeIs(lay, e, m0.disk, S, Latest(m0.cur, S))
    ensures forall x :: 0 <= x < |e| && !lay.InLog(x) ==> e[x] == m0.cur[x]
  {
    forall x | 0 <= x < |e| && !lay.InLog(x) ensures e[x] == m0.cur[x] {
      assert Index(x);
    }
  }

  lemma CommitEnds(lay: Layout, d: Image, S: seq<nat>, vals: seq<Block>)
    requires Clean(lay, d) && ListOk(lay, d, S) && |vals| == |S|
    ensures var e := Apply(d, CommitWrites(lay, d[lay.start], S, vals));
            Clean(lay, e) && HomeIs(lay, e, d, S, vals)
  {
    var h1 := WithHead(d[lay.start], S);
    var head := LogWrites(lay, vals) + [Write(lay.start, h1)];
    var tail := InstallWrites(S, vals) + [Write(lay.start, WithHead(h1, []))];
    assert CommitWrites(lay, d[lay.start], S, vals) == head + tail;
    LogThenHead(lay, d, S, vals);
    ApplyConcat(d, head, tail);
    InstallThenClear(lay, Apply(d, head), d, S, vals, h1);
  }

  /**
    A commit that stops anywhere, followed by any interrupted recoveries and a
    complete one, leaves the home blocks as the disk had them before it or as
    the cache had them, the latter exactly when the header reached the disk.
   */
  lemma CommitCrashSafe(lay: Layout, S: seq<nat>, m0: Moment, m: Moment, ks: seq<nat>)
    requires Ready(lay, S, m0) && Issued(m0, m, CommitWrites(lay, m0.disk[lay.start], S, Latest(m0.cur, S)))
    ensures Crashes(lay, m.disk, ks).Some? && Recoverable(lay, Crashes(lay, m.disk, ks).value)
    ensures var e := Recover(lay, Crashes(lay, m.disk, ks).value);
            && Clean(lay, e) && |e| == |m0.disk|
            && forall x :: 0 <= x < |e| && !lay.InLog(x) ==>
                 e[x] == if |m.trace| <= |m0.trace| + |S| then m0.disk[x] else m0.cur[x]
  {
    var k := |m.trace| - |m0.trace|;
    var vals := Latest(m0.cur, S);
    CrashAtomicity(lay, m0.disk, S, vals, k, ks);
    if k > |S| {
      HomeLatest(lay, S, m0, Recover(lay, Crashes(lay, m.disk, ks).value));
    }
  }

  ghost function Now(bc: Bcache): Moment
    reads bc
  {
    Moment(bc.trace, bc.disk, bc.cur)
  }

  class Log {
    const bc: Bcache
    const lay: Layout
    var n: nat
    var block: seq<nat>
    var outstanding: nat
    var committing: bool

    constructor (bc: Bcache, lay: Layout)
      ensures this.bc == bc && this.lay == lay && n == 0 && |block| == LOGSIZE && outstanding == 0 && !committing
    {
      this.bc, this.lay := bc, lay;
      n, block, outstanding, committing := 0, seq(LOGSIZE, _ => 0), 0, false;
    }

    // The in-memory header lists distinct home blocks that fit the log.
    ghost predicate Listed(S: seq<nat>)
      reads this, bc
    {
      && |block| == LOGSIZE && n <= LOGSIZE && S == block[..n]
      && lay.Fits(bc.disk) && ListOk(lay, bc.disk, S)
    }

    ghost predicate LogLoop(o: Others, S: seq<nat>, m0: Moment, tail: nat)
      reads this, bc
    {
      && |block| == LOGSIZE && n <= LOGSIZE && S == block[..n]
      && bc.Valid() && Logging(o, lay, S, m0, Now(bc), bc.refs, bc.held, tail)
    }

    // Body of write_log's loop.
    method CopyToLog(tail: nat, ghost o: Others, ghost S: seq<nat>, ghost m0: Moment) returns (ok: bool)
      requires LogLoop(o, S, m0, tail) && tail < n
      modifies bc
      ensures ok ==> LogLoop(o, S, m0, tail + 1)
      ensures Unhindered(o, lay, S, old(bc.refs), 1) ==> ok
      ensures !ok ==> Now(bc) == old(Now(bc))
    {
      assert block[tail] == S[tail] && lay.InLog(lay.start + 1 + tail);
      LoggingNext(o, lay, S, m0, Now(bc), bc.refs, tail);
      ok := bc.CopyOut(lay.start + 1 + tail, block[tail]);
    }

    // write_log: copy every pinned block from the cache to its log slot.
    method WriteLog(ghost o: Others, ghost S: seq<nat>) returns (ok: bool)
      requires bc.Valid() && Listed(S) && Quiet(o, bc.refs, bc.held, S)
      modifies bc
      ensures Issued(old(Now(bc)), Now(bc), LogWrites(lay, Latest(old(bc.cur), S)))
      ensures ok ==> LogLoop(o, S, old(Now(bc)), n)
      ensures Unhindered(o, lay, S, old(bc.refs), 1) ==> ok
    {
      ghost var m0 := Now(bc);
      IssuedNone(m0, LogWrites(lay, Latest(m0.cur, S)));
      ok := true;
      var tail := 0;
      while tail < n
        invariant 0 <= tail <= n && ok && LogLoop(o, S, m0, tail)
      {
        if Unhindered(o, lay, S, old(bc.refs), 1) {
          StillUnhindered(o, lay, S, old(bc.refs), bc.refs, S, S, 1);
        }
        ok := CopyToLog(tail, o, S, m0);
        if !ok { return; }
        tail := tail + 1;
      }
    }

    // write_head: the list becomes the header of the header block. With a
    // non-empty list this write is the commit point.
    method WriteHead(ghost S: seq<nat>) returns (ok: bool)
      requires bc.Valid() && lay.Fits(bc.disk)
      requires |block| == LOGSIZE && n <= LOGSIZE && S == block[..n]
      requires bc.refs[lay.start] > 0 || bc.cur[lay.start] == bc.disk[lay.start]
      modifies bc
      ensures Issued(old(Now(bc)), Now(bc), [Write(lay.start, WithHead(old(bc.cur)[lay.start], S))])
      ensures ok ==>
                bc.Valid() && bc.refs == old(bc.refs) && bc.held == old(bc.held) && |bc.trace| == |old(bc.trace)| + 1
      ensures lay.start !in old(bc.held) && Room(old(bc.refs), 1) ==> ok
    {
      ghost var m0 := Now(bc);
      ghost var w := Write(lay.start, WithHead(bc.cur[lay.start], S));
      IssuedNone(m0, [w]);
      var r := bc.Bread(lay.start);
      if !r.Locked? { return false; }
      var h := FillHead(bc.buf[r.b].data);
      bc.Store(r.b, lay.start, h);
      bc.Brelse(r.b, lay.start);
      IssuedNext(m0, m0, [w], w);
      assert bc.refs == old(bc.refs);
      ok := true;
    }

    // The loop of write_head over the words of the header block.
    method FillHead(h0: Block) returns (h: Block)
      requires |block| == LOGSIZE && n <= LOGSIZE
      ensures h == WithHead(h0, block[..n])
    {
      h := h0[0 := n];
      var i := 0;
      while i < n
        invariant 0 <= i <= n
        invariant h[0] == n && (forall j :: 0 <= j < i ==> h[1 + j] == block[j])
        invariant forall j :: i < j < WORDS ==> h[j] == h0[j]
      {
        h := h[1 + i := block[i]];
        i := i + 1;
      }
    }

    // read_head: take the list from the header block.
    method ReadHead() returns (ok: bool)
      requires bc.Valid() && Recoverable(lay, bc.disk) && bc.cur == bc.disk
      requires |block| == LOGSIZE
      modifies this`n, this`block, bc
      ensures Now(bc) == old(Now(bc))
      ensures ok ==> bc.Valid() && bc.held == old(bc.held) && bc.refs == old(bc.refs)
      ensures lay.start !in old(bc.held) && Room(old(bc.refs), 1) ==> ok
      ensures ok ==> |block| == LOGSIZE && n <= LOGSIZE && block[..n] == HeadBlocks(bc.disk[lay.start])
    {
      var r := bc.Bread(lay.start);
      if !r.Locked? { return false; }
      TakeHead(bc.buf[r.b].data);
      bc.Brelse(r.b, lay.start);
      assert bc.refs == old(bc.refs);
      ok := true;
    }

    // The loop of read_head over the words of the header block.
    method TakeHead(h: Block)
      requires h[0] <= LOGSIZE == |block|
      modifies this`n, this`block
      ensures n == h[0] && |block| == LOGSIZE && block[..n] == h[1..1 + n]
    {
      n := h[0];
      var i := 0;
      while i < n
        invariant 0 <= i <= n == h[0] && |block| == LOGSIZE
        invariant forall j :: 0 <= j < i ==> block[j] == h[1 + j]
      {
        block := block[i := h[1 + i]];
        i := i + 1;
      }
    }

    ghost predicate InstallLoop(recovering: bool, o: Others, S: seq<nat>, m0: Moment, tail: nat)
      reads this, bc
    {
      && |block| == LOGSIZE && n <= LOGSIZE && S == block[..n]
      && bc.Valid() && Installing(recovering, o, lay, S, m0, Now(bc), bc.refs, bc.held, tail)
    }

    // Body of install_trans's loop.
    method InstallOne(recovering: bool, tail: nat, ghost o: Others, ghost S: seq<nat>, ghost m0: Moment)
      returns (ok: bool)
      requires InstallLoop(recovering, o, S, m0, tail) && tail < n
      modifies bc
      ensures ok ==> InstallLoop(recovering, o, S, m0, tail + 1)
      ensures Unhindered(o, lay, S, old(bc.refs), if recovering then 2 else 1) ==> ok
      ensures !ok ==> Now(bc) == old(Now(bc))
    {
      assert block[tail] == S[tail] && lay.InLog(lay.start + 1 + tail);
      InstallingNext(recovering, o, lay, S, m0, Now(bc), bc.refs, tail);
      ok := bc.CopyHome(lay.start + 1 + tail, block[tail], recovering);
    }

    // install_trans: copy every listed block from the log to its home.
    method InstallTrans(recovering: bool, ghost o: Others, ghost S: seq<nat>) returns (ok: bool)
      requires bc.Valid() && Listed(S)
      requires Quiet(o, bc.refs, bc.held, if recovering then [] else S)
      requires Settled(bc.cur, bc.disk, S)
      modifies bc
      ensures Issued(old(Now(bc)), Now(bc), InstallWrites(S, Slots(lay, old(bc.cur), |S|)))
      ensures ok ==> InstallLoop(recovering, o, S, old(Now(bc)), n)
      ensures Unhindered(o, lay, S, old(bc.refs), if recovering then 2 else 1) ==> ok && Room(bc.refs, 1)
    {
      ghost var m0 := Now(bc);
      IssuedNone(m0, InstallWrites(S, Slots(lay, m0.cur, |S|)));
      assert S[0..] == S;
      ghost var k := if recovering then 2 else 1;
      ok := true;
      var tail := 0;
      while tail < n
        invariant 0 <= tail <= n && ok && InstallLoop(recovering, o, S, m0, tail)
        invariant Unhindered(o, lay, S, old(bc.refs), k) ==> Unhindered(o, lay, S, bc.refs, k)
      {
        ghost var refs := bc.refs;
        ok := InstallOne(recovering, tail, o, S, m0);
        if !ok { return; }
        if Unhindered(o, lay, S, refs, k) {
          StillUnhindered(o, lay, S, refs, bc.refs, if recovering then [] else S[tail..],
                          if recovering then [] else S[tail + 1..], k);
        }
        tail := tail + 1;
      }
    }

    // commit: log, seal, install, clear. Whatever the point at which it stops,
    // a prefix of CommitWrites has reached the disk.
    method Commit(ghost o: Others, ghost S: seq<nat>) returns (ok: bool)
      requires bc.Valid() && Listed(S) && Quiet(o, bc.refs, bc.held, S) && Ready(lay, S, Now(bc))
      modifies this`n, bc
      ensures S == [] ==> ok && unchanged(this) && unchanged(bc)
      ensures S != [] ==>
                Issued(old(Now(bc)), Now(bc), CommitWrites(lay, old(bc.disk)[lay.start], S, Latest(old(bc.cur), S)))
      ensures ok ==> n == 0 && bc.Valid() && Quiet(o, bc.refs, bc.held, []) && Ready(lay, [], Now(bc))
      ensures ok && S != [] ==> |bc.trace| == |old(bc.trace)| + 2 * |S| + 2
      ensures Unhindered(o, lay, S, old(bc.refs), 1) ==> ok
    {
      if n == 0 { return true; }
      ok := Seal(o, S);
      ghost var m0, m2 := old(Now(bc)), Now(bc);
      ghost var w1, w2 := HeadWrites(lay, S, m0), FinishWrites(lay, S, m0);
      CommitIs(lay, S, m0);
      IssuedPart(m0, m2, w1, w2);
      if !ok { return; }
      SealedInCache(lay, S, m0, m2);
      ok := Finish(o, S, m0);
      IssuedThen(m0, m2, Now(bc), w1, w2);
      if ok { Committed(lay, S, m0, Now(bc)); }
    }

    // The second half of commit.
    method Finish(ghost o: Others, ghost S: seq<nat>, ghost m0: Moment) returns (ok: bool)
      requires bc.Valid() && Listed(S) && Quiet(o, bc.refs, bc.held, S) && Settled(bc.cur, bc.disk, S)
      requires Ready(lay, S, m0) && Slots(lay, bc.cur, |S|) == Latest(m0.cur, S)
      requires bc.cur[lay.start] == bc.disk[lay.start] == WithHead(m0.disk[lay.start], S)
      modifies this`n, bc
      ensures Issued(old(Now(bc)), Now(bc), FinishWrites(lay, S, m0))
      ensures ok ==> n == 0 && bc.Valid() && Quiet(o, bc.refs, bc.held, []) && |bc.trace| == |old(bc.trace)| + |S| + 1
      ensures Unhindered(o, lay, S, old(bc.refs), 1) ==> ok
    {
      ghost var m2 := Now(bc);
      ghost var iw := InstallWrites(S, Latest(m0.cur, S));
      ghost var w := Write(lay.start, WithHead(WithHead(m0.disk[lay.start], S), []));
      ok := InstallTrans(false, o, S);
      ghost var m3 := Now(bc);
      IssuedPart(m2, m3, iw, [w]);
      if !ok { return; }
      assert S[n..] == [];
      InstalledHead(lay, S, m2, m3, Latest(m0.cur, S));
      n := 0;
      assert lay.InLog(lay.start);
      ok := WriteHead([]);
      IssuedThen(m2, m3, Now(bc), iw, [w]);
    }

    // The first half of commit, up to and including the header write.
    method Seal(ghost o: Others, ghost S: seq<nat>) returns (ok: bool)
      requires bc.Valid() && Listed(S) && Quiet(o, bc.refs, bc.held, S) && Ready(lay, S, Now(bc))
      modifies bc
      ensures Issued(old(Now(bc)), Now(bc), HeadWrites(lay, S, old(Now(bc))))
      ensures ok ==> bc.Valid() && Quiet(o, bc.refs, bc.held, S) && |bc.trace| == |old(bc.trace)| + |S| + 1
      ensures Unhindered(o, lay, S, old(bc.refs), 1) ==> ok && Unhindered(o, lay, S, bc.refs, 1)
    {
      ghost var m0 := Now(bc);
      ghost var lw, w := LogWrites(lay, Latest(m0.cur, S)), Write(lay.start, WithHead(m0.disk[lay.start], S));
      ok := WriteLog(o, S);
      ghost var m1 := Now(bc);
      IssuedPart(m0, m1, lw, [w]);
      if !ok { return; }
      LoggedHead(lay, S, m0, m1);
      if Unhindered(o, lay, S, old(bc.refs), 1) { StillUnhindered(o, lay, S, old(bc.refs), bc.refs, S, S, 1); }
      assert lay.InLog(lay.start);
      ok := WriteHead(S);
      IssuedThen(m0, m1, Now(bc), lw, [w]);
    }

    // recover_from_log, on a machine that has just booted.
    method RecoverFromLog(ghost o: Others) returns (ok: bool)
      requires bc.Valid() && |block| == LOGSIZE && Quiet(o, bc.refs, bc.held, []) && bc.cur == bc.disk
      requires Recoverable(lay, bc.disk)
      modifies this`n, this`block, bc
      ensures Issued(old(Now(bc)), Now(bc), RecoverWrites(lay, old(bc.disk)))
      ensures ok ==> n == 0 && bc.Valid() && Quiet(o, bc.refs, bc.held, []) && Ready(lay, [], Now(bc))
      ensures ok ==> bc.disk == Recover(lay, old(bc.disk)) == bc.cur
      ensures Unhindered(o, lay, HeadBlocks(old(bc.disk)[lay.start]), old(bc.refs), 2) ==> ok
    {
      ghost var m0 := Now(bc);
      ghost var S := HeadBlocks(bc.disk[lay.start]);
      ghost var iw, w := InstallWrites(S, Slots(lay, bc.disk, |S|)), Write(lay.start, WithHead(bc.disk[lay.start], []));
      IssuedNone(m0, iw + [w]);
      assert lay.InLog(lay.start);
      ok := ReadHead();
      if !ok { return; }
      ok := InstallTrans(true, o, S);
      ghost var m1 := Now(bc);
      IssuedPart(m0, m1, iw, [w]);
      if !ok { return; }
      InstalledHead(lay, S, m0, m1, Slots(lay, m0.disk, |S|));
      n := 0;
      ok := WriteHead([]);
      IssuedThen(m0, m1, Now(bc), iw, [w]);
      assert (iw + [w])[..|iw| + 1] == iw + [w];
    }

    // log_write: list the block unless it is listed already, and pin it the
    // first time. Refusal stands for the two panics.
    method LogWrite(b: nat, x: nat) returns (ok: bool)
      requires bc.Valid() && bc.Handle(b, x) && |block| == LOGSIZE && n <= LOGSIZE
      modifies this`n, this`block, bc
      ensures ok <==> old(n) < LOGSIZE && old(n) < lay.size - 1 && outstanding >= 1
      ensures bc.Valid() && |block| == LOGSIZE && n <= LOGSIZE
      ensures Now(bc) == old(Now(bc)) && bc.held == old(bc.held) && bc.Handle(b, x)
      ensures block[..n] == if !ok || x in old(block[..n]) then old(block[..n]) else old(block[..n]) + [x]
      ensures bc.refs == if n == old(n) then old(bc.refs) else old(bc.refs)[x := old(bc.refs)[x] + 1]
    {
      if n >= LOGSIZE || n >= lay.size - 1 { return false; }
      if outstanding < 1 { return false; }
      var i := 0;
      while i < n && block[i] != x
        invariant 0 <= i <= n && x !in block[..i]
      {
        i := i + 1;
      }
      block := block[i := x];
      if i == n {
        bc.Bpin(b, x);
        n := n + 1;
      }
      ok := true;
    }

    // begin_op, one pass of its loop under the lock: admit, or sleep and retry.
    method BeginOp() returns (admitted: bool)
      modifies this`outstanding
      ensures admitted <==> !committing && n + (old(outstanding) + 1) * MAXOPBLOCKS <= LOGSIZE
      ensures outstanding == old(outstanding) + if admitted then 1 else 0
    {
      if committing {
        return false;
      } else if n + (outstanding + 1) * MAXOPBLOCKS > LOGSIZE {
        return false;
      }
      outstanding := outstanding + 1;
      return true;
    }

    // end_op: the last operation out commits. Refusal stands for the panic on
    // log.committing or for a commit that does not return.
    method EndOp(ghost o: Others, ghost S: seq<nat>) returns (ok: bool)
      requires outstanding >= 1 && bc.Valid()
      requires outstanding == 1 && !committing ==>
                 Listed(S) && Quiet(o, bc.refs, bc.held, S) && Ready(lay, S, Now(bc))
      modifies this`n, this`outstanding, this`committing, bc
      ensures outstanding == old(outstanding) - 1
      ensures old(committing) ==> !ok
      ensures ok ==> !committing && bc.Valid()
      ensures ok && outstanding > 0 ==> n == old(n) && unchanged(bc)
      ensures ok && outstanding == 0 ==> n == 0 && Quiet(o, bc.refs, bc.held, []) && Ready(lay, [], Now(bc))
      ensures !old(committing) && (outstanding == 0 ==> Unhindered(o, lay, S, old(bc.refs), 1)) ==> ok
      ensures ok && outstanding == 0 && S != [] ==>
                IssuedAll(old(Now(bc)), Now(bc), CommitWrites(lay, old(bc.disk)[lay.start], S, Latest(old(bc.cur), S)))
    {
      outstanding := outstanding - 1;
      if committing { return false; }
      ok := true;
      if outstanding == 0 {
        committing := true;
        ok := Commit(o, S);
        if ok {
          committing := false;
        }
      }
    }
  }
}
