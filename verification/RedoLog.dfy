/**
  The on-disk redo log as a sequence of one-block writes: the writes that a
  commit issues, the writes that a recovery issues, and the theorem that a
  crash between any two of them, with any number of interrupted recoveries
  afterwards, leaves exactly the old or exactly the new home blocks.
 */
module RedoLog {
  import opened Params

  // A disk block, as the 256 32-bit words of its 1024 bytes.
  const WORDS := 256
  type Block = b: seq<nat> | |b| == WORDS witness seq(WORDS, _ => 0)
  type Image = seq<Block>

  datatype Write = Write(bno: nat, data: Block)

  // Where the log lives: block `start` is the header, `size` counts it.
  datatype Layout = Layout(start: nat, size: nat) {
    predicate InLog(b: nat) { start <= b < start + size }

    predicate Fits(d: Image) { 1 <= size && start + size <= |d| }
  }

  // One block write is atomic.
  function Put(d: Image, w: Write): (r: Image)
    ensures |r| == |d|
  {
    if w.bno < |d| then d[w.bno := w.data] else d
  }

  function Apply(d: Image, ws: seq<Write>): (r: Image)
    ensures |r| == |d|
  {
    if ws == [] then d else Put(Apply(d, ws[..|ws| - 1]), ws[|ws| - 1])
  }

  // The header block: a count, then that many block numbers. The words after
  // them keep whatever the buffer held.
  function WithHead(h: Block, blocks: seq<nat>): (r: Block)
    requires |blocks| <= LOGSIZE
    ensures HeadOk(r) && HeadBlocks(r) == blocks
  {
    [|blocks|] + blocks + h[1 + |blocks|..]
  }

  predicate HeadOk(h: Block) { h[0] <= LOGSIZE }

  function HeadBlocks(h: Block): (r: seq<nat>)
    requires HeadOk(h)
  {
    h[1..1 + h[0]]
  }

  predicate Distinct(s: seq<nat>) {
    forall i, j :: 0 <= i < j < |s| ==> s[i] != s[j]
  }

  // What log_write guarantees of the listed block numbers.
  predicate ListOk(lay: Layout, d: Image, blocks: seq<nat>) {
    && |blocks| <= LOGSIZE
    && |blocks| < lay.size
    && Distinct(blocks)
    && forall i :: 0 <= i < |blocks| ==> blocks[i] < |d| && !lay.InLog(blocks[i])
  }

  function LogWrites(lay: Layout, vals: seq<Block>): (r: seq<Write>) {
    seq(|vals|, i requires 0 <= i < |vals| => Write(lay.start + 1 + i, vals[i]))
  }

  function InstallWrites(blocks: seq<nat>, vals: seq<Block>): (r: seq<Write>)
    requires |blocks| == |vals|
  {
    seq(|blocks|, i requires 0 <= i < |blocks| => Write(blocks[i], vals[i]))
  }

  // Every block write of commit(), in order.
  function CommitWrites(lay: Layout, h: Block, blocks: seq<nat>, vals: seq<Block>): (r: seq<Write>)
    requires |blocks| == |vals| <= LOGSIZE
  {
    var h1 := WithHead(h, blocks);
    LogWrites(lay, vals) + [Write(lay.start, h1)]
    + InstallWrites(blocks, vals) + [Write(lay.start, WithHead(h1, []))]
  }

  // The log slots that a header with n blocks refers to.
  function Slots(lay: Layout, d: Image, n: nat): (r: seq<Block>)
    requires lay.start + n < |d|
  {
    d[lay.start + 1..lay.start + 1 + n]
  }

  predicate Recoverable(lay: Layout, d: Image) {
    && lay.Fits(d)
    && HeadOk(d[lay.start])
    && ListOk(lay, d, HeadBlocks(d[lay.start]))
  }

  // Every block write of recover_from_log() on image d, in order.
  function RecoverWrites(lay: Layout, d: Image): (r: seq<Write>)
    requires Recoverable(lay, d)
  {
    var blocks := HeadBlocks(d[lay.start]);
    InstallWrites(blocks, Slots(lay, d, |blocks|)) + [Write(lay.start, WithHead(d[lay.start], []))]
  }

  function Recover(lay: Layout, d: Image): (r: Image)
    requires Recoverable(lay, d)
  {
    Apply(d, RecoverWrites(lay, d))
  }

  // A recovery that a crash stops after its first k writes.
  function PartialRecover(lay: Layout, d: Image, k: nat): (r: Image)
    requires Recoverable(lay, d)
  {
    var ws := RecoverWrites(lay, d);
    Apply(d, ws[..if k <= |ws| then k else |ws|])
  }

  // Home blocks of d are those of base, overlaid with the transaction.
  ghost predicate HomeIs(lay: Layout, d: Image, base: Image, blocks: seq<nat>, vals: seq<Block>)
    requires |blocks| == |vals|
  {
    && |d| == |base|
    && (forall b :: 0 <= b < |d| && !lay.InLog(b) && b !in blocks ==> d[b] == base[b])
    && (forall i :: 0 <= i < |blocks| && blocks[i] < |d| ==> d[blocks[i]] == vals[i])
  }

  // The header lists the transaction and the log holds its contents: from
  // here on recovery can only finish it.
  ghost predicate Sealed(lay: Layout, d: Image, base: Image, blocks: seq<nat>, vals: seq<Block>)
  {
    && |d| == |base| && |blocks| == |vals|
    && lay.Fits(d)
    && ListOk(lay, d, blocks)
    && HeadOk(d[lay.start]) && HeadBlocks(d[lay.start]) == blocks
    && Slots(lay, d, |blocks|) == vals
    && (forall b :: 0 <= b < |d| && !lay.InLog(b) && b !in blocks ==> d[b] == base[b])
  }

  ghost predicate Clean(lay: Layout, d: Image) {
    lay.Fits(d) && HeadOk(d[lay.start]) && HeadBlocks(d[lay.start]) == []
  }

  ghost predicate Finished(lay: Layout, d: Image, base: Image, blocks: seq<nat>, vals: seq<Block>) {
    && |blocks| == |vals|
    && (forall i :: 0 <= i < |blocks| ==> !lay.InLog(blocks[i]))
    && Clean(lay, d) && HomeIs(lay, d, base, blocks, vals)
  }

  // Either still sealed, or the transaction is home and the log is empty.
  ghost predicate Durable(lay: Layout, d: Image, base: Image, blocks: seq<nat>, vals: seq<Block>)
  {
    || Sealed(lay, d, base, blocks, vals)
    || Finished(lay, d, base, blocks, vals)
  }

  // ---------------------------------------------------------------- lemmas

  lemma {:induction false} ApplyConcat(d: Image, a: seq<Write>, b: seq<Write>)
    ensures Apply(d, a + b) == Apply(Apply(d, a), b)
  {
    if b == [] {
      assert a + b == a;
    } else {
      var b' := b[..|b| - 1];
      assert (a + b)[..|a + b| - 1] == a + b';
      ApplyConcat(d, a, b');
    }
  }

  // Writes that avoid a block leave it alone.
  lemma {:induction false} ApplyElsewhere(d: Image, ws: seq<Write>, b: nat)
    requires b < |d| && forall i :: 0 <= i < |ws| ==> ws[i].bno != b
    ensures Apply(d, ws)[b] == d[b]
  {
    if ws != [] {
      ApplyElsewhere(d, ws[..|ws| - 1], b);
    }
  }

  // A block written exactly once ends with that write's data.
  lemma {:induction false} ApplyAt(d: Image, ws: seq<Write>, i: nat)
    requires i < |ws| && ws[i].bno < |d|
    requires forall j :: i < j < |ws| ==> ws[j].bno != ws[i].bno
    ensures Apply(d, ws)[ws[i].bno] == ws[i].data
  {
    if i < |ws| - 1 {
      ApplyAt(d, ws[..|ws| - 1], i);
    }
  }

  // Installing a prefix of a sealed transaction keeps it sealed.
  lemma InstallKeepsSealed(lay: Layout, d: Image, base: Image, blocks: seq<nat>, vals: seq<Block>, k: nat)
    requires Sealed(lay, d, base, blocks, vals) && k <= |blocks|
    ensures Sealed(lay, Apply(d, InstallWrites(blocks, vals)[..k]), base, blocks, vals)
    ensures forall i :: 0 <= i < k ==> Apply(d, InstallWrites(blocks, vals)[..k])[blocks[i]] == vals[i]
  {
    var ws := InstallWrites(blocks, vals)[..k];
    var e := Apply(d, ws);
    forall b | 0 <= b < |d| && (lay.InLog(b) || b !in blocks) ensures e[b] == d[b] {
      ApplyElsewhere(d, ws, b);
    }
    assert Slots(lay, e, |blocks|) == Slots(lay, d, |blocks|);
    forall i | 0 <= i < k ensures e[blocks[i]] == vals[i] {
      ApplyAt(d, ws, i);
    }
  }

  // Clearing the header after a full install completes the transaction.
  lemma InstallThenClear(lay: Layout, d: Image, base: Image, blocks: seq<nat>, vals: seq<Block>, h: Block)
    requires Sealed(lay, d, base, blocks, vals) && HeadOk(h)
    ensures var e := Apply(d, InstallWrites(blocks, vals) + [Write(lay.start, WithHead(h, []))]);
            Clean(lay, e) && HomeIs(lay, e, base, blocks, vals)
  {
    var ws := InstallWrites(blocks, vals);
    assert ws[..|blocks|] == ws;
    InstallKeepsSealed(lay, d, base, blocks, vals, |blocks|);
    var w := Write(lay.start, WithHead(h, []));
    assert (ws + [w])[..|ws|] == ws;
    assert Apply(d, ws + [w]) == Put(Apply(d, ws), w);
  }

  // A recovery of a sealed image, cut short anywhere.
  lemma SealedRecover(lay: Layout, d: Image, base: Image, blocks: seq<nat>, vals: seq<Block>, k: nat)
    requires Sealed(lay, d, base, blocks, vals)
    ensures Recoverable(lay, d) && |RecoverWrites(lay, d)| == |blocks| + 1
    ensures k <= |blocks| ==> Sealed(lay, PartialRecover(lay, d, k), base, blocks, vals)
    ensures k > |blocks| ==>
              Clean(lay, PartialRecover(lay, d, k)) && HomeIs(lay, PartialRecover(lay, d, k), base, blocks, vals)
  {
    var ws, iw := RecoverWrites(lay, d), InstallWrites(blocks, vals);
    assert ws == iw + [Write(lay.start, WithHead(d[lay.start], []))];
    if k <= |blocks| {
      assert ws[..k] == iw[..k];
      InstallKeepsSealed(lay, d, base, blocks, vals, k);
    } else {
      assert ws[..|ws|] == ws;
      InstallThenClear(lay, d, base, blocks, vals, d[lay.start]);
    }
  }

  // A recovery of an image with an empty log only rewrites the header.
  lemma CleanRecover(lay: Layout, d: Image, base: Image, blocks: seq<nat>, vals: seq<Block>, k: nat)
    requires |blocks| == |vals| && Clean(lay, d) && HomeIs(lay, d, base, blocks, vals)
    requires forall i :: 0 <= i < |blocks| ==> !lay.InLog(blocks[i])
    ensures Recoverable(lay, d)
    ensures Clean(lay, PartialRecover(lay, d, k)) && HomeIs(lay, PartialRecover(lay, d, k), base, blocks, vals)
  {
    var w := Write(lay.start, WithHead(d[lay.start], []));
    assert RecoverWrites(lay, d) == [w];
    ApplyOne(d, w);
    assert k > 0 ==> [w][..1] == [w];
  }

  lemma ApplyOne(d: Image, w: Write)
    ensures Apply(d, [w]) == Put(d, w)
    ensures Apply(d, [w][..0]) == d
  {
    assert [w][..0] == [];
  }

  // A recovery cut short anywhere keeps the outcome decided; a full one ends
  // with an empty log and the transaction home.
  lemma PartialRecoverDurable(lay: Layout, d: Image, base: Image, blocks: seq<nat>, vals: seq<Block>, k: nat)
    requires Durable(lay, d, base, blocks, vals)
    ensures Recoverable(lay, d)
    ensures Durable(lay, PartialRecover(lay, d, k), base, blocks, vals)
    ensures k >= |RecoverWrites(lay, d)| ==>
              Clean(lay, PartialRecover(lay, d, k)) && HomeIs(lay, PartialRecover(lay, d, k), base, blocks, vals)
  {
    if Sealed(lay, d, base, blocks, vals) {
      SealedRecover(lay, d, base, blocks, vals, k);
    } else {
      CleanRecover(lay, d, base, blocks, vals, k);
    }
  }

  // Any number of recoveries, each stopped after ks[i] writes.
  function Crashes(lay: Layout, d: Image, ks: seq<nat>): (r: Option<Image>)
    decreases |ks|
  {
    if ks == [] then Some(d)
    else if !Recoverable(lay, d) then None
    else Crashes(lay, PartialRecover(lay, d, ks[0]), ks[1..])
  }

  lemma {:induction false} CrashesDurable(lay: Layout, d: Image, base: Image, blocks: seq<nat>, vals: seq<Block>,
                                          ks: seq<nat>)
    requires Durable(lay, d, base, blocks, vals)
    ensures Crashes(lay, d, ks).Some?
    ensures Durable(lay, Crashes(lay, d, ks).value, base, blocks, vals)
    decreases |ks|
  {
    if ks != [] {
      PartialRecoverDurable(lay, d, base, blocks, vals, ks[0]);
      CrashesDurable(lay, PartialRecover(lay, d, ks[0]), base, blocks, vals, ks[1..]);
    }
  }

  // Before the header write the old home blocks are intact and the log empty.
  lemma BeforeHead(lay: Layout, d: Image, blocks: seq<nat>, vals: seq<Block>, k: nat)
    requires Clean(lay, d) && ListOk(lay, d, blocks) && |vals| == |blocks| && k <= |blocks|
    ensures Finished(lay, Apply(d, LogWrites(lay, vals)[..k]), d, [], [])
  {
    var lw := LogWrites(lay, vals)[..k];
    var e := Apply(d, lw);
    forall b | 0 <= b < |d| && !(lay.start < b <= lay.start + |blocks|) ensures e[b] == d[b] {
      ApplyElsewhere(d, lw, b);
    }
  }

  // The image after the first k writes of a commit: before the header write
  // nothing has happened, after it the transaction is sealed or home.
  lemma CommitPrefix(lay: Layout, d: Image, blocks: seq<nat>, vals: seq<Block>, k: nat)
    requires Clean(lay, d) && ListOk(lay, d, blocks) && |vals| == |blocks|
    requires k <= |CommitWrites(lay, d[lay.start], blocks, vals)|
    ensures var e := Apply(d, CommitWrites(lay, d[lay.start], blocks, vals)[..k]);
            && (k <= |blocks| ==> Durable(lay, e, d, [], []))
            && (k > |blocks| ==> Durable(lay, e, d, blocks, vals))
  {
    var n := |blocks|;
    var h1 := WithHead(d[lay.start], blocks);
    var head, iw := LogWrites(lay, vals) + [Write(lay.start, h1)], InstallWrites(blocks, vals);
    var tail := iw + [Write(lay.start, WithHead(h1, []))];
    var cw := CommitWrites(lay, d[lay.start], blocks, vals);
    assert cw == head + tail;
    if k <= n {
      assert cw[..k] == LogWrites(lay, vals)[..k];
      BeforeHead(lay, d, blocks, vals, k);
    } else {
      LogThenHead(lay, d, blocks, vals);
      var j := k - n - 1;
      assert cw[..k] == head + tail[..j];
      ApplyConcat(d, head, tail[..j]);
      if j <= n {
        assert tail[..j] == iw[..j];
        InstallKeepsSealed(lay, Apply(d, head), d, blocks, vals, j);
      } else {
        assert tail[..j] == tail;
        InstallThenClear(lay, Apply(d, head), d, blocks, vals, h1);
      }
    }
  }

  // The header write is the commit point.
  lemma LogThenHead(lay: Layout, d: Image, blocks: seq<nat>, vals: seq<Block>)
    requires Clean(lay, d) && ListOk(lay, d, blocks) && |vals| == |blocks|
    ensures Sealed(lay, Apply(d, LogWrites(lay, vals) + [Write(lay.start, WithHead(d[lay.start], blocks))]),
                   d, blocks, vals)
  {
    var lw := LogWrites(lay, vals);
    var w := Write(lay.start, WithHead(d[lay.start], blocks));
    assert (lw + [w])[..|lw|] == lw;
    var m := Apply(d, lw);
    var e := Apply(d, lw + [w]);
    assert e == Put(m, w);
    forall i | 0 <= i < |vals| ensures e[lay.start + 1 + i] == vals[i] {
      ApplyAt(d, lw, i);
      assert lw[i].bno == lay.start + 1 + i;
    }
    assert Slots(lay, e, |blocks|) == vals;
    forall b | 0 <= b < |d| && !lay.InLog(b) ensures e[b] == d[b] {
      ApplyElsewhere(d, lw, b);
    }
  }

  // Interrupted recoveries and then a complete one finish the transaction.
  lemma DurableRecovers(lay: Layout, d: Image, base: Image, blocks: seq<nat>, vals: seq<Block>, ks: seq<nat>)
    requires Durable(lay, d, base, blocks, vals)
    ensures Crashes(lay, d, ks).Some? && Recoverable(lay, Crashes(lay, d, ks).value)
    ensures var e := Recover(lay, Crashes(lay, d, ks).value);
            Clean(lay, e) && HomeIs(lay, e, base, blocks, vals)
  {
    CrashesDurable(lay, d, base, blocks, vals, ks);
    var c := Crashes(lay, d, ks).value;
    PartialRecoverDurable(lay, c, base, blocks, vals, 0);
    var ws := RecoverWrites(lay, c);
    PartialRecoverDurable(lay, c, base, blocks, vals, |ws|);
    assert ws[..|ws|] == ws;
  }

  /**
    Crash atomicity. Stop a commit after any k of its block writes, then run
    any number of recoveries each stopped anywhere, then one to the end: the
    log is empty and the home blocks are exactly the old ones when the header
    had not been written, exactly the new ones once it had.
   */
  lemma CrashAtomicity(lay: Layout, d: Image, blocks: seq<nat>, vals: seq<Block>, k: nat, ks: seq<nat>)
    requires Clean(lay, d) && ListOk(lay, d, blocks) && |vals| == |blocks|
    requires k <= |CommitWrites(lay, d[lay.start], blocks, vals)|
    ensures var crashed := Crashes(lay, Apply(d, CommitWrites(lay, d[lay.start], blocks, vals)[..k]), ks);
            && crashed.Some? && Recoverable(lay, crashed.value)
            && var e := Recover(lay, crashed.value);
            && Clean(lay, e)
            && (k <= |blocks| ==> HomeIs(lay, e, d, [], []))
            && (k > |blocks| ==> HomeIs(lay, e, d, blocks, vals))
  {
    CommitPrefix(lay, d, blocks, vals, k);
    var e := Apply(d, CommitWrites(lay, d[lay.start], blocks, vals)[..k]);
    if k <= |blocks| {
      DurableRecovers(lay, e, d, [], [], ks);
    } else {
      DurableRecovers(lay, e, d, blocks, vals, ks);
    }
  }
}
