/**
  itrunc (kernel/fs.c): every block of an inode, and no other block, goes back
  to the bitmap, without ever meeting a free one.
 */
module Truncate {
  import opened Params
  import opened Volume
  import opened Bitmap
  import opened FileSystem

  // The places of inode i that itrunc has dealt with: the first kd direct
  // ones, the first je words of the indirect block, and the indirect entry.
  ghost predicate Gone(p: Place, i: nat, kd: nat, je: nat, ind: bool) {
    p.i == i && match p
                case Direct(_, k) => k < kd
                case Entry(_, j) => j < je
                case Indirect(_) => ind
  }

  // v is v0 with the blocks in those places freed and their entries cleared.
  ghost predicate Trimmed(v0: Vol, v: Vol, i: nat, kd: nat, je: nat, ind: bool) {
    && v.data == v0.data && |v.used| == |v0.used| && |v.addrs| == |v0.addrs| && i < |v0.addrs|
    && |v0.addrs[i]| == |v.addrs[i]| == NDIRECT + 1 && kd <= NDIRECT
    && (forall i' :: 0 <= i' < |v0.addrs| && i' != i ==> v.addrs[i'] == v0.addrs[i'])
    && (forall k :: 0 <= k < NDIRECT ==> v.addrs[i][k] == if k < kd then 0 else v0.addrs[i][k])
    && v.addrs[i][NDIRECT] == (if ind then 0 else v0.addrs[i][NDIRECT])
    && (forall b {:trigger Index(b)} :: Index(b) ==>
          && (b in v.owner <==> b in v0.owner && !Gone(v0.owner[b], i, kd, je, ind))
          && (b in v.owner ==> v.owner[b] == v0.owner[b]))
  }

  // The blocks of inode i.
  ghost function BlocksOf(v: Vol, i: nat): set<nat> { set b | b in v.owner && v.owner[b].i == i }

  lemma TrimmedAll(v0: Vol, v: Vol, nmeta: nat, i: nat)
    requires v0.Own(nmeta, 0, 0) && v.Own(nmeta, 0, 0) && Trimmed(v0, v, i, NDIRECT, NINDIRECT, true)
    ensures Leads(v0, v)
  {
    var w := Truncated(v0, i);
    forall p: Place | v0.ValidPlace(p) && p.i == i ensures Gone(p, i, NDIRECT, NINDIRECT, true) { }
    forall b ensures (b in v.owner <==> b in w.owner) && (b in v.owner ==> v.owner[b] == w.owner[b]) {
      assert Index(b);
    }
    forall b | 0 <= b < |v.used| ensures v.used[b] == w.used[b] { assert Index(b); }
    assert v.owner == w.owner && v.used == w.used && v.addrs[i] == w.addrs[i];
    assert v.addrs == w.addrs && v == w;
    LeadsOne(v0, Change.Trunc(i));
  }

  // The bitmap blocks of a set of blocks, of which there are n in all.
  function BitmapBlocks(blocks: set<nat>, bmapstart: nat): set<nat> { set b | b in blocks :: b / BPB + bmapstart }

  lemma {:induction false} BitmapBlocksFew(x: set<nat>, bmapstart: nat, n: nat)
    requires forall c :: c in x ==> bmapstart <= c < bmapstart + n
    ensures |x| <= n
  {
    if n > 0 {
      BitmapBlocksFew(x - {bmapstart + n - 1}, bmapstart, n - 1);
    } else if c :| c in x {
      assert false;
    }
  }

  lemma TrimmedNone(v: Vol, i: nat)
    requires i < |v.addrs| && |v.addrs[i]| == NDIRECT + 1
    ensures Trimmed(v, v, i, 0, 0, false)
  {
  }

  // A direct place is empty, or its block is freed and the entry cleared.
  lemma TrimmedDirect(v0: Vol, v: Vol, nmeta: nat, i: nat, k: nat)
    requires v0.Own(nmeta, 0, 0) && v.Own(nmeta, i, 0) && Trimmed(v0, v, i, k, 0, false) && k < NDIRECT
    ensures v.addrs[i][k] == 0 ==> Trimmed(v0, v, i, k + 1, 0, false)
    ensures v.addrs[i][k] != 0 ==>
              && v.addrs[i][k] < |v.used| && v.used[v.addrs[i][k]] && v.addrs[i][k] in BlocksOf(v0, i)
              && Cleared(v, i, k).Own(nmeta, i, 0) && Trimmed(v0, Cleared(v, i, k), i, k + 1, 0, false)
  {
    if v.addrs[i][k] != 0 {
      ClearedDirect(v, nmeta, i, k);
      var b := v.addrs[i][k];
      assert Index(b);
    } else {
      forall b {:trigger Index(b)} | Index(b) && b in v0.owner ensures v0.owner[b] != Direct(i, k) {
      }
    }
  }

  lemma TrimmedEntry(v0: Vol, v: Vol, nmeta: nat, i: nat, j: nat)
    requires v0.Own(nmeta, 0, 0) && v.Own(nmeta, i, j) && Trimmed(v0, v, i, NDIRECT, j, false) && j < NINDIRECT
    requires v.ValidPlace(Entry(i, j))
    ensures var b := v.Val(Entry(i, j));
            && (b == 0 ==> v.Own(nmeta, i, j + 1) && Trimmed(v0, v, i, NDIRECT, j + 1, false))
            && (b != 0 ==> && b < |v.used| && v.used[b] && b in BlocksOf(v0, i)
                           && Freed(v, b).Own(nmeta, i, j + 1) && Trimmed(v0, Freed(v, b), i, NDIRECT, j + 1, false))
  {
    FreedEntry(v, nmeta, i, j);
    assert v0.ValidPlace(Entry(i, j)) && v0.Val(Entry(i, j)) == v.Val(Entry(i, j));
    var b := v.Val(Entry(i, j));
    if b != 0 {
      assert Index(b);
      forall c {:trigger Index(c)} | Index(c) && c in v0.owner && c != b ensures v0.owner[c] != Entry(i, j) {
      }
    } else {
      forall c {:trigger Index(c)} | Index(c) && c in v0.owner ensures v0.owner[c] != Entry(i, j) {
      }
    }
  }

  // The indirect block itself, after all its words; or no indirect block.
  lemma TrimmedIndirect(v0: Vol, v: Vol, nmeta: nat, i: nat)
    requires v0.Own(nmeta, 0, 0) && v.Own(nmeta, i, NINDIRECT) && Trimmed(v0, v, i, NDIRECT, NINDIRECT, false)
    requires v.addrs[i][NDIRECT] != 0
    ensures var b := v.addrs[i][NDIRECT];
            && b < |v.used| && v.used[b] && b in BlocksOf(v0, i)
            && Cleared(v, i, NDIRECT).Own(nmeta, 0, 0)
            && Trimmed(v0, Cleared(v, i, NDIRECT), i, NDIRECT, NINDIRECT, true)
  {
    ClearedIndirect(v, nmeta, i);
    assert Index(v.addrs[i][NDIRECT]);
    forall c {:trigger Index(c)} | Index(c) && c in v0.owner && c != v.addrs[i][NDIRECT]
      ensures v0.owner[c] != Indirect(i)
    {
    }
  }

  lemma TrimmedNoIndirect(v0: Vol, v: Vol, nmeta: nat, i: nat)
    requires v0.Own(nmeta, 0, 0) && v.Own(nmeta, i, 0) && Trimmed(v0, v, i, NDIRECT, 0, false)
    requires v.addrs[i][NDIRECT] == 0
    ensures v.Own(nmeta, 0, 0) && Trimmed(v0, v, i, NDIRECT, NINDIRECT, true)
  {
    forall b {:trigger Index(b)} | Index(b) && b in v0.owner
      ensures v0.owner[b] != Indirect(i) && !(v0.owner[b].Entry? && v0.owner[b].i == i)
    {
    }
  }

  /**
    What itrunc leaves: the inode has no block, exactly its blocks became free,
    and every other inode has the blocks and the views it had.
   */
  lemma TruncateFreesExactly(v0: Vol, v: Vol, nmeta: nat, i: nat, b: nat, i': nat, bn: nat)
    requires v0.Own(nmeta, 0, 0) && v.Own(nmeta, 0, 0) && Trimmed(v0, v, i, NDIRECT, NINDIRECT, true)
    requires b < |v0.used| && i' < |v0.addrs| && bn < MAXFILE
    ensures v.used[b] <==> v0.used[b] && !(b in v0.owner && v0.owner[b].i == i)
    ensures v0.ValidPlace(PlaceOf(i', bn)) && v.ValidPlace(PlaceOf(i', bn))
    ensures v.View(i', bn) == if i' == i then None else v0.View(i', bn)
  {
    BlockOfOk(v0, nmeta, i', bn);
    BlockOfOk(v, nmeta, i', bn);
    assert Index(b);
    if b in v0.owner {
      assert v0.ValidPlace(v0.owner[b]);
    }
  }

  ghost predicate Trimming(fs: FileSystem, ip: Inode, v0: Vol, logged0: set<nat>, kd: nat, je: nat, ind: bool)
    reads fs, ip
  {
    forall h {:trigger Open(h)} :: Open(h) ==>
      && Decodes(fs.bitmap, fs.v.used) && fs.v.data == fs.data
      && |fs.v.used| == |fs.data| && |fs.v.addrs| == |fs.dinode|
      && fs.Metadata() && fs.InCore(ip) && v0.Own(fs.nmeta, 0, 0)
      && fs.v.Own(fs.nmeta, if ind then 0 else ip.inum, if ind then 0 else je)
      && Trimmed(v0, fs.v, ip.inum, kd, je, ind)
      && fs.logged <= logged0 + BitmapBlocks(BlocksOf(v0, ip.inum), fs.bmapstart)
  }

  // One pass of the first loop.
  method FreeOne(fs: FileSystem, ip: Inode, i: nat, ghost v0: Vol, ghost logged0: set<nat>) returns (ok: bool)
    requires Trimming(fs, ip, v0, logged0, i, 0, false) && i < NDIRECT
    modifies fs`bitmap, fs`v, fs`logged, ip`addrs
    ensures ok && Trimming(fs, ip, v0, logged0, i + 1, 0, false) && (old(fs.AllLogged()) ==> fs.AllLogged())
  {
    assert Open(0);
    TrimmedDirect(v0, fs.v, fs.nmeta, ip.inum, i);
    ok := true;
    if ip.addrs[i] != 0 {
      ghost var v1 := fs.v;
      ok := fs.Bfree(ip.addrs[i]);
      ip.addrs := ip.addrs[i := 0];
      fs.v := fs.v.(addrs := fs.v.addrs[ip.inum := Put(fs.v.addrs[ip.inum], i, 0)]);
      assert fs.v == Cleared(v1, ip.inum, i);
    }
  }

  // The first loop of itrunc.
  method FreeDirect(fs: FileSystem, ip: Inode) returns (ok: bool)
    requires Trimming(fs, ip, fs.v, fs.logged, 0, 0, false)
    modifies fs`bitmap, fs`v, fs`logged, ip`addrs
    ensures ok && Trimming(fs, ip, old(fs.v), old(fs.logged), NDIRECT, 0, false)
    ensures old(fs.AllLogged()) ==> fs.AllLogged()
  {
    ghost var v0, logged0 := fs.v, fs.logged;
    var i := 0;
    while i < NDIRECT
      invariant 0 <= i <= NDIRECT && Trimming(fs, ip, v0, logged0, i, 0, false)
      invariant old(fs.AllLogged()) ==> fs.AllLogged()
    {
      ok := FreeOne(fs, ip, i, v0, logged0);
      i := i + 1;
    }
    ok := true;
  }

  // One pass of the second loop.
  method FreeEntry(fs: FileSystem, ip: Inode, a: ByteBlock, j: nat, ghost v0: Vol, ghost logged0: set<nat>)
    returns (ok: bool)
    requires Trimming(fs, ip, v0, logged0, NDIRECT, j, false) && j < NINDIRECT
    requires |ip.addrs| == NDIRECT + 1 && 0 != ip.addrs[NDIRECT] < |fs.data| && a == fs.data[ip.addrs[NDIRECT]]
    modifies fs`bitmap, fs`v, fs`logged
    ensures ok && Trimming(fs, ip, v0, logged0, NDIRECT, j + 1, false) && (old(fs.AllLogged()) ==> fs.AllLogged())
  {
    assert Open(0);
    TrimmedEntry(v0, fs.v, fs.nmeta, ip.inum, j);
    ok := true;
    if Word(a, j) != 0 {
      ok := fs.Bfree(Word(a, j));
    }
  }

  lemma HasIndirect(fs: FileSystem, ip: Inode, v0: Vol, logged0: set<nat>)
    requires Trimming(fs, ip, v0, logged0, NDIRECT, 0, false)
    ensures |ip.addrs| == NDIRECT + 1 && ip.addrs[NDIRECT] < |fs.data|
  {
    assert Open(0) && Index(ip.inum);
  }

  // The second loop of itrunc.
  method FreeEntries(fs: FileSystem, ip: Inode, ghost v0: Vol, ghost logged0: set<nat>) returns (ok: bool)
    requires Trimming(fs, ip, v0, logged0, NDIRECT, 0, false) && |ip.addrs| == NDIRECT + 1 && ip.addrs[NDIRECT] != 0
    modifies fs`bitmap, fs`v, fs`logged
    ensures ok && Trimming(fs, ip, v0, logged0, NDIRECT, NINDIRECT, false) && (old(fs.AllLogged()) ==> fs.AllLogged())
  {
    HasIndirect(fs, ip, v0, logged0);
    var a := fs.data[ip.addrs[NDIRECT]];
    var j := 0;
    while j < NINDIRECT
      invariant 0 <= j <= NINDIRECT && Trimming(fs, ip, v0, logged0, NDIRECT, j, false)
      invariant old(fs.AllLogged()) ==> fs.AllLogged()
    {
      ok := FreeEntry(fs, ip, a, j, v0, logged0);
      j := j + 1;
    }
    ok := true;
  }

  // The release of the indirect block.
  method FreeIndirect(fs: FileSystem, ip: Inode, ghost v0: Vol, ghost logged0: set<nat>) returns (ok: bool)
    requires Trimming(fs, ip, v0, logged0, NDIRECT, NINDIRECT, false)
    requires |ip.addrs| == NDIRECT + 1 && ip.addrs[NDIRECT] != 0
    modifies fs`bitmap, fs`v, fs`logged, ip`addrs
    ensures ok && Trimming(fs, ip, v0, logged0, NDIRECT, NINDIRECT, true) && (old(fs.AllLogged()) ==> fs.AllLogged())
  {
    assert Open(0);
    TrimmedIndirect(v0, fs.v, fs.nmeta, ip.inum);
    ghost var v1 := fs.v;
    ok := fs.Bfree(ip.addrs[NDIRECT]);
    if !ok { return; }
    ip.addrs := ip.addrs[NDIRECT := 0];
    fs.v := fs.v.(addrs := fs.v.addrs[ip.inum := Put(fs.v.addrs[ip.inum], NDIRECT, 0)]);
    assert fs.v == Cleared(v1, ip.inum, NDIRECT);
  }

  // itrunc. It always returns: no bfree panics. What it logs are the bitmap
  // blocks of the blocks it frees, and the inode's block.
  method Itrunc(fs: FileSystem, ip: Inode) returns (ok: bool)
    requires fs.Inv() && fs.InCore(ip)
    modifies fs`bitmap, fs`v, fs`logged, fs`dinode, ip`addrs, ip`size
    ensures ok && fs.Inv() && fs.InCore(ip)
    ensures Trimmed(old(fs.v), fs.v, ip.inum, NDIRECT, NINDIRECT, true)
    ensures old(fs.AllLogged()) ==> fs.AllLogged()
    ensures fs.logged <=
              old(fs.logged) + BitmapBlocks(BlocksOf(old(fs.v), ip.inum), fs.bmapstart) + {fs.IBlock(ip.inum)}
    ensures |fs.logged - old(fs.logged)| <= |fs.bitmap| + 1
    ensures ip.size == 0 && fs.dinode == old(fs.dinode)[ip.inum := ip.Copy()]
    ensures old(fs.OnDisk()) ==> fs.OnDisk() && Effect(fs.nmeta, old(fs.Now()), fs.Now())
  {
    TrimmedNone(fs.v, ip.inum);
    FreeBlocks(fs, ip, fs.v, fs.logged);
    ok := true;
    assert Open(0);
    TrimmedAll(old(fs.v), fs.v, fs.nmeta, ip.inum);
    FewLogged(old(fs.v), fs.nmeta, ip.inum, fs.bmapstart, |fs.bitmap|, old(fs.logged), fs.logged, fs.IBlock(ip.inum));
    ip.size := 0;
    fs.Iupdate(ip);
    if old(fs.OnDisk()) {
      forall i {:trigger Part(i)} | Part(i) && 0 <= i < |fs.dinode| ensures fs.dinode[i].addrs == fs.v.addrs[i] { }
      EffectOf(fs.nmeta, old(fs.Now()), fs.Now(), old(fs.v), fs.v);
    }
  }

  // The loops of itrunc.
  method FreeBlocks(fs: FileSystem, ip: Inode, ghost v0: Vol, ghost logged0: set<nat>)
    requires fs.v == v0 && fs.logged == logged0 && Trimming(fs, ip, v0, logged0, 0, 0, false)
    modifies fs`bitmap, fs`v, fs`logged, ip`addrs
    ensures Trimming(fs, ip, v0, logged0, NDIRECT, NINDIRECT, true) && (old(fs.AllLogged()) ==> fs.AllLogged())
  {
    var ok := FreeDirect(fs, ip);
    HasIndirect(fs, ip, v0, logged0);
    if ip.addrs[NDIRECT] != 0 {
      ok := FreeEntries(fs, ip, v0, logged0);
      ok := FreeIndirect(fs, ip, v0, logged0);
    } else {
      assert Open(0);
    TrimmedNoIndirect(v0, fs.v, fs.nmeta, ip.inum);
    }
  }

  // At most one block for each bitmap block, and one for the inode.
  lemma FewLogged(v: Vol, nmeta: nat, i: nat, bmapstart: nat, n: nat, logged0: set<nat>, logged: set<nat>, iblock: nat)
    requires v.Own(nmeta, 0, 0) && |v.used| <= n * BPB
    requires logged <= logged0 + BitmapBlocks(BlocksOf(v, i), bmapstart)
    ensures |(logged + {iblock}) - logged0| <= n + 1
  {
    var x := BitmapBlocks(BlocksOf(v, i), bmapstart);
    forall c | c in x ensures bmapstart <= c < bmapstart + n {
      var b :| b in BlocksOf(v, i) && c == b / BPB + bmapstart;
      assert Index(b);
      BitmapBlock(b, n);
    }
    BitmapBlocksFew(x, bmapstart, n);
    CardSubset((logged + {iblock}) - logged0, x + {iblock});
  }
}
