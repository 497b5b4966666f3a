/**
  File contents as byte sequences: readi and writei (kernel/fs.c) against the
  bytes of a file, the freedom from holes they keep, and the number of blocks
  a write logs. filewrite (kernel/file.c) cuts a write into chunks that fit a
  log reservation.
 */
module FileContents {
  import opened Params
  import opened Volume
  import opened FileSystem

  // Byte p of inode i; a byte of an unmapped block reads as zero.
  ghost function Get(v: Vol, i: nat, p: nat): Byte
    requires p < MAXBYTES && v.ValidPlace(PlaceOf(i, p / BSIZE))
  {
    var o := v.View(i, p / BSIZE);
    if o.None? then 0 else o.value[p % BSIZE]
  }

  ghost predicate Mappable(v: Vol, i: nat) {
    forall bn {:trigger File(i, bn)} :: File(i, bn) && 0 <= bn < MAXFILE ==> v.ValidPlace(PlaceOf(i, bn))
  }

  // Every block below size is mapped.
  ghost predicate HoleFree(v: Vol, i: nat, size: nat) {
    && Mappable(v, i) && size <= MAXBYTES
    && forall bn {:trigger File(i, bn)} :: File(i, bn) && 0 <= bn < MAXFILE && bn * BSIZE < size ==> v.View(i, bn).Some?
  }

  // Every other inode has the views it had.
  ghost predicate OthersSame(v0: Vol, v: Vol, i: nat) {
    && |v.addrs| == |v0.addrs|
    && forall i', bn {:trigger File(i', bn)} :: File(i', bn) && 0 <= i' < |v0.addrs| && 0 <= bn < MAXFILE ==>
         && v0.ValidPlace(PlaceOf(i', bn)) && v.ValidPlace(PlaceOf(i', bn))
         && (i' != i ==> v.addrs[i'] == v0.addrs[i'] && v.View(i', bn) == v0.View(i', bn))
         && (v0.View(i', bn).Some? ==> v.View(i', bn).Some?)
  }

  // A write of src at off has stored its first tot bytes.
  ghost predicate Stored(v0: Vol, v: Vol, i: nat, off: nat, src: seq<Byte>, tot: nat) {
    forall h {:trigger Open(h)} :: Open(h) ==> StoredBytes(v0, v, i, off, src, tot)
  }

  ghost predicate StoredBytes(v0: Vol, v: Vol, i: nat, off: nat, src: seq<Byte>, tot: nat) {
    && i < |v0.addrs| && OthersSame(v0, v, i) && tot <= |src|
    && (forall p {:trigger Index(p)} :: Index(p) && 0 <= p < MAXBYTES ==>
          && v0.ValidPlace(PlaceOf(i, p / BSIZE)) && v.ValidPlace(PlaceOf(i, p / BSIZE))
          && Get(v, i, p) == if off <= p < off + tot then src[p - off] else Get(v0, i, p))
    && (forall bn {:trigger File(i, bn)} ::
         File(i, bn) && tot > 0 && 0 <= bn < MAXFILE && off / BSIZE <= bn && bn * BSIZE < off + tot ==>
          v.View(i, bn).Some?)
  }

  lemma StoredNone(v: Vol, nmeta: nat, i: nat, off: nat, src: seq<Byte>)
    requires v.Own(nmeta, 0, 0) && i < |v.addrs|
    ensures Stored(v, v, i, off, src, 0)
  {
    forall i', bn {:trigger File(i', bn)} | File(i', bn) && 0 <= i' < |v.addrs| && 0 <= bn < MAXFILE
      ensures v.ValidPlace(PlaceOf(i', bn))
    {
      BlockOfOk(v, nmeta, i', bn);
    }
    forall p {:trigger Index(p)} | Index(p) && 0 <= p < MAXBYTES ensures v.ValidPlace(PlaceOf(i, p / BSIZE)) {
      assert File(i, p / BSIZE);
    }
  }

  // bmap changes no byte.
  lemma StoredMapped(v0: Vol, v: Vol, w: Vol, i: nat, bn: nat, off: nat, src: seq<Byte>, tot: nat)
    requires i < |v0.addrs| && Stored(v0, v, i, off, src, tot) && bn < MAXFILE
    requires v.ValidPlace(PlaceOf(i, bn)) && SameViews(v, w, i, bn, Mapped(v.View(i, bn)))
    ensures Stored(v0, w, i, off, src, tot)
  {
    assert Open(0);
    forall p {:trigger Index(p)} | Index(p) && 0 <= p < MAXBYTES
      ensures w.ValidPlace(PlaceOf(i, p / BSIZE)) && Get(w, i, p) == Get(v, i, p)
    {
      assert File(i, p / BSIZE);
    }
  }

  // The bytes src[tot..tot + m] copied to byte o of a block.
  function Overlay(blk: ByteBlock, o: nat, src: seq<Byte>, tot: nat, m: nat): ByteBlock
    requires o + m <= BSIZE && tot + m <= |src|
  {
    blk[..o] + src[tot..tot + m] + blk[o + m..]
  }

  // Copying into the mapped block stores m more bytes.
  lemma StoredMore(v0: Vol, v: Vol, w: Vol, i: nat, off: nat, src: seq<Byte>, tot: nat, m: nat, end: nat)
    requires i < |v0.addrs| && Stored(v0, v, i, off, src, tot) && end == tot + m
    requires 0 < m && tot + m <= |src| && off + tot + m <= MAXBYTES && (off + tot) % BSIZE + m <= BSIZE
    requires tot > 0 ==> (off + tot) % BSIZE == 0
    requires var bn := (off + tot) / BSIZE;
             && v.ValidPlace(PlaceOf(i, bn)) && v.View(i, bn).Some?
             && SameViews(v, w, i, bn, Some(Overlay(v.View(i, bn).value, (off + tot) % BSIZE, src, tot, m)))
    ensures Stored(v0, w, i, off, src, end)
  {
    assert Open(0);
    var bn, o := (off + tot) / BSIZE, (off + tot) % BSIZE;
    ViewsMore(v0, v, w, i, bn, Some(Overlay(v.View(i, bn).value, o, src, tot, m)), off, tot, end);
    BytesMore(v0, v, w, i, off, src, tot, m, end, bn, o);
  }

  // The bytes after the copy.
  lemma BytesMore(v0: Vol, v: Vol, w: Vol, i: nat, off: nat, src: seq<Byte>, tot: nat, m: nat, end: nat,
                  bn: nat, o: nat)
    requires StoredBytes(v0, v, i, off, src, tot) && i < |v.addrs| && end == tot + m <= |src| && bn < MAXFILE
    requires off + tot == bn * BSIZE + o && o + m <= BSIZE && v.ValidPlace(PlaceOf(i, bn)) && v.View(i, bn).Some?
    requires SameViews(v, w, i, bn, Some(Overlay(v.View(i, bn).value, o, src, tot, m)))
    ensures forall p {:trigger Index(p)} :: Index(p) && 0 <= p < MAXBYTES ==>
              && v0.ValidPlace(PlaceOf(i, p / BSIZE)) && w.ValidPlace(PlaceOf(i, p / BSIZE))
              && Get(w, i, p) == if off <= p < off + end then src[p - off] else Get(v0, i, p)
  {
    forall p {:trigger Index(p)} | Index(p) && 0 <= p < MAXBYTES
      ensures v0.ValidPlace(PlaceOf(i, p / BSIZE)) && w.ValidPlace(PlaceOf(i, p / BSIZE))
      ensures Get(w, i, p) == if off <= p < off + end then src[p - off] else Get(v0, i, p)
    {
      ByteMore(v, w, i, bn, o, src, tot, m, p);
    }
  }

  // The blocks after the copy.
  lemma ViewsMore(v0: Vol, v: Vol, w: Vol, i: nat, bn: nat, val: Option<ByteBlock>, off: nat, tot: nat, end: nat)
    requires i < |v0.addrs| && OthersSame(v0, v, i) && SameViews(v, w, i, bn, val) && val.Some?
    requires bn == (off + tot) / BSIZE && tot < end && off + end <= (bn + 1) * BSIZE
    requires forall b {:trigger File(i, b)} ::
               File(i, b) && tot > 0 && 0 <= b < MAXFILE && off / BSIZE <= b && b * BSIZE < off + tot ==>
                 v.View(i, b).Some?
    ensures OthersSame(v0, w, i)
    ensures forall b {:trigger File(i, b)} ::
              File(i, b) && 0 <= b < MAXFILE && off / BSIZE <= b && b * BSIZE < off + end ==> w.View(i, b).Some?
  {
    forall b {:trigger File(i, b)} | File(i, b) && 0 <= b < MAXFILE && off / BSIZE <= b && b * BSIZE < off + end
      ensures w.View(i, b).Some?
    {
      if b != bn {
        assert b < bn && b * BSIZE < off + tot;
      }
    }
  }

  // Byte p after the copy.
  lemma ByteMore(v: Vol, w: Vol, i: nat, bn: nat, o: nat, src: seq<Byte>, tot: nat, m: nat, p: nat)
    requires i < |v.addrs| && bn < MAXFILE && o + m <= BSIZE && tot + m <= |src| && p < MAXBYTES
    requires v.ValidPlace(PlaceOf(i, bn)) && v.View(i, bn).Some?
    requires SameViews(v, w, i, bn, Some(Overlay(v.View(i, bn).value, o, src, tot, m)))
    ensures v.ValidPlace(PlaceOf(i, p / BSIZE)) && w.ValidPlace(PlaceOf(i, p / BSIZE))
    ensures Get(w, i, p) ==
              if bn * BSIZE + o <= p < bn * BSIZE + o + m then src[tot + (p - bn * BSIZE) - o] else Get(v, i, p)
  {
    assert File(i, p / BSIZE);
    if p / BSIZE == bn {
      OverlayAt(v.View(i, bn).value, o, src, tot, m, p % BSIZE);
    }
  }

  lemma OverlayAt(blk: ByteBlock, o: nat, src: seq<Byte>, tot: nat, m: nat, q: nat)
    requires o + m <= BSIZE && tot + m <= |src| && q < BSIZE
    ensures Overlay(blk, o, src, tot, m)[q] == if o <= q < o + m then src[tot + q - o] else blk[q]
  {
  }

  // ------------------------------------------------------- counting blocks

  // After k file blocks, at most k data blocks, one bitmap block for each
  // allocation and the indirect block have been logged. With an offset inside
  // a block the first file block exists already and needs no allocation.
  ghost predicate Budget(logged0: set<nat>, logged: set<nat>, D: set<nat>, B: set<nat>, ind0: nat, ind: nat, k: nat,
                         off: nat) {
    && logged <= logged0 + D + B + IndOf(ind)
    && |D| <= k
    && |B| <= k - (if off % BSIZE != 0 && k > 0 then 1 else 0) + (if ind0 == 0 && ind != 0 then 1 else 0)
    && (ind0 != 0 ==> ind == ind0)
  }

  lemma BudgetNext(logged0: set<nat>, logged: set<nat>, logged': set<nat>, D: set<nat>, B: set<nat>, bm: set<nat>,
                   a: nat, ind0: nat, ind: nat, ind': nat, k: nat, off: nat, isNew: bool)
    requires Budget(logged0, logged, D, B, ind0, ind, k, off)
    requires logged' <= logged + bm + {a} + IndOf(ind')
    requires ind != 0 ==> ind' == ind
    requires |bm| <= (if isNew then 1 else 0) + (if ind == 0 && ind' != 0 then 1 else 0)
    requires k == 0 && off % BSIZE != 0 ==> !isNew
    ensures Budget(logged0, logged', D + {a}, B + bm, ind0, ind', k + 1, off)
  {
    assert |D + {a}| <= |D| + 1;
    CardUnion(B, bm);
  }

  lemma CardUnion(A: set<nat>, B: set<nat>)
    ensures |A + B| <= |A| + |B|
  {
    assert A + B == A + (B - A);
    assert |B| == |B - A| + |B * A| by {
      assert B == (B - A) + (B * A);
    }
  }

  // A write that visits k file blocks logs at most 2k + 3 blocks, one fewer
  // when it starts inside a block.
  lemma BudgetTotal(logged0: set<nat>, logged: set<nat>, D: set<nat>, B: set<nat>, ind0: nat, ind: nat, k: nat,
                    off: nat, iblock: nat)
    requires Budget(logged0, logged, D, B, ind0, ind, k, off)
    ensures |(logged + {iblock}) - logged0| <= 2 * k + 3 - if off % BSIZE != 0 && k > 0 then 1 else 0
  {
    var W := D + B + IndOf(ind) + {iblock};
    CardUnion(D + B + IndOf(ind), {iblock});
    CardUnion(D + B, IndOf(ind));
    CardUnion(D, B);
    CardSubset((logged + {iblock}) - logged0, W);
  }

  // Three blocks' worth of bytes span at most four file blocks, and only
  // three when they start at a block boundary: never more than MAXOPBLOCKS.
  lemma ChunkFits(logged0: set<nat>, logged: set<nat>, D: set<nat>, B: set<nat>, ind0: nat, ind: nat, k: nat, off: nat,
                  n: nat, iblock: nat)
    requires Budget(logged0, logged, D, B, ind0, ind, k, off)
    requires k > 0 ==> (k - 1) * BSIZE < off % BSIZE + n
    ensures n <= 3 * BSIZE ==> |(logged + {iblock}) - logged0| <= MAXOPBLOCKS
  {
    BudgetTotal(logged0, logged, D, B, ind0, ind, k, off, iblock);
  }

  // ------------------------------------------------------------ the methods

  // The file blocks of inode i from number `from` on are where the call found
  // them, and none of them has been logged since.
  ghost predicate Ahead(v0: Vol, v: Vol, i: nat, from: nat, logged0: set<nat>, logged: set<nat>) {
    && logged0 <= logged
    && forall bn {:trigger File(i, bn)} :: File(i, bn) && from <= bn < MAXFILE ==>
         && v0.ValidPlace(PlaceOf(i, bn)) && v.ValidPlace(PlaceOf(i, bn)) && v.BlockOf(i, bn) == v0.BlockOf(i, bn)
         && (v0.BlockOf(i, bn) != 0 && v0.BlockOf(i, bn) in logged ==> v0.BlockOf(i, bn) in logged0)
  }

  // a is the block of file block bn. If it was so before the call it is logged
  // only if it was; if it is new it is logged.
  ghost predicate Found(v0: Vol, i: nat, bn: nat, a: nat, logged0: set<nat>, logged: set<nat>) {
    && bn < MAXFILE && v0.ValidPlace(PlaceOf(i, bn)) && (v0.BlockOf(i, bn) == 0 || v0.BlockOf(i, bn) == a)
    && (a in logged <==> v0.BlockOf(i, bn) == 0 || a in logged0)
  }

  lemma AheadNone(v: Vol, nmeta: nat, i: nat, from: nat, logged: set<nat>)
    requires v.Own(nmeta, 0, 0) && i < |v.addrs|
    ensures Ahead(v, v, i, from, logged, logged)
  {
    forall bn {:trigger File(i, bn)} | File(i, bn) && from <= bn < MAXFILE ensures v.ValidPlace(PlaceOf(i, bn)) {
      BlockOfOk(v, nmeta, i, bn);
    }
  }

  // bmap of file block bn logs nothing that lies ahead.
  lemma AheadMapped(v0: Vol, v1: Vol, v: Vol, nmeta: nat, i: nat, bn: nat, val: Option<ByteBlock>, a: nat, bm: set<nat>,
                    ind: nat, logged0: set<nat>, logged1: set<nat>, logged: set<nat>)
    requires Ahead(v0, v1, i, bn, logged0, logged1) && bn < MAXFILE && i < |v1.addrs| == |v.addrs|
    requires v.Own(nmeta, 0, 0) && SameViews(v1, v, i, bn, val) && v1.ValidPlace(PlaceOf(i, bn))
    requires v.ValidPlace(PlaceOf(i, bn)) && v.BlockOf(i, bn) == a != 0 && v.addrs[i][NDIRECT] == ind
    requires v1.BlockOf(i, bn) != 0 ==> v == v1 && logged == logged1
    requires logged1 <= logged <= logged1 + bm + {a} + IndOf(ind) && forall x :: x in bm ==> x < nmeta
    requires v1.BlockOf(i, bn) == 0 ==> a in logged
    ensures Ahead(v0, v, i, bn + 1, logged0, logged) && Found(v0, i, bn, a, logged0, logged)
  {
    assert File(i, bn);
    forall b {:trigger File(i, b)} | File(i, b) && bn < b < MAXFILE
      ensures v0.ValidPlace(PlaceOf(i, b)) && v.ValidPlace(PlaceOf(i, b)) && v.BlockOf(i, b) == v0.BlockOf(i, b)
      ensures v0.BlockOf(i, b) != 0 && v0.BlockOf(i, b) in logged ==> v0.BlockOf(i, b) in logged0
    {
      var c := v.BlockOf(i, b);
      if c != 0 { NotLogged(v, nmeta, i, bn, b); }
    }
  }

  // Block b of the file is neither metadata, nor its indirect block, nor block bn.
  lemma NotLogged(v: Vol, nmeta: nat, i: nat, bn: nat, b: nat)
    requires v.Own(nmeta, 0, 0) && bn < MAXFILE && b < MAXFILE && b != bn
    requires v.ValidPlace(PlaceOf(i, bn)) && v.ValidPlace(PlaceOf(i, b)) && v.BlockOf(i, b) != 0
    ensures v.BlockOf(i, b) >= nmeta && v.BlockOf(i, b) != v.BlockOf(i, bn) && v.BlockOf(i, b) != v.addrs[i][NDIRECT]
  {
    var p := PlaceOf(i, b);
    NoSharing(v, nmeta, p, p);
    if v.BlockOf(i, b) == v.BlockOf(i, bn) { NoSharing(v, nmeta, p, PlaceOf(i, bn)); }
    if v.BlockOf(i, b) == v.addrs[i][NDIRECT] { NoSharing(v, nmeta, p, Indirect(i)); }
  }

  // Logging file block bn logs none after it.
  lemma AheadCopied(v0: Vol, v1: Vol, v: Vol, nmeta: nat, i: nat, bn: nat, val: Option<ByteBlock>, a: nat,
                    logged0: set<nat>, logged: set<nat>)
    requires Ahead(v0, v1, i, bn + 1, logged0, logged) && i < |v1.addrs|
    requires v.Own(nmeta, 0, 0) && SameViews(v1, v, i, bn, val) && bn < MAXFILE
    requires v.ValidPlace(PlaceOf(i, bn)) && v.BlockOf(i, bn) == a
    ensures Ahead(v0, v, i, bn + 1, logged0, logged + {a})
  {
    forall b {:trigger File(i, b)} | File(i, b) && bn < b < MAXFILE
      ensures v.ValidPlace(PlaceOf(i, b)) && v.BlockOf(i, b) == v0.BlockOf(i, b)
      ensures v0.BlockOf(i, b) != 0 ==> v0.BlockOf(i, b) != a
    {
      if v.BlockOf(i, b) != 0 { NotLogged(v, nmeta, i, bn, b); }
    }
  }

  // The state of writei's loop: k file blocks visited, tot bytes stored.
  ghost predicate WriteLoop(fs: FileSystem, ip: Inode, v0: Vol, logged0: set<nat>, ind0: nat, off: nat, src: seq<Byte>,
                            tot: nat, k: nat, D: set<nat>, B: set<nat>)
    reads fs, ip
  {
    forall h {:trigger Open(h)} :: Open(h) ==>
      && fs.Inv() && fs.InCore(ip) && ip.inum < |v0.addrs| && Leads(v0, fs.v)
      && Stored(v0, fs.v, ip.inum, off, src, tot)
      && Budget(logged0, fs.logged, D, B, ind0, ip.addrs[NDIRECT], k, off)
  }

  lemma WriteLoopHas(fs: FileSystem, ip: Inode, v0: Vol, logged0: set<nat>, ind0: nat, off: nat, src: seq<Byte>,
                     tot: nat, k: nat, D: set<nat>, B: set<nat>)
    requires WriteLoop(fs, ip, v0, logged0, ind0, off, src, tot, k, D, B)
    ensures fs.Inv() && fs.InCore(ip) && ip.inum < |v0.addrs| && Leads(v0, fs.v)
    ensures Stored(v0, fs.v, ip.inum, off, src, tot)
    ensures Budget(logged0, fs.logged, D, B, ind0, ip.addrs[NDIRECT], k, off)
  {
    assert Open(0);
  }

  lemma WriteLoopIs(fs: FileSystem, ip: Inode, v0: Vol, logged0: set<nat>, ind0: nat, off: nat, src: seq<Byte>,
                    tot: nat, k: nat, D: set<nat>, B: set<nat>)
    requires fs.Inv() && fs.InCore(ip) && ip.inum < |v0.addrs| && Leads(v0, fs.v)
    requires Stored(v0, fs.v, ip.inum, off, src, tot)
    requires Budget(logged0, fs.logged, D, B, ind0, ip.addrs[NDIRECT], k, off)
    ensures WriteLoop(fs, ip, v0, logged0, ind0, off, src, tot, k, D, B)
  {
  }

  // Where the loop stands after k file blocks and tot bytes.
  ghost predicate Progress(off: nat, n: nat, tot: nat, k: nat) {
    && tot <= n && (tot == 0 <==> k == 0)
    && (0 < tot < n ==> off % BSIZE + tot == k * BSIZE)
    && (k > 0 ==> (k - 1) * BSIZE < off % BSIZE + n)
  }

  lemma ProgressStops(off: nat, n: nat, avail: nat, tot: nat, k: nat)
    requires Progress(off, n, tot, k) && tot <= avail
    ensures tot == n ==> CopyStops(off, n, avail, tot)
    ensures tot < n && tot + Min(n - tot, BSIZE - (off + tot) % BSIZE) > avail ==> CopyStops(off, n, avail, tot)
  {
    if tot < n {
      ProgressNext(off, n, tot, k);
    }
  }

  lemma ProgressNext(off: nat, n: nat, tot: nat, k: nat)
    requires Progress(off, n, tot, k) && tot < n
    ensures var m := Min(n - tot, BSIZE - (off + tot) % BSIZE);
            && 0 < m && Progress(off, n, tot + m, k + 1)
            && (tot > 0 ==> (off + tot) % BSIZE == 0)
            && k * BSIZE < off % BSIZE + n
  {
    if tot > 0 {
      assert off + tot == off / BSIZE * BSIZE + k * BSIZE;
      assert (off + tot) % BSIZE == 0 by {
        MultipleMod(off / BSIZE + k);
      }
    }
  }

  // What lies at the end of a block.
  lemma NextBlock(p: nat)
    ensures (p + (BSIZE - p % BSIZE)) / BSIZE == p / BSIZE + 1
  {
    assert p + (BSIZE - p % BSIZE) == (p / BSIZE + 1) * BSIZE;
  }

  lemma MultipleMod(q: nat)
    ensures q * BSIZE % BSIZE == 0
  {
  }

  // Blocks have been allocated since v0 until none was left.
  ghost predicate RanOut(fs: FileSystem, v0: Vol)
    reads fs
  {
    fs.Inv() && Leads(v0, fs.v) && fs.Full()
  }

  ghost predicate Unmapped(v: Vol, i: nat, bn: nat) {
    bn < MAXFILE && v.ValidPlace(PlaceOf(i, bn)) && v.BlockOf(i, bn) == 0
  }

  // The bmap of one pass.
  method MapOne(fs: FileSystem, ip: Inode, off: nat, ghost src: seq<Byte>, tot: nat,
                ghost v0: Vol, ghost logged0: set<nat>, ghost ind0: nat, ghost k: nat, ghost D: set<nat>,
                ghost B: set<nat>)
    returns (r: Option<nat>, ghost D': set<nat>, ghost B': set<nat>)
    requires WriteLoop(fs, ip, v0, logged0, ind0, off, src, tot, k, D, B) && off + tot < MAXBYTES
    requires k == 0 ==> tot == 0
    requires k == 0 && off % BSIZE != 0 ==>
              fs.v.ValidPlace(PlaceOf(ip.inum, off / BSIZE)) && fs.v.View(ip.inum, off / BSIZE).Some?
    requires Ahead(v0, fs.v, ip.inum, (off + tot) / BSIZE, logged0, fs.logged)
    modifies fs`bitmap, fs`data, fs`v, fs`logged, ip`addrs
    ensures r.None? ==> RanOut(fs, v0) && Unmapped(v0, ip.inum, (off + tot) / BSIZE)
    ensures old(fs.AllLogged()) ==> fs.AllLogged()
    ensures r.Some? ==> Ahead(v0, fs.v, ip.inum, (off + tot) / BSIZE + 1, logged0, fs.logged)
    ensures r.Some? ==> Found(v0, ip.inum, (off + tot) / BSIZE, r.value, logged0, fs.logged)
    ensures r.Some? ==> WriteLoop(fs, ip, v0, logged0, ind0, off, src, tot, k + 1, D', B') && r.value in D'
    ensures r.Some? ==>
              var p := PlaceOf(ip.inum, (off + tot) / BSIZE); fs.v.ValidPlace(p) && fs.v.Val(p) == r.value != 0
  {
    WriteLoopHas(fs, ip, v0, logged0, ind0, off, src, tot, k, D, B);
    var bn := (off + tot) / BSIZE;
    ghost var v1, logged1, ind := fs.v, fs.logged, ip.addrs[NDIRECT];
    ghost var bm;
    BlockOfOk(fs.v, fs.nmeta, ip.inum, bn);
    ghost var isNew := v1.BlockOf(ip.inum, bn) == 0;
    assert k == 0 && off % BSIZE != 0 ==> bn == off / BSIZE && !isNew;
    assert File(ip.inum, bn);
    r, bm := fs.Bmap(ip, bn);
    D', B' := D, B;
    if r.Some? {
      D', B' := D + {r.value}, B + bm;
      BudgetNext(logged0, logged1, fs.logged, D, B, bm, r.value, ind0, ind, ip.addrs[NDIRECT], k, off, isNew);
      StoredMapped(v0, v1, fs.v, ip.inum, bn, off, src, tot);
      LeadsThen(v0, v1, fs.v);
      AheadMapped(v0, v1, fs.v, fs.nmeta, ip.inum, bn, Mapped(v1.View(ip.inum, bn)), r.value, bm, ip.addrs[NDIRECT],
                  logged0, logged1, fs.logged);
      WriteLoopIs(fs, ip, v0, logged0, ind0, off, src, tot, k + 1, D', B');
    } else {
      LeadsThen(v0, v1, fs.v);
    }
  }

  // The copy and log_write of one pass.
  method CopyOne(fs: FileSystem, ip: Inode, off: nat, src: seq<Byte>, tot: nat, m: nat, ghost end: nat, a: nat,
                 ghost v0: Vol, ghost logged0: set<nat>, ghost ind0: nat, ghost k: nat, ghost D: set<nat>,
                 ghost B: set<nat>)
    requires WriteLoop(fs, ip, v0, logged0, ind0, off, src, tot, k, D, B) && a in D && end == tot + m
    requires 0 < m && tot + m <= |src| && off + tot + m <= MAXBYTES && (off + tot) % BSIZE + m <= BSIZE
    requires tot > 0 ==> (off + tot) % BSIZE == 0
    requires var p := PlaceOf(ip.inum, (off + tot) / BSIZE); fs.v.ValidPlace(p) && fs.v.Val(p) == a != 0
    requires Ahead(v0, fs.v, ip.inum, (off + tot) / BSIZE + 1, logged0, fs.logged)
    modifies fs`data, fs`v, fs`logged
    ensures WriteLoop(fs, ip, v0, logged0, ind0, off, src, end, k, D, B)
    ensures Ahead(v0, fs.v, ip.inum, (off + tot) / BSIZE + 1, logged0, fs.logged)
    ensures old(fs.AllLogged()) ==> fs.AllLogged()
  {
    WriteLoopHas(fs, ip, v0, logged0, ind0, off, src, tot, k, D, B);
    var bn := (off + tot) / BSIZE;
    BlockOfOk(fs.v, fs.nmeta, ip.inum, bn);
    ghost var v1, logged1 := fs.v, fs.logged;
    var blk := Overlay(fs.data[a], (off + tot) % BSIZE, src, tot, m);
    fs.Overwrite(ip, bn, a, blk);
    StoredMore(v0, v1, fs.v, ip.inum, off, src, tot, m, end);
    LeadsThen(v0, v1, fs.v);
    AheadCopied(v0, v1, fs.v, fs.nmeta, ip.inum, bn, Some(blk), a, logged0, logged1);
    WriteLoopIs(fs, ip, v0, logged0, ind0, off, src, end, k, D, B);
  }

  // The last pass when its copy fails: what could be read is in the buffer,
  // and log_write is not called.
  method CopyPart(fs: FileSystem, ip: Inode, off: nat, src: seq<Byte>, tot: nat, m: nat, ghost end: nat, a: nat,
                  ghost v0: Vol, ghost logged0: set<nat>, ghost ind0: nat, ghost k: nat, ghost D: set<nat>,
                  ghost B: set<nat>)
    returns (ghost stray: set<nat>)
    requires WriteLoop(fs, ip, v0, logged0, ind0, off, src, tot, k, D, B) && end == tot + m
    requires tot + m <= |src| && off + tot + m < MAXBYTES && (off + tot) % BSIZE + m <= BSIZE
    requires tot > 0 ==> (off + tot) % BSIZE == 0
    requires var p := PlaceOf(ip.inum, (off + tot) / BSIZE); fs.v.ValidPlace(p) && fs.v.Val(p) == a != 0
    modifies fs`data, fs`v
    ensures WriteLoop(fs, ip, v0, logged0, ind0, off, src, end, k, D, B)
    ensures stray == if m > 0 then {a} else {}
    ensures fs.HasBlock(ip.inum, (off + tot) / BSIZE) && fs.v.BlockOf(ip.inum, (off + tot) / BSIZE) == a
    ensures old(fs.AllLogged()) ==> fs.AllLoggedBut(stray)
  {
    stray := {};
    WriteLoopHas(fs, ip, v0, logged0, ind0, off, src, tot, k, D, B);
    if m > 0 {
      var bn := (off + tot) / BSIZE;
      BlockOfOk(fs.v, fs.nmeta, ip.inum, bn);
      ghost var v1 := fs.v;
      fs.Fill(ip, bn, a, Overlay(fs.data[a], (off + tot) % BSIZE, src, tot, m));
      StoredMore(v0, v1, fs.v, ip.inum, off, src, tot, m, end);
      LeadsThen(v0, v1, fs.v);
      WriteLoopIs(fs, ip, v0, logged0, ind0, off, src, end, k, D, B);
      stray := {a};
    } else {
      assert fs.logged + {} == fs.logged;
    }
  }

  datatype WriteResult = Panic | Refused | Wrote(tot: nat)

  // How many of n bytes at off get copied when only the first avail can be
  // read: whole pieces, each up to a block boundary.
  ghost predicate CopyStops(off: nat, n: nat, avail: nat, tot: nat) {
    && tot <= n
    && (tot == n <==> n <= avail)
    && (tot < n ==> tot <= avail < tot + Min(n - tot, BSIZE - (off + tot) % BSIZE))
    && (0 < tot < n ==> (off + tot) % BSIZE == 0)
  }

  // The checks at the head of writei, in 32-bit arithmetic.
  predicate Rejects(size: nat, off: nat, n: nat) {
    off > size || (off + n) % UINT < off || off + n > MAXBYTES
  }

  // The block that was changed but not passed to log_write: the one of a piece
  // whose copy failed part way.
  ghost predicate StrayIs(fs: FileSystem, ip: Inode, v0: Vol, logged0: set<nat>, off: nat, n: nat, avail: nat,
                          tot: nat, stray: set<nat>)
    reads fs, ip
  {
    if tot < avail < n then
      var bn := (off + tot) / BSIZE;
      && fs.HasBlock(ip.inum, bn) && stray == {fs.v.BlockOf(ip.inum, bn)}
      && Found(v0, ip.inum, bn, fs.v.BlockOf(ip.inum, bn), logged0, fs.logged)
    else stray == {}
  }

  // One pass of writei's loop. It stops the loop when its copy fails.
  method WriteOne(fs: FileSystem, ip: Inode, off: nat, src: seq<Byte>, avail: nat, tot: nat, m: nat,
                  ghost v0: Vol, ghost logged0: set<nat>, ghost ind0: nat, ghost k: nat, ghost D: set<nat>,
                  ghost B: set<nat>)
    returns (ok: bool, ghost D': set<nat>, ghost B': set<nat>, ghost stray: set<nat>)
    requires WriteLoop(fs, ip, v0, logged0, ind0, off, src, tot, k, D, B) && (k == 0 ==> tot == 0)
    requires 0 < m && tot + m <= |src| && off + tot + m <= MAXBYTES && (off + tot) % BSIZE + m <= BSIZE && tot <= avail
    requires tot > 0 ==> (off + tot) % BSIZE == 0
    requires k == 0 && off % BSIZE != 0 ==>
              fs.v.ValidPlace(PlaceOf(ip.inum, off / BSIZE)) && fs.v.View(ip.inum, off / BSIZE).Some?
    requires Ahead(v0, fs.v, ip.inum, (off + tot) / BSIZE, logged0, fs.logged)
    modifies fs`bitmap, fs`data, fs`v, fs`logged, ip`addrs
    ensures !ok ==> RanOut(fs, v0) && Unmapped(v0, ip.inum, (off + tot) / BSIZE)
    ensures ok && tot + m <= avail ==> Ahead(v0, fs.v, ip.inum, (off + tot) / BSIZE + 1, logged0, fs.logged)
    ensures ok ==> WriteLoop(fs, ip, v0, logged0, ind0, off, src, Min(avail, tot + m), k + 1, D', B')
    ensures ok && old(fs.AllLogged()) ==> if tot + m <= avail then fs.AllLogged() else fs.AllLoggedBut(stray)
    ensures ok && avail < tot + m ==> StrayIs(fs, ip, v0, logged0, off, tot + m, avail, tot, stray)
  {
    var a;
    stray := {};
    ghost var end := Min(avail, tot + m);
    a, D', B' := MapOne(fs, ip, off, src, tot, v0, logged0, ind0, k, D, B);
    ok := a.Some?;
    if ok {
      if tot + m > avail {
        stray := CopyPart(fs, ip, off, src, tot, avail - tot, end, a.value, v0, logged0, ind0, k + 1, D', B');
      } else {
        CopyOne(fs, ip, off, src, tot, m, end, a.value, v0, logged0, ind0, k + 1, D', B');
      }
    }
  }

  // One turn of the loop: the length of the piece, and the pass.
  method WriteTurn(fs: FileSystem, ip: Inode, off: nat, src: seq<Byte>, avail: nat, tot: nat, ghost bn: nat,
                   ghost v0: Vol, ghost logged0: set<nat>, ghost ind0: nat, ghost k: nat, ghost D: set<nat>,
                   ghost B: set<nat>)
    returns (ok: bool, more: bool, tot': nat, ghost D': set<nat>, ghost B': set<nat>, ghost stray: set<nat>)
    requires WriteLoop(fs, ip, v0, logged0, ind0, off, src, tot, k, D, B) && Progress(off, |src|, tot, k)
    requires tot < |src| && tot <= avail && off + |src| <= MAXBYTES && bn == (off + tot) / BSIZE
    requires k == 0 && off % BSIZE != 0 ==>
              fs.v.ValidPlace(PlaceOf(ip.inum, off / BSIZE)) && fs.v.View(ip.inum, off / BSIZE).Some?
    requires Ahead(v0, fs.v, ip.inum, bn, logged0, fs.logged)
    modifies fs`bitmap, fs`data, fs`v, fs`logged, ip`addrs
    ensures !ok ==> RanOut(fs, v0) && Unmapped(v0, ip.inum, bn)
    ensures ok && more ==> tot < tot' <= avail && Progress(off, |src|, tot', k + 1)
    ensures ok && more ==> WriteLoop(fs, ip, v0, logged0, ind0, off, src, tot', k + 1, D', B')
    ensures ok && more ==> Ahead(v0, fs.v, ip.inum, bn + 1, logged0, fs.logged)
    ensures ok && more ==> (tot' < |src| ==> bn + 1 == (off + tot') / BSIZE) && (old(fs.AllLogged()) ==> fs.AllLogged())
    ensures ok && !more ==> tot' == tot && CopyStops(off, |src|, avail, tot) && k * BSIZE < off % BSIZE + |src|
    ensures ok && !more ==> WriteLoop(fs, ip, v0, logged0, ind0, off, src, Min(avail, |src|), k + 1, D', B')
    ensures ok && !more ==> StrayIs(fs, ip, v0, logged0, off, |src|, avail, tot, stray)
    ensures ok && !more ==> (old(fs.AllLogged()) ==> fs.AllLoggedBut(stray))
  {
    ProgressNext(off, |src|, tot, k);
    ProgressStops(off, |src|, avail, tot, k);
    var m := Min(|src| - tot, BSIZE - (off + tot) % BSIZE);
    ok, D', B', stray := WriteOne(fs, ip, off, src, avail, tot, m, v0, logged0, ind0, k, D, B);
    more := tot + m <= avail;
    tot' := if more then tot + m else tot;
    NextBlock(off + tot);
  }

  // Some file block that the write reaches is not mapped.
  ghost predicate SomeUnmapped(v: Vol, i: nat, off: nat, n: nat) {
    exists bn :: off / BSIZE <= bn && bn * BSIZE < off + n && Unmapped(v, i, bn)
  }

  // The loop of writei.
  method WriteBlocks(fs: FileSystem, ip: Inode, off: nat, src: seq<Byte>, avail: nat)
    returns (ok: bool, tot: nat, ghost k: nat, ghost D: set<nat>, ghost B: set<nat>, ghost stray: set<nat>)
    requires fs.Inv() && fs.InCore(ip) && off + |src| <= MAXBYTES
    requires off % BSIZE != 0 ==>
              fs.v.ValidPlace(PlaceOf(ip.inum, off / BSIZE)) && fs.v.View(ip.inum, off / BSIZE).Some?
    modifies fs`bitmap, fs`data, fs`v, fs`logged, ip`addrs
    ensures !ok ==> RanOut(fs, old(fs.v)) && SomeUnmapped(old(fs.v), ip.inum, off, |src|)
    ensures ok ==>
              WriteLoop(fs, ip, old(fs.v), old(fs.logged), old(ip.addrs[NDIRECT]), off, src, Min(avail, |src|), k, D, B)
    ensures ok ==> CopyStops(off, |src|, avail, tot) && (k > 0 ==> (k - 1) * BSIZE < off % BSIZE + |src|)
    ensures ok ==> StrayIs(fs, ip, old(fs.v), old(fs.logged), off, |src|, avail, tot, stray)
    ensures ok && old(fs.AllLogged()) ==> fs.AllLoggedBut(stray)
  {
    var n := |src|;
    ghost var v0, logged0, ind0 := fs.v, fs.logged, ip.addrs[NDIRECT];
    StoredNone(v0, fs.nmeta, ip.inum, off, src);
    LeadsNone(v0);
    ghost var bn: nat := off / BSIZE;
    AheadNone(v0, fs.nmeta, ip.inum, bn, logged0);
    WriteLoopIs(fs, ip, v0, logged0, ind0, off, src, 0, 0, {}, {});
    ok, tot, k, D, B, stray := true, 0, 0, {}, {}, {};
    var more := true;
    while tot < n && more
      invariant ok && more && tot <= avail && stray == {} && Progress(off, n, tot, k) && (k == 0 ==> fs.v == v0)
      invariant WriteLoop(fs, ip, v0, logged0, ind0, off, src, tot, k, D, B)
      invariant Ahead(v0, fs.v, ip.inum, bn, logged0, fs.logged) && (tot < n ==> bn == (off + tot) / BSIZE)
      invariant old(fs.AllLogged()) ==> fs.AllLogged()
      decreases n - tot
    {
      assert off / BSIZE <= bn && bn * BSIZE < off + n;
      ok, more, tot, D, B, stray := WriteTurn(fs, ip, off, src, avail, tot, bn, v0, logged0, ind0, k, D, B);
      k := k + 1;
      if !ok || !more { return; }
      stray, bn := {}, bn + 1;
    }
    ProgressStops(off, n, avail, tot, k);
    assert fs.logged + {} == fs.logged;
  }

  // Where the piece that holds byte off + avail of the file begins.
  function PieceStart(off: nat, avail: nat): nat {
    if off / BSIZE == (off + avail) / BSIZE then off else (off + avail) / BSIZE * BSIZE
  }

  /**
    When a write leaves a change that is not logged: the bytes that can be read
    end inside a piece, and that piece falls into a block that the file had
    before, that was not logged yet, and whose bytes the copy alters.
   */
  ghost predicate Spoils(v0: Vol, i: nat, logged0: set<nat>, off: nat, src: seq<Byte>, avail: nat) {
    && 0 < avail < |src| && (off + avail) % BSIZE != 0 && off + |src| <= MAXBYTES
    && var bn := (off + avail) / BSIZE;
    && v0.ValidPlace(PlaceOf(i, bn)) && v0.BlockOf(i, bn) != 0 && v0.BlockOf(i, bn) !in logged0
    && exists p :: PieceStart(off, avail) <= p < off + avail && src[p - off] != Get(v0, i, p)
  }

  lemma CutIs(off: nat, n: nat, avail: nat, tot: nat)
    requires CopyStops(off, n, avail, tot)
    ensures tot < avail < n <==> 0 < avail < n && (off + avail) % BSIZE != 0
    ensures tot < avail < n ==> off + tot == PieceStart(off, avail) && (off + tot) / BSIZE == (off + avail) / BSIZE
  {
    if tot < avail < n {
      var q, x := (off + tot) / BSIZE, (off + tot) % BSIZE;
      assert off + avail == q * BSIZE + (x + avail - tot) && x + avail - tot < BSIZE;
      InBlock(q, x + avail - tot);
    }
  }

  lemma InBlock(q: nat, x: nat)
    requires x < BSIZE
    ensures (q * BSIZE + x) / BSIZE == q && (q * BSIZE + x) % BSIZE == x
  {
  }

  // The copy alters block a, or not.
  lemma Altered(v0: Vol, v: Vol, i: nat, off: nat, src: seq<Byte>, avail: nat, bn: nat, a: nat)
    requires i < |v0.addrs| && Stored(v0, v, i, off, src, avail) && avail < |src| && off + |src| <= MAXBYTES
    requires bn == (off + avail) / BSIZE && v0.ValidPlace(PlaceOf(i, bn)) && v.ValidPlace(PlaceOf(i, bn))
    requires v0.BlockOf(i, bn) == v.BlockOf(i, bn) == a != 0 && a < |v0.data| == |v.data|
    ensures v.data[a] == v0.data[a] <==>
              forall p :: PieceStart(off, avail) <= p < off + avail ==> src[p - off] == Get(v0, i, p)
  {
    assert Open(0);
    if v.data[a] == v0.data[a] {
      forall p | PieceStart(off, avail) <= p < off + avail ensures src[p - off] == Get(v0, i, p) {
        assert Index(p) && p / BSIZE == bn;
      }
    }
    if forall p :: PieceStart(off, avail) <= p < off + avail ==> src[p - off] == Get(v0, i, p) {
      forall q | 0 <= q < BSIZE ensures v.data[a][q] == v0.data[a][q] {
        InBlock(bn, q);
        var p := bn * BSIZE + q;
        assert Index(p) && (off <= p < off + avail ==> PieceStart(off, avail) <= p);
        assert v.data[a][q] == Get(v, i, p) && v0.data[a][q] == Get(v0, i, p);
      }
    }
  }

  // What writei leaves unlogged, from the state before it and after it.
  lemma StrayExact(base: Snapshot, now0: Snapshot, now: Snapshot, v0: Vol, v: Vol, nmeta: nat, bb: nat, ib: nat, i: nat,
                   logged0: set<nat>, logged: set<nat>, off: nat, src: seq<Byte>, avail: nat, a: nat)
    requires i < |v0.addrs| && Stored(v0, v, i, off, src, avail) && 0 < avail < |src| && off + |src| <= MAXBYTES
    requires (off + avail) % BSIZE != 0 && v.Own(nmeta, 0, 0)
    requires v.ValidPlace(PlaceOf(i, (off + avail) / BSIZE)) && v.BlockOf(i, (off + avail) / BSIZE) == a != 0
    requires Found(v0, i, (off + avail) / BSIZE, a, logged0, logged)
    requires now0.data == v0.data && now.data == v.data && bb + |now.bitmap| <= nmeta && ib + |now.dinode| / IPB < nmeta
    requires Covers(base, now0, logged0, bb, ib) && Covers(base, now, logged + {a}, bb, ib)
    ensures Covers(base, now, logged, bb, ib) <==> !Spoils(v0, i, logged0, off, src, avail)
  {
    var bn := (off + avail) / BSIZE;
    BlockOfOk(v, nmeta, i, bn);
    CoversBut(base, now, logged, bb, ib, a);
    if v0.BlockOf(i, bn) == a && a !in logged0 {
      assert Part(a);
      Altered(v0, v, i, off, src, avail, bn, a);
    }
  }

  /**
    writei. src holds the n bytes to write, of which the copy can read the
    first avail. The uint sum off + n wraps around. All the bytes that could be
    read are in the file's blocks, but the result counts whole pieces only, and
    the block of a piece cut short is not passed to log_write: every changed
    block is logged exactly if the write does not spoil.
   */
  method Writei(fs: FileSystem, ip: Inode, off: nat, src: seq<Byte>, avail: nat)
    returns (r: WriteResult, ghost stray: set<nat>)
    requires fs.Inv() && fs.InCore(ip) && HoleFree(fs.v, ip.inum, ip.size)
    requires off < UINT && |src| < UINT
    modifies fs`bitmap, fs`data, fs`v, fs`logged, fs`dinode, ip`addrs, ip`size
    ensures r.Refused? <==> Rejects(old(ip.size), off, |src|)
    ensures r.Refused? ==> unchanged(fs) && unchanged(ip) && stray == {}
    ensures r.Panic? ==> RanOut(fs, old(fs.v)) && SomeUnmapped(old(fs.v), ip.inum, off, |src|)
    ensures r.Wrote? ==> off <= old(ip.size) && off + |src| <= MAXBYTES
    ensures r.Wrote? ==> fs.Inv() && fs.InCore(ip) && CopyStops(off, |src|, avail, r.tot)
    ensures r.Wrote? ==> r.tot <= Min(avail, |src|) && Stored(old(fs.v), fs.v, ip.inum, off, src, Min(avail, |src|))
    ensures r.Wrote? ==> Leads(old(fs.v), fs.v)
    ensures r.Wrote? ==> (stray == {} <==> !(r.tot < avail < |src|)) && (old(fs.AllLogged()) ==> fs.AllLoggedBut(stray))
    ensures r.Wrote? && old(fs.AllLogged()) ==>
              (fs.AllLogged() <==> !Spoils(old(fs.v), ip.inum, old(fs.logged), off, src, avail))
    ensures r.Wrote? ==> ip.size == if off + r.tot > old(ip.size) then off + r.tot else old(ip.size)
    ensures r.Wrote? ==> HoleFree(fs.v, ip.inum, ip.size)
    ensures r.Wrote? ==> fs.dinode == old(fs.dinode)[ip.inum := ip.Copy()]
    ensures r.Wrote? && old(fs.OnDisk()) ==> fs.OnDisk() && Effect(fs.nmeta, old(fs.Now()), fs.Now())
    ensures r.Wrote? && |src| <= 3 * BSIZE ==> |fs.logged - old(fs.logged)| <= MAXOPBLOCKS
  {
    var n := |src|;
    if Rejects(ip.size, off, n) { return Refused, {}; }
    assert File(ip.inum, off / BSIZE);
    var ok, tot;
    ghost var k, D, B;
    ok, tot, k, D, B, stray := WriteBlocks(fs, ip, off, src, avail);
    if !ok { return Panic, {}; }
    FinishWrite(fs, ip, off, src, avail, tot, old(fs.v), old(fs.Now()), old(fs.logged), old(ip.addrs[NDIRECT]), k, D, B,
                stray);
    r := Wrote(tot);
  }

  // The end of writei, and what has been logged then.
  method FinishWrite(fs: FileSystem, ip: Inode, off: nat, ghost src: seq<Byte>, ghost avail: nat, tot: nat,
                     ghost v0: Vol, ghost now0: Snapshot, ghost logged0: set<nat>, ghost ind0: nat, ghost k: nat,
                     ghost D: set<nat>, ghost B: set<nat>, ghost stray: set<nat>)
    requires WriteLoop(fs, ip, v0, logged0, ind0, off, src, Min(avail, |src|), k, D, B) && now0.data == v0.data
    requires CopyStops(off, |src|, avail, tot) && (k > 0 ==> (k - 1) * BSIZE < off % BSIZE + |src|)
    requires HoleFree(v0, ip.inum, ip.size) && off <= ip.size
    requires off + |src| <= MAXBYTES && StrayIs(fs, ip, v0, logged0, off, |src|, avail, tot, stray)
    requires Covers(fs.base, now0, logged0, fs.bmapstart, fs.inodestart) ==> fs.AllLoggedBut(stray)
    requires v0.Own(fs.nmeta, 0, 0) && now0.dinode == fs.dinode && ip.inum < |fs.dinode|
    modifies fs`dinode, fs`logged, ip`size
    ensures Shows(now0, v0) ==> fs.OnDisk() && Effect(fs.nmeta, now0, fs.Now())
    ensures fs.Inv() && fs.InCore(ip) && HoleFree(fs.v, ip.inum, ip.size) && Leads(v0, fs.v)
    ensures Stored(v0, fs.v, ip.inum, off, src, Min(avail, |src|))
    ensures |src| <= 3 * BSIZE ==> |fs.logged - logged0| <= MAXOPBLOCKS
    ensures ip.size == if off + tot > old(ip.size) then off + tot else old(ip.size)
    ensures fs.dinode == old(fs.dinode)[ip.inum := ip.Copy()] && fs.logged == old(fs.logged) + {fs.IBlock(ip.inum)}
    ensures Covers(fs.base, now0, logged0, fs.bmapstart, fs.inodestart) ==> fs.AllLoggedBut(stray)
    ensures Covers(fs.base, now0, logged0, fs.bmapstart, fs.inodestart) ==>
              (fs.AllLogged() <==> !Spoils(v0, ip.inum, logged0, off, src, avail))
  {
    ghost var logged1 := fs.logged;
    WriteLoopHas(fs, ip, v0, logged0, ind0, off, src, Min(avail, |src|), k, D, B);
    ChunkFits(logged0, logged1, D, B, ind0, ip.addrs[NDIRECT], k, off, |src|, fs.IBlock(ip.inum));
    GrownHoleFree(v0, fs.v, ip.inum, off, src, Min(avail, |src|), tot, ip.size);
    GrowTo(fs, ip, off + tot, v0, off, src, Min(avail, |src|), stray);
    Unlogged(fs, ip, v0, now0, logged0, logged1, off, src, avail, tot, stray);
    if Shows(now0, v0) { EffectOf(fs.nmeta, now0, fs.Now(), v0, fs.v); }
  }

  // The end of writei, as far as logging goes.
  lemma Unlogged(fs: FileSystem, ip: Inode, v0: Vol, now0: Snapshot, logged0: set<nat>, logged1: set<nat>, off: nat,
                 src: seq<Byte>, avail: nat, tot: nat, stray: set<nat>)
    requires fs.Inv() && ip.inum < |v0.addrs| && ip.inum < |fs.v.addrs| && now0.data == v0.data
    requires Stored(v0, fs.v, ip.inum, off, src, Min(avail, |src|)) && CopyStops(off, |src|, avail, tot)
    requires off + |src| <= MAXBYTES && fs.logged == logged1 + {fs.IBlock(ip.inum)}
    requires if tot < avail < |src| then
               var bn := (off + tot) / BSIZE;
               && fs.HasBlock(ip.inum, bn) && stray == {fs.v.BlockOf(ip.inum, bn)}
               && Found(v0, ip.inum, bn, fs.v.BlockOf(ip.inum, bn), logged0, logged1)
             else stray == {}
    requires Covers(fs.base, now0, logged0, fs.bmapstart, fs.inodestart) ==> fs.AllLoggedBut(stray)
    ensures Covers(fs.base, now0, logged0, fs.bmapstart, fs.inodestart) ==>
              (fs.AllLogged() <==> !Spoils(v0, ip.inum, logged0, off, src, avail))
  {
    CutIs(off, |src|, avail, tot);
    if tot < avail < |src| && Covers(fs.base, now0, logged0, fs.bmapstart, fs.inodestart) {
      var bn := (off + tot) / BSIZE;
      BlockOfOk(fs.v, fs.nmeta, ip.inum, bn);
      assert fs.IBlock(ip.inum) < fs.nmeta by { InodeBlock(ip.inum, |fs.dinode|); }
      StrayExact(fs.base, now0, fs.Now(), v0, fs.v, fs.nmeta, fs.bmapstart, fs.inodestart, ip.inum,
                 logged0, fs.logged, off, src, avail, fs.v.BlockOf(ip.inum, bn));
    } else {
      assert fs.logged + {} == fs.logged;
    }
  }

  lemma InodeBlock(i: nat, n: nat)
    requires i < n
    ensures i / IPB <= n / IPB
  {
  }

  // The end of writei: the inode's size and its copy on disk.
  method GrowTo(fs: FileSystem, ip: Inode, end: nat, ghost v0: Vol, ghost off: nat, ghost src: seq<Byte>, ghost n: nat,
                ghost stray: set<nat>)
    requires fs.Inv() && fs.InCore(ip) && Stored(v0, fs.v, ip.inum, off, src, n)
    modifies fs`dinode, fs`logged, ip`size
    ensures fs.Inv() && fs.InCore(ip) && ip.size == if end > old(ip.size) then end else old(ip.size)
    ensures fs.dinode == old(fs.dinode)[ip.inum := ip.Copy()] && fs.logged == old(fs.logged) + {fs.IBlock(ip.inum)}
    ensures Named(old(fs.dinode), v0) ==> fs.OnDisk()
    ensures old(fs.AllLoggedBut(stray)) ==> fs.AllLoggedBut(stray)
  {
    if end > ip.size {
      ip.size := end;
    }
    fs.Iupdate(ip);
    assert Open(0);
    forall i | 0 <= i < |fs.dinode| && i != ip.inum ensures fs.v.addrs[i] == v0.addrs[i] {
      assert File(i, 0);
    }
  }

  // The inodes name the blocks they own.
  ghost predicate Named(dinode: seq<Dinode>, v: Vol) {
    && |v.addrs| == |dinode|
    && forall i {:trigger Part(i)} :: Part(i) && 0 <= i < |v.addrs| ==> dinode[i].addrs == v.addrs[i]
  }

  // A write that starts within the file leaves no hole.
  lemma GrownHoleFree(v0: Vol, v: Vol, i: nat, off: nat, src: seq<Byte>, copied: nat, tot: nat, size: nat)
    requires i < |v0.addrs| && Stored(v0, v, i, off, src, copied) && HoleFree(v0, i, size) && tot <= copied
    requires off <= size && off + tot <= MAXBYTES
    ensures HoleFree(v, i, if off + tot > size then off + tot else size)
  {
    assert Open(0);
    forall bn {:trigger File(i, bn)} |
      File(i, bn) && 0 <= bn < MAXFILE && bn * BSIZE < (if off + tot > size then off + tot else size)
      ensures v.View(i, bn).Some?
    {
      if bn * BSIZE >= size {
        assert off / BSIZE <= bn;
      }
    }
  }

  // The bytes of a file.
  ghost function Contents(v: Vol, i: nat, size: nat): (r: seq<Byte>)
    requires size <= MAXBYTES && forall p :: 0 <= p < size ==> v.ValidPlace(PlaceOf(i, p / BSIZE))
  {
    seq(size, p requires 0 <= p < size => Get(v, i, p))
  }

  /**
    What a write means for the files: of the bytes at off those that could be
    copied replace what was there, the file grows at its end and only by what
    is reported, every other file is as it was.
   */
  lemma WriteRefines(v0: Vol, v: Vol, i: nat, size: nat, off: nat, src: seq<Byte>, copied: nat, tot: nat, i': nat,
                     size': nat)
    requires i < |v0.addrs| && Stored(v0, v, i, off, src, copied) && tot <= copied
    requires off <= size <= MAXBYTES && off + copied <= MAXBYTES && copied <= |src|
    requires i' < |v0.addrs| && size' <= MAXBYTES
    ensures forall p :: 0 <= p < MAXBYTES ==>
              && v0.ValidPlace(PlaceOf(i, p / BSIZE)) && v.ValidPlace(PlaceOf(i, p / BSIZE))
              && v0.ValidPlace(PlaceOf(i', p / BSIZE)) && v.ValidPlace(PlaceOf(i', p / BSIZE))
    ensures var was, end := Contents(v0, i, size), if off + tot > size then off + tot else size;
            var full := was[..off] + src[..copied] + (if off + copied > size then [] else was[off + copied..]);
            end <= |full| && Contents(v, i, end) == full[..end]
    ensures i' != i ==> Contents(v, i', size') == Contents(v0, i', size')
  {
    assert Open(0);
    forall p | 0 <= p < MAXBYTES
      ensures v0.ValidPlace(PlaceOf(i, p / BSIZE)) && v.ValidPlace(PlaceOf(i, p / BSIZE))
      ensures v0.ValidPlace(PlaceOf(i', p / BSIZE)) && v.ValidPlace(PlaceOf(i', p / BSIZE))
      ensures Get(v, i, p) == if off <= p < off + copied then src[p - off] else Get(v0, i, p)
      ensures i' != i ==> Get(v, i', p) == Get(v0, i', p)
    {
      assert Index(p) && File(i', p / BSIZE);
    }
  }

  // One pass of readi: the bmap, which finds the block, and the copy out.
  method ReadOne(fs: FileSystem, ip: Inode, off: nat, m: nat) returns (piece: seq<Byte>)
    requires fs.Inv() && fs.InCore(ip) && HoleFree(fs.v, ip.inum, ip.size)
    requires 0 < m && off + m <= ip.size && off % BSIZE + m <= BSIZE
    modifies fs`bitmap, fs`data, fs`v, fs`logged, ip`addrs
    ensures unchanged(fs) && unchanged(ip)
    ensures forall p :: off <= p < off + m ==> fs.v.ValidPlace(PlaceOf(ip.inum, p / BSIZE))
    ensures |piece| == m && forall q :: 0 <= q < m ==> piece[q] == Get(fs.v, ip.inum, off + q)
  {
    var bn := off / BSIZE;
    assert File(ip.inum, bn);
    BlockOfOk(fs.v, fs.nmeta, ip.inum, bn);
    var r;
    ghost var bm;
    r, bm := fs.Bmap(ip, bn);
    piece := fs.data[r.value][off % BSIZE..off % BSIZE + m];
    forall q | 0 <= q < m ensures piece[q] == Get(fs.v, ip.inum, off + q) {
      assert (off + q) / BSIZE == bn && (off + q) % BSIZE == off % BSIZE + q;
    }
  }

  lemma SliceNext(c: seq<Byte>, dst: seq<Byte>, off: nat, mid: nat, end: nat, piece: seq<Byte>)
    requires off <= mid <= end <= |c| && dst == c[off..mid] && |piece| == end - mid
    requires forall q :: 0 <= q < end - mid ==> piece[q] == c[mid + q]
    ensures dst + piece == c[off..end]
  {
    assert piece == c[mid..end];
  }

  // The clamp at the head of readi, in 32-bit arithmetic.
  function ReadLen(size: nat, off: nat, n: nat): (len: nat) {
    if off > size || (off + n) % UINT < off then 0
    else if off + n > size then size - off
    else n
  }

  /**
    readi, of a hole-free file: returns exactly the bytes of the file in the
    range, allocates nothing and logs nothing, so it may run outside any
    operation. The copy out can store the first avail bytes; a failing piece
    makes the result -1.
   */
  method Readi(fs: FileSystem, ip: Inode, off: nat, n: nat, avail: nat) returns (r: int, dst: seq<Byte>)
    requires fs.Inv() && fs.InCore(ip) && HoleFree(fs.v, ip.inum, ip.size)
    requires off < UINT && n < UINT
    modifies fs`bitmap, fs`data, fs`v, fs`logged, ip`addrs
    ensures unchanged(fs) && unchanged(ip)
    ensures forall p :: 0 <= p < ip.size ==> fs.v.ValidPlace(PlaceOf(ip.inum, p / BSIZE))
    ensures r == if ReadLen(ip.size, off, n) <= avail then ReadLen(ip.size, off, n) else -1
    ensures off <= ip.size ==> dst <= Contents(fs.v, ip.inum, ip.size)[off..]
    ensures r >= 0 ==> |dst| == r
  {
    forall p | 0 <= p < ip.size ensures fs.v.ValidPlace(PlaceOf(ip.inum, p / BSIZE)) {
      assert File(ip.inum, p / BSIZE);
    }
    ghost var c := Contents(fs.v, ip.inum, ip.size);
    dst := [];
    if off > ip.size || (off + n) % UINT < off { return 0, []; }
    var len := if off + n > ip.size then ip.size - off else n;
    var tot := 0;
    while tot < len
      invariant 0 <= tot <= len && tot <= avail && |dst| == tot && dst == c[off..off + tot]
      invariant unchanged(fs) && unchanged(ip)
      decreases len - tot
    {
      var m := Min(len - tot, BSIZE - (off + tot) % BSIZE);
      var piece := ReadOne(fs, ip, off + tot, m);
      if tot + m > avail { return -1, dst; }
      ghost var end := off + tot + m;
      SliceNext(c, dst, off, off + tot, end, piece);
      dst := dst + piece;
      tot := tot + m;
    }
    r := tot;
  }

  // Writing what follows what was written.
  lemma StoredThen(v0: Vol, v1: Vol, v: Vol, i: nat, off: nat, src: seq<Byte>, done: nat, piece: seq<Byte>, tot: nat)
    requires i < |v0.addrs| && done + |piece| <= |src| && Stored(v0, v1, i, off, src, done)
    requires i < |v1.addrs| && Stored(v1, v, i, off + done, piece, tot) && piece == src[done..done + |piece|]
    ensures tot <= |piece| && Stored(v0, v, i, off, src, done + tot)
  {
    assert Open(0);
    forall p {:trigger Index(p)} | Index(p) && 0 <= p < MAXBYTES
      ensures v.ValidPlace(PlaceOf(i, p / BSIZE))
      ensures Get(v, i, p) == if off <= p < off + done + tot then src[p - off] else Get(v0, i, p)
    {
    }
    forall bn {:trigger File(i, bn)} |
      File(i, bn) && done + tot > 0 && 0 <= bn < MAXFILE && off / BSIZE <= bn && bn * BSIZE < off + done + tot
      ensures v.View(i, bn).Some?
    {
      if !(done > 0 && bn * BSIZE < off + done) {
        assert (off + done) / BSIZE <= bn;
      }
    }
  }

  // The largest chunk filewrite passes to writei.
  const CHUNK := (MAXOPBLOCKS - 1 - 1 - 2) / 2 * BSIZE

  // filewrite has got to byte done of src; the first copied ones are stored.
  ghost predicate Growing(fs: FileSystem, ip: Inode, v0: Vol, size0: nat, foff: nat, src: seq<Byte>, done: nat,
                          copied: nat)
    reads fs, ip
  {
    forall h {:trigger Open(h)} :: Open(h) ==>
      && fs.Inv() && fs.InCore(ip) && HoleFree(fs.v, ip.inum, ip.size)
      && ip.inum < |v0.addrs| && Stored(v0, fs.v, ip.inum, foff, src, copied) && Leads(v0, fs.v)
      && done <= copied && ip.size == Grown(size0, foff, done)
  }

  lemma GrowingHas(fs: FileSystem, ip: Inode, v0: Vol, size0: nat, foff: nat, src: seq<Byte>, done: nat, copied: nat)
    requires Growing(fs, ip, v0, size0, foff, src, done, copied)
    ensures fs.Inv() && fs.InCore(ip) && HoleFree(fs.v, ip.inum, ip.size)
    ensures ip.inum < |v0.addrs| && Stored(v0, fs.v, ip.inum, foff, src, copied) && Leads(v0, fs.v)
    ensures done <= copied && ip.size == Grown(size0, foff, done)
  {
    assert Open(0);
  }

  lemma GrowingIs(fs: FileSystem, ip: Inode, v0: Vol, size0: nat, foff: nat, src: seq<Byte>, done: nat, copied: nat)
    requires fs.Inv() && fs.InCore(ip) && HoleFree(fs.v, ip.inum, ip.size)
    requires ip.inum < |v0.addrs| && Stored(v0, fs.v, ip.inum, foff, src, copied) && Leads(v0, fs.v)
    requires done <= copied && ip.size == Grown(size0, foff, done)
    ensures Growing(fs, ip, v0, size0, foff, src, done, copied)
  {
  }

  function Grown(size: nat, off: nat, done: nat): nat {
    if done > 0 && off + done > size then off + done else size
  }

  // What one more chunk adds to what is stored, and to the size.
  lemma ChunkStored(v0: Vol, v1: Vol, v: Vol, i: nat, off: nat, src: seq<Byte>, done: nat, piece: seq<Byte>, n: nat,
                    copied: nat, end: nat, tot: nat, size0: nat, size1: nat, size: nat)
    requires i < |v0.addrs| && done + n <= |src| && Stored(v0, v1, i, off, src, done) && piece == src[done..done + n]
    requires i < |v1.addrs| && Stored(v1, v, i, off + done, piece, copied)
    requires size1 == Grown(size0, off, done) && size == if off + done + tot > size1 then off + done + tot else size1
    requires off + done <= size1 && end == done + copied
    ensures copied <= n && Stored(v0, v, i, off, src, end) && size == Grown(size0, off, done + tot)
  {
    assert |piece| == n;
    StoredThen(v0, v1, v, i, off, src, done, piece, copied);
    GrownTwice(size0, off, done, tot);
  }

  lemma GrownTwice(size: nat, off: nat, done: nat, tot: nat)
    requires off + done <= Grown(size, off, done)
    ensures var was := Grown(size, off, done);
            Grown(size, off, done + tot) == if off + done + tot > was then off + done + tot else was
  {
  }

  lemma RejectsIs(size: nat, off: nat, n: nat)
    requires off < UINT && n < UINT
    ensures Rejects(size, off, n) <==> off > size || off + n > MAXBYTES
  {
  }

  // writei at the beginning of an operation.
  method WritePiece(fs: FileSystem, ip: Inode, off: nat, src: seq<Byte>, n: nat, avail: nat)
    returns (w: WriteResult, ghost stray: set<nat>)
    requires fs.Inv() && fs.InCore(ip) && HoleFree(fs.v, ip.inum, ip.size) && off < UINT && n == |src| <= CHUNK
    requires fs.logged == {} && fs.AllLogged()
    modifies fs`bitmap, fs`data, fs`v, fs`logged, fs`dinode, ip`addrs, ip`size
    ensures w.Refused? <==> off > old(ip.size) || off + n > MAXBYTES
    ensures w.Refused? ==> unchanged(fs) && unchanged(ip) && stray == {}
    ensures w.Panic? ==> RanOut(fs, old(fs.v))
    ensures w.Wrote? ==> w.tot <= Min(avail, n) && (w.tot == n <==> n <= avail)
    ensures w.Wrote? ==> Stored(old(fs.v), fs.v, ip.inum, off, src, Min(avail, n)) && Leads(old(fs.v), fs.v)
    ensures w.Wrote? ==> fs.Inv() && fs.InCore(ip) && HoleFree(fs.v, ip.inum, ip.size)
    ensures w.Wrote? ==> ip.size == if off + w.tot > old(ip.size) then off + w.tot else old(ip.size)
    ensures w.Wrote? ==> |fs.logged| <= MAXOPBLOCKS && fs.AllLoggedBut(stray) && (stray == {} <==> !(w.tot < avail < n))
    ensures w.Wrote? && old(fs.OnDisk()) ==> fs.OnDisk() && Effect(fs.nmeta, old(fs.Now()), fs.Now())
  {
    RejectsIs(ip.size, off, n);
    w, stray := Writei(fs, ip, off, src, avail);
    assert fs.logged - {} == fs.logged;
  }

  // One chunk, in an operation of its own.
  method WriteChunk(fs: FileSystem, ip: Inode, foff: nat, src: seq<Byte>, i: nat, n1: nat, avail: nat,
                    ghost v0: Vol, ghost size0: nat)
    returns (w: WriteResult, ghost stray: set<nat>)
    requires Growing(fs, ip, v0, size0, foff, src, i, i) && foff + i < UINT && |src| < UINT && 0 < n1 <= CHUNK
    requires i + n1 <= |src|
    requires fs.logged == {} && fs.AllLogged() && i <= avail
    modifies fs`bitmap, fs`data, fs`v, fs`logged, fs`dinode, ip`addrs, ip`size
    ensures w.Refused? <==> foff + i > Grown(size0, foff, i) || foff + i + n1 > MAXBYTES
    ensures w.Panic? ==> RanOut(fs, v0)
    ensures w.Wrote? ==> |fs.logged| <= MAXOPBLOCKS && fs.AllLoggedBut(stray)
    ensures w.Wrote? ==> (w.tot == n1 <==> i + n1 <= avail) && (stray == {} <==> !(i + w.tot < avail < i + n1))
    ensures w.Refused? ==> unchanged(fs) && stray == {} && Growing(fs, ip, v0, size0, foff, src, i, i)
    ensures w.Wrote? ==> w.tot <= n1 && i + w.tot <= avail
    ensures w.Wrote? ==> Growing(fs, ip, v0, size0, foff, src, i + w.tot, Min(avail, i + n1))
    ensures w.Wrote? && old(fs.OnDisk()) ==> fs.OnDisk() && Effect(fs.nmeta, old(fs.Now()), fs.Now())
  {
    GrowingHas(fs, ip, v0, size0, foff, src, i, i);
    ghost var v1, size1 := fs.v, ip.size;
    var piece := src[i..i + n1];
    w, stray := WritePiece(fs, ip, foff + i, piece, n1, avail - i);
    if !w.Refused? { LeadsThen(v0, v1, fs.v); }
    if w.Wrote? {
      ghost var copied, end := Min(avail - i, n1), Min(avail, i + n1);
      ChunkStored(v0, v1, fs.v, ip.inum, foff, src, i, piece, n1, copied, end, w.tot, size0, size1, ip.size);
      GrowingIs(fs, ip, v0, size0, foff, src, i + w.tot, end);
    }
  }

  datatype FileResult = FilePanic | Failed | Full(n: nat)

  // An operation: the blocks before and after it, those passed to log_write,
  // and those changed without.
  datatype Op = Op(before: Snapshot, after: Snapshot, logged: set<nat>, stray: set<nat>)

  // The strays of the last operation.
  ghost function Strays(ops: seq<Op>): set<nat> { if ops == [] then {} else ops[|ops| - 1].stray }

  // How the volume is laid out.
  datatype Geometry = Geometry(nmeta: nat, bmapstart: nat, inodestart: nat)

  // What an operation of filewrite is: it fits its reservation, logs every
  // block it changes but for strays, and changes the volume as operations may,
  // if the inodes on disk were up to date before.
  ghost predicate OpOk(op: Op, geo: Geometry, onDisk: bool) {
    && |op.logged| <= MAXOPBLOCKS && (onDisk ==> Effect(geo.nmeta, op.before, op.after))
    && Covers(op.before, op.after, op.logged + op.stray, geo.bmapstart, geo.inodestart)
  }

  // Operations that lead from a to b, without strays but for the last one.
  ghost predicate Chunks(ops: seq<Op>, a: Snapshot, b: Snapshot, geo: Geometry, onDisk: bool) {
    if ops == [] then a == b
    else
      var n, op := |ops| - 1, ops[|ops| - 1];
      Chunks(ops[..n], a, op.before, geo, onDisk) && Strays(ops[..n]) == {} && OpOk(op, geo, onDisk) && op.after == b
  }

  lemma ChunksNext(ops: seq<Op>, a: Snapshot, b: Snapshot, geo: Geometry, onDisk: bool, op: Op)
    requires Chunks(ops, a, b, geo, onDisk) && Strays(ops) == {} && OpOk(op, geo, onDisk) && op.before == b
    ensures Chunks(ops + [op], a, op.after, geo, onDisk) && Strays(ops + [op]) == op.stray
  {
    assert (ops + [op])[..|ops|] == ops;
  }

  ghost function GeoOf(fs: FileSystem): Geometry { Geometry(fs.nmeta, fs.bmapstart, fs.inodestart) }

  // What filewrite has done so far.
  ghost predicate Writing(fs: FileSystem, ip: Inode, v0: Vol, size0: nat, a: Snapshot, foff: nat, src: seq<Byte>,
                          done: nat, copied: nat, ops: seq<Op>, onDisk: bool)
    reads fs, ip
  {
    forall h {:trigger Open(h)} :: Open(h) ==>
      && Growing(fs, ip, v0, size0, foff, src, done, copied) && Chunks(ops, a, fs.Now(), GeoOf(fs), onDisk)
      && (onDisk ==> fs.OnDisk())
  }

  // begin_op, one chunk, end_op.
  method ChunkOp(fs: FileSystem, ip: Inode, foff: nat, src: seq<Byte>, i: nat, n1: nat, avail: nat,
                 ghost v0: Vol, ghost size0: nat, ghost a: Snapshot, ghost ops: seq<Op>, ghost onDisk: bool)
    returns (w: WriteResult, ghost ops': seq<Op>)
    requires Writing(fs, ip, v0, size0, a, foff, src, i, i, ops, onDisk) && Strays(ops) == {} && i <= avail
    requires foff + i < UINT && |src| < UINT && 0 < n1 <= CHUNK && i + n1 <= |src|
    modifies fs`bitmap, fs`data, fs`v, fs`logged, fs`dinode, fs`base, ip`addrs, ip`size
    ensures w.Refused? <==> foff + i > Grown(size0, foff, i) || foff + i + n1 > MAXBYTES
    ensures w.Panic? ==> RanOut(fs, v0)
    ensures w.Refused? ==> Strays(ops') == {} && Writing(fs, ip, v0, size0, a, foff, src, i, i, ops', onDisk)
    ensures w.Wrote? ==> (Strays(ops') == {} <==> !(i + w.tot < avail < i + n1)) && (w.tot == n1 <==> i + n1 <= avail)
    ensures w.Wrote? ==> w.tot <= n1 && i + w.tot <= avail
    ensures w.Wrote? ==> Writing(fs, ip, v0, size0, a, foff, src, i + w.tot, Min(avail, i + n1), ops', onDisk)
  {
    assert Open(0);
    ghost var before := fs.Now();
    fs.logged, fs.base := {}, before;
    ghost var stray;
    w, stray := WriteChunk(fs, ip, foff, src, i, n1, avail, v0, size0);
    ghost var op := Op(before, fs.Now(), fs.logged, stray);
    ops' := ops + [op];
    if w.Refused? {
      assert fs.logged + {} == fs.logged;
      LeadsNone(fs.v);
      if onDisk { EffectOf(fs.nmeta, before, before, fs.v, fs.v); }
    }
    if !w.Panic? { ChunksNext(ops, a, before, GeoOf(fs), onDisk, op); }
  }

  // What makes filewrite fail: there is something to write, and it starts
  // beyond the end of the file, or is too much, or cannot all be read.
  predicate Fails(size: nat, foff: nat, n: nat, avail: nat) {
    n > 0 && (foff > size || foff + n > MAXBYTES || avail < n)
  }

  /**
    filewrite on an inode: chunks of at most CHUNK bytes, each in an operation
    of its own that logs at most the MAXOPBLOCKS that begin_op reserves for it
    and every block it changes, with one exception: when the user's memory ends
    inside a piece, the block of that piece. foff is the file offset.
   */
  method FileWrite(fs: FileSystem, ip: Inode, foff: nat, src: seq<Byte>, avail: nat)
    returns (r: FileResult, foff': nat, ghost copied: nat, ghost ops: seq<Op>)
    requires fs.Inv() && fs.InCore(ip) && HoleFree(fs.v, ip.inum, ip.size)
    requires foff < UINT && |src| < UINT
    modifies fs`bitmap, fs`data, fs`v, fs`logged, fs`dinode, fs`base, ip`addrs, ip`size
    ensures r.FilePanic? ==> RanOut(fs, old(fs.v))
    ensures !r.FilePanic? ==> (r.Failed? <==> Fails(old(ip.size), foff, |src|, avail))
    ensures !r.FilePanic? ==> Chunks(ops, old(fs.Now()), fs.Now(), GeoOf(fs), old(fs.OnDisk()))
    ensures !r.FilePanic? && old(fs.OnDisk()) ==> fs.OnDisk()
    ensures !r.FilePanic? ==> foff <= foff' && Growing(fs, ip, old(fs.v), old(ip.size), foff, src, foff' - foff, copied)
    ensures !r.FilePanic? ==> (Strays(ops) == {} <==> copied == foff' - foff)
    ensures r.Full? ==> r.n == |src| == copied && foff' == foff + |src|
    ensures r.Failed? ==> foff' < foff + |src| && (copied == foff' - foff || copied == avail < |src|)
  {
    StoredNone(fs.v, fs.nmeta, ip.inum, foff, src);
    LeadsNone(fs.v);
    GrowingIs(fs, ip, fs.v, ip.size, foff, src, 0, 0);
    r, foff', copied, ops := WriteChunks(fs, ip, foff, src, avail, fs.v, ip.size, fs.Now(), fs.OnDisk());
    assert Open(0);
  }

  // The loop of filewrite.
  method WriteChunks(fs: FileSystem, ip: Inode, foff: nat, src: seq<Byte>, avail: nat,
                     ghost v0: Vol, ghost size0: nat, ghost a: Snapshot, ghost onDisk: bool)
    returns (r: FileResult, foff': nat, ghost copied: nat, ghost ops: seq<Op>)
    requires Writing(fs, ip, v0, size0, a, foff, src, 0, 0, [], onDisk) && foff < UINT && |src| < UINT
    modifies fs`bitmap, fs`data, fs`v, fs`logged, fs`dinode, fs`base, ip`addrs, ip`size
    ensures r.FilePanic? ==> RanOut(fs, v0)
    ensures !r.FilePanic? ==> (r.Failed? <==> Fails(size0, foff, |src|, avail))
    ensures !r.FilePanic? ==>
              foff <= foff' && Writing(fs, ip, v0, size0, a, foff, src, foff' - foff, copied, ops, onDisk)
    ensures !r.FilePanic? ==> (Strays(ops) == {} <==> copied == foff' - foff)
    ensures r.Full? ==> r.n == |src| == copied && foff' == foff + |src|
    ensures r.Failed? ==> foff' < foff + |src| && (copied == foff' - foff || copied == avail < |src|)
  {
    var n := |src|;
    var i := 0;
    r, ops, copied := Full(n), [], 0;
    var done := 0;
    while i < n
      invariant 0 <= i <= n && i <= avail && copied == done == i && foff + i < UINT && r == Full(n)
      invariant (i > 0 ==> foff <= size0 && foff + i <= MAXBYTES) && Strays(ops) == {}
      invariant Writing(fs, ip, v0, size0, a, foff, src, done, copied, ops, onDisk)
    {
      var n1 := Min(n - i, CHUNK);
      var w;
      w, ops := ChunkOp(fs, ip, foff, src, i, n1, avail, v0, size0, a, ops, onDisk);
      if w.Wrote? {
        done, copied := i + w.tot, Min(avail, i + n1);
      }
      if w != Wrote(n1) {
        r := if w.Panic? then FilePanic else Failed;
        break;
      }
      i := i + n1;
    }
    foff' := foff + done;
    assert foff' - foff == done;
  }
}
