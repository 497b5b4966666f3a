/**
  Block allocation, inode block maps and file contents (kernel/fs.c) as code
  that changes a volume in place. Buffers and the log are below this level:
  data is what bread returns, and logged collects the blocks passed to
  log_write since the operation began.
 */
module FileSystem {
  import opened Params
  import opened Volume
  import opened Bitmap

  const IPB := 16  // inodes per block
  const MAXBYTES := MAXFILE * BSIZE

  // The fields of struct dinode.
  datatype Dinode = Dinode(typ: int, major: int, minor: int, nlink: int, size: nat, addrs: seq<nat>)

  // An inode in memory, locked by the caller.
  class Inode {
    const inum: nat
    var typ: int
    var major: int
    var minor: int
    var nlink: int
    var size: nat
    var addrs: seq<nat>

    constructor (inum: nat, d: Dinode)
      ensures this.inum == inum && Copy() == d
    {
      this.inum := inum;
      typ, major, minor, nlink, size, addrs := d.typ, d.major, d.minor, d.nlink, d.size, d.addrs;
    }

    function Copy(): Dinode
      reads this
    {
      Dinode(typ, major, minor, nlink, size, addrs)
    }
  }

  // The blocks that operations change, at one moment.
  datatype Snapshot = Snapshot(bitmap: seq<BitBlock>, data: seq<ByteBlock>, dinode: seq<Dinode>)

  // Always true; the handle by which facts about changed blocks are used.
  ghost predicate Part(x: int) { true }

  // Every block that differs between base and now is in L. Bitmap and inode
  // blocks start at block numbers bb and ib.
  ghost predicate Covers(base: Snapshot, now: Snapshot, L: set<nat>, bb: nat, ib: nat) {
    && |now.bitmap| == |base.bitmap| && |now.data| == |base.data| && |now.dinode| == |base.dinode|
    && forall x {:trigger Part(x)} :: Part(x) && 0 <= x ==>
         && (x < |now.bitmap| && now.bitmap[x] != base.bitmap[x] ==> x + bb in L)
         && (x < |now.data| && now.data[x] != base.data[x] ==> x in L)
         && (x < |now.dinode| && now.dinode[x] != base.dinode[x] ==> x / IPB + ib in L)
  }

  lemma CoversBits(base: Snapshot, now: Snapshot, L: set<nat>, bb: nat, ib: nat, k: nat, bits: BitBlock)
    requires k < |now.bitmap|
    ensures Covers(base, now, L, bb, ib) ==> Covers(base, now.(bitmap := now.bitmap[k := bits]), L + {k + bb}, bb, ib)
  {
  }

  lemma CoversData(base: Snapshot, now: Snapshot, L: set<nat>, bb: nat, ib: nat, x: nat, blk: ByteBlock)
    requires x < |now.data|
    ensures Covers(base, now, L, bb, ib) ==> Covers(base, now.(data := now.data[x := blk]), L + {x}, bb, ib)
  {
  }

  // Whether everything is logged when it is but for a, a block beyond the
  // metadata.
  lemma CoversBut(base: Snapshot, now: Snapshot, L: set<nat>, bb: nat, ib: nat, a: nat)
    requires Covers(base, now, L + {a}, bb, ib) && a < |now.data|
    requires bb + |now.bitmap| <= a && ib + |now.dinode| / IPB < a
    ensures Covers(base, now, L, bb, ib) <==> a in L || now.data[a] == base.data[a]
  {
    assert Part(a);
  }

  // -------------------------------------------------- operations on snapshots

  // sn is what bitmap, data and inode blocks hold of the volume v.
  ghost predicate Shows(sn: Snapshot, v: Vol) {
    && Decodes(sn.bitmap, v.used) && v.data == sn.data && |v.used| == |v.data| && |v.addrs| == |sn.dinode|
    && forall i {:trigger Part(i)} :: Part(i) && 0 <= i < |v.addrs| ==> sn.dinode[i].addrs == v.addrs[i]
  }

  // The blocks hold a volume that owns its blocks.
  ghost predicate Owned(nmeta: nat, sn: Snapshot) { exists v :: Shows(sn, v) && v.Own(nmeta, 0, 0) }

  // There is only one such volume.
  lemma OneVolume(nmeta: nat, sn: Snapshot, v: Vol, w: Vol)
    requires Shows(sn, v) && v.Own(nmeta, 0, 0) && Shows(sn, w) && w.Own(nmeta, 0, 0)
    ensures v == w
  {
    forall b | 0 <= b < |v.used| ensures v.used[b] == w.used[b] { assert Index(b); }
    forall i | 0 <= i < |v.addrs| ensures v.addrs[i] == w.addrs[i] { assert Part(i); }
    assert v.used == w.used && v.addrs == w.addrs;
    forall b ensures (b in v.owner <==> b in w.owner) && (b in v.owner ==> v.owner[b] == w.owner[b]) {
      assert Index(b);
      if b in v.owner && b in w.owner { assert At(v.owner[b]) && w.Val(v.owner[b]) == b; }
    }
  }

  /** From a to b the volume changed only as operations change it. */
  ghost predicate Effect(nmeta: nat, a: Snapshot, b: Snapshot) {
    forall v :: Shows(a, v) && v.Own(nmeta, 0, 0) ==> exists w :: Leads(v, w) && Shows(b, w)
  }

  lemma EffectOf(nmeta: nat, a: Snapshot, b: Snapshot, v: Vol, w: Vol)
    requires Shows(a, v) && v.Own(nmeta, 0, 0) && Leads(v, w) && Shows(b, w)
    ensures Effect(nmeta, a, b)
  {
    forall u | Shows(a, u) && u.Own(nmeta, 0, 0) ensures Leads(u, w) { OneVolume(nmeta, a, u, v); }
  }

  /** So an operation keeps ownership. */
  lemma EffectOwned(nmeta: nat, a: Snapshot, b: Snapshot)
    requires Effect(nmeta, a, b) && Owned(nmeta, a)
    ensures Owned(nmeta, b)
  {
    var v :| Shows(a, v) && v.Own(nmeta, 0, 0);
    var w :| Leads(v, w) && Shows(b, w);
    LeadsOwn(v, w, nmeta);
  }

  ghost predicate File(i: int, bn: int) { true }

  // From v to w only file block bn of inode i changed its view, to val. Every
  // other file block is in the block it was in.
  ghost predicate SameViews(v: Vol, w: Vol, i: nat, bn: nat, val: Option<ByteBlock>) {
    && |w.addrs| == |v.addrs|
    && forall i', bn' {:trigger File(i', bn')} :: File(i', bn') && 0 <= i' < |v.addrs| && 0 <= bn' < MAXFILE ==>
         && v.ValidPlace(PlaceOf(i', bn')) && w.ValidPlace(PlaceOf(i', bn'))
         && (i' != i ==> w.addrs[i'] == v.addrs[i'])
         && w.View(i', bn') == (if i' == i && bn' == bn then val else v.View(i', bn'))
         && (!(i' == i && bn' == bn) ==> w.BlockOf(i', bn') == v.BlockOf(i', bn'))
  }

  // What bmap makes of file block bn: an unmapped one becomes a zeroed one.
  ghost function Mapped(o: Option<ByteBlock>): Option<ByteBlock> {
    if o.None? then Some(Zero()) else o
  }

  lemma SameViewsNone(v: Vol, nmeta: nat, i: nat, bn: nat)
    requires v.Own(nmeta, 0, 0) && i < |v.addrs| && bn < MAXFILE
    ensures v.ValidPlace(PlaceOf(i, bn)) && SameViews(v, v, i, bn, v.View(i, bn))
  {
    forall i', bn' {:trigger File(i', bn')} | File(i', bn') && 0 <= i' < |v.addrs| && 0 <= bn' < MAXFILE
      ensures v.ValidPlace(PlaceOf(i', bn'))
    {
      BlockOfOk(v, nmeta, i', bn');
    }
    BlockOfOk(v, nmeta, i, bn);
  }

  lemma SameViewsAssigned(v: Vol, nmeta: nat, i: nat, k: nat, b: nat, bn: nat)
    requires v.Own(nmeta, 0, 0) && i < |v.addrs| && k <= NDIRECT && |v.addrs[i]| == NDIRECT + 1 && bn < MAXFILE
    requires b < |v.used| && !v.used[b] && v.addrs[i][k] == 0 && (k < NDIRECT ==> bn == k)
    ensures v.ValidPlace(PlaceOf(i, bn))
    ensures SameViews(v, Assigned(v, i, k, b), i, bn, if k < NDIRECT then Some(Zero()) else v.View(i, bn))
  {
    forall i', bn' {:trigger File(i', bn')} | File(i', bn') && 0 <= i' < |v.addrs| && 0 <= bn' < MAXFILE
      ensures var w := Assigned(v, i, k, b);
              && v.ValidPlace(PlaceOf(i', bn')) && w.ValidPlace(PlaceOf(i', bn'))
              && w.View(i', bn') == (if i' == i && bn' == k < NDIRECT then Some(Zero()) else v.View(i', bn'))
              && (!(i' == i && bn' == k < NDIRECT) ==> w.BlockOf(i', bn') == v.BlockOf(i', bn'))
    {
      AssignedView(v, nmeta, i, k, b, i', bn');
    }
    BlockOfOk(v, nmeta, i, bn);
  }

  lemma SameViewsEntered(v: Vol, nmeta: nat, i: nat, j: nat, b: nat)
    requires v.Own(nmeta, 0, 0) && v.ValidPlace(Entry(i, j)) && v.addrs[i][NDIRECT] != 0
    requires b < |v.used| && !v.used[b] && v.Val(Entry(i, j)) == 0
    ensures SameViews(v, Entered(v, i, j, b), i, NDIRECT + j, Some(Zero()))
  {
    forall i', bn' {:trigger File(i', bn')} | File(i', bn') && 0 <= i' < |v.addrs| && 0 <= bn' < MAXFILE
      ensures var w := Entered(v, i, j, b);
              && v.ValidPlace(PlaceOf(i', bn')) && w.ValidPlace(PlaceOf(i', bn'))
              && w.View(i', bn') == (if i' == i && bn' == NDIRECT + j then Some(Zero()) else v.View(i', bn'))
              && (!(i' == i && bn' == NDIRECT + j) ==> w.BlockOf(i', bn') == v.BlockOf(i', bn'))
    {
      EnteredView(v, nmeta, i, j, b, i', bn');
    }
  }

  lemma SameViewsTwice(u: Vol, v: Vol, w: Vol, i: nat, bn: nat, x: Option<ByteBlock>, y: Option<ByteBlock>)
    requires SameViews(u, v, i, bn, x) && SameViews(v, w, i, bn, y)
    ensures SameViews(u, w, i, bn, y)
  {
  }

  lemma SameViewsWritten(v: Vol, nmeta: nat, i: nat, bn: nat, blk: ByteBlock)
    requires v.Own(nmeta, 0, 0) && bn < MAXFILE && v.ValidPlace(PlaceOf(i, bn)) && 0 != v.BlockOf(i, bn) < |v.data|
    ensures SameViews(v, Written(v, v.BlockOf(i, bn), blk), i, bn, Some(blk))
  {
    forall i', bn' {:trigger File(i', bn')} | File(i', bn') && 0 <= i' < |v.addrs| && 0 <= bn' < MAXFILE
      ensures var w := Written(v, v.BlockOf(i, bn), blk);
              && v.ValidPlace(PlaceOf(i', bn')) && w.ValidPlace(PlaceOf(i', bn'))
              && w.View(i', bn') == (if i' == i && bn' == bn then Some(blk) else v.View(i', bn'))
              && w.BlockOf(i', bn') == v.BlockOf(i', bn')
    {
      WrittenView(v, nmeta, i, bn, blk, i', bn');
    }
  }

  lemma BitmapBlock(b: nat, n: nat)
    requires b < n * BPB
    ensures b / BPB < n
  {
  }

  // The indirect block, if there is one.
  function IndOf(b: nat): set<nat> { if b == 0 then {} else {b} }

  class FileSystem {
    const nmeta: nat       // boot block, super block, log, inode and bitmap blocks
    const bmapstart: nat
    const inodestart: nat
    var bitmap: seq<BitBlock>
    var data: seq<ByteBlock>
    var dinode: seq<Dinode>
    ghost var v: Vol
    ghost var logged: set<nat>
    ghost var base: Snapshot  // as the operation found them

    constructor (nmeta: nat, bmapstart: nat, inodestart: nat, bitmap: seq<BitBlock>, data: seq<ByteBlock>,
                 dinode: seq<Dinode>, ghost v: Vol)
      ensures this.nmeta == nmeta && this.bmapstart == bmapstart && this.inodestart == inodestart
      ensures this.bitmap == bitmap && this.data == data && this.dinode == dinode && this.v == v
      ensures logged == {} && AllLogged()
    {
      this.nmeta, this.bmapstart, this.inodestart := nmeta, bmapstart, inodestart;
      this.bitmap, this.data, this.dinode, this.v, this.logged := bitmap, data, dinode, v, {};
      this.base := Snapshot(bitmap, data, dinode);
    }

    ghost function Now(): Snapshot
      reads this
    {
      Snapshot(bitmap, data, dinode)
    }

    // Every block the operation changed but those of S was passed to log_write.
    ghost predicate AllLoggedBut(S: set<nat>)
      reads this
    {
      Covers(base, Now(), logged + S, bmapstart, inodestart)
    }

    ghost predicate AllLogged()
      reads this
    {
      Covers(base, Now(), logged, bmapstart, inodestart)
    }

    // The bitmap and inode blocks are among the first nmeta ones.
    ghost predicate Metadata()
      reads this
    {
      bmapstart + |bitmap| <= nmeta && inodestart + |dinode| / IPB < nmeta
    }

    // The volume is the one in memory and on disk, and owns its blocks.
    ghost predicate Inv()
      reads this
    {
      && Decodes(bitmap, v.used) && v.data == data && |v.used| == |data| && |v.addrs| == |dinode| && Metadata()
      && v.Own(nmeta, 0, 0)
    }

    // Every inode on disk names the blocks it owns; true between operations.
    ghost predicate OnDisk()
      reads this
    {
      Shows(Now(), v)
    }

    ghost predicate InCore(ip: Inode)
      reads this, ip
    {
      ip.inum < |v.addrs| && v.addrs[ip.inum] == ip.addrs && |ip.addrs| == NDIRECT + 1
    }

    ghost predicate Full()
      reads this
    {
      forall c :: 0 <= c < |v.used| ==> v.used[c]
    }

    function BBlock(b: nat): nat { b / BPB + bmapstart }
    function IBlock(i: nat): nat { i / IPB + inodestart }

    // balloc's search: the lowest free block.
    method FindFree() returns (r: Option<nat>)
      requires Decodes(bitmap, v.used) && |v.used| == |data|
      ensures r.Some? ==> r.value < |v.used| && !v.used[r.value] && forall c :: 0 <= c < r.value ==> v.used[c]
      ensures r.None? ==> forall c :: 0 <= c < |v.used| ==> v.used[c]
    {
      var size := |data|;
      var b := 0;
      while b < size
        invariant 0 <= b && b % BPB == 0 && (forall c :: 0 <= c < b && c < size ==> v.used[c])
      {
        var bi := 0;
        while bi < BPB && b + bi < size
          invariant 0 <= bi <= BPB && b + bi <= size && b % BPB == 0 && b < size
          invariant forall c :: 0 <= c < b + bi ==> v.used[c]
        {
          assert (b + bi) / BPB == b / BPB && (b + bi) % BPB == bi && Index(b + bi);
          if bitmap[b / BPB][bi / 8] & Mask(bi % 8) == 0 {
            return Some(b + bi);
          }
          bi := bi + 1;
        }
        b := b + BPB;
      }
      return None;
    }

    // balloc: take the lowest free block and zero it. None is the panic
    // "out of blocks".
    method Balloc() returns (r: Option<nat>)
      requires Decodes(bitmap, v.used) && v.data == data && |v.used| == |data|
      modifies this`bitmap, this`data, this`v, this`logged
      ensures Decodes(bitmap, v.used) && v.data == data
      ensures r.None? <==> forall c :: 0 <= c < |old(v.used)| ==> old(v.used)[c]
      ensures r.None? ==> v == old(v) && logged == old(logged)
      ensures r.Some? ==>
                && r.value < |old(v.used)| && !old(v.used)[r.value] && (forall c :: 0 <= c < r.value ==> old(v.used)[c])
                && v == old(v).(used := old(v.used)[r.value := true], data := old(v.data)[r.value := Zero()])
                && logged == old(logged) + {BBlock(r.value), r.value}
      ensures dinode == old(dinode) && |bitmap| == |old(bitmap)| && (old(AllLogged()) ==> AllLogged())
    {
      r := FindFree();
      if r.Some? {
        Mark(r.value);
        Bzero(r.value);
      }
    }

    // Set the block's bit.
    method Mark(b: nat)
      requires Decodes(bitmap, v.used) && b < |v.used|
      modifies this`bitmap, this`v, this`logged
      ensures Decodes(bitmap, v.used) && v == old(v).(used := old(v.used)[b := true]) && |bitmap| == |old(bitmap)|
      ensures logged == old(logged) + {BBlock(b)} && (old(AllLogged()) ==> AllLogged())
    {
      DecodesSet(bitmap, v.used, b);
      assert Index(b);
      var k, bits := b / BPB, WithBit(bitmap[b / BPB], b % BPB);
      CoversBits(base, Now(), logged, bmapstart, inodestart, k, bits);
      bitmap := bitmap[k := bits];
      logged := logged + {BBlock(b)};
      v := v.(used := v.used[b := true]);
    }

    // bzero
    method Bzero(b: nat)
      requires v.data == data && b < |data|
      modifies this`data, this`v, this`logged
      ensures v.data == data && v == old(v).(data := old(v.data)[b := Zero()])
      ensures logged == old(logged) + {b} && (old(AllLogged()) ==> AllLogged())
    {
      CoversData(base, Now(), logged, bmapstart, inodestart, b, Zero());
      data := data[b := Zero()];
      logged := logged + {b};
      v := v.(data := data);
    }

    // bfree. Refusal is the panic "freeing free block".
    method Bfree(b: nat) returns (ok: bool)
      requires Decodes(bitmap, v.used) && v.data == data && b < |v.used|
      modifies this`bitmap, this`v, this`logged
      ensures ok <==> old(v.used)[b]
      ensures !ok ==> bitmap == old(bitmap) && v == old(v) && logged == old(logged)
      ensures ok ==> Decodes(bitmap, v.used) && v == Freed(old(v), b) && logged == old(logged) + {BBlock(b)}
      ensures |bitmap| == |old(bitmap)| && (old(AllLogged()) ==> AllLogged())
    {
      var bi := b % BPB;
      assert Index(b);
      if bitmap[b / BPB][bi / 8] & Mask(bi % 8) == 0 {
        return false;
      }
      DecodesCleared(bitmap, v.used, b);
      CoversBits(base, Now(), logged, bmapstart, inodestart, b / BPB, WithoutBit(bitmap[b / BPB], bi));
      bitmap := bitmap[b / BPB := WithoutBit(bitmap[b / BPB], bi)];
      logged := logged + {BBlock(b)};
      v := Freed(v, b);
      return true;
    }

    // iupdate: copy the inode in memory to its place on disk.
    method Iupdate(ip: Inode)
      requires ip.inum < |dinode|
      modifies this`dinode, this`logged
      ensures dinode == old(dinode)[ip.inum := ip.Copy()] && logged == old(logged) + {IBlock(ip.inum)}
      ensures old(AllLogged()) ==> AllLogged()
      ensures forall S: set<nat> {:trigger AllLoggedBut(S)} :: old(AllLoggedBut(S)) ==> AllLoggedBut(S)
    {
      dinode := dinode[ip.inum := ip.Copy()];
      logged := logged + {IBlock(ip.inum)};
    }

    // A new block for an empty entry of the inode.
    method Attach(ip: Inode, k: nat) returns (r: Option<nat>)
      requires Inv() && InCore(ip) && k <= NDIRECT && ip.addrs[k] == 0
      modifies this`bitmap, this`data, this`v, this`logged, ip`addrs
      ensures Inv() && InCore(ip) && Leads(old(v), v) && (old(AllLogged()) ==> AllLogged())
      ensures r.None? ==> v == old(v) && ip.addrs == old(ip.addrs) && Full()
      ensures r.Some? ==>
                && r.value < |old(v.used)| && !old(v.used)[r.value] && r.value != 0
                && v == Assigned(old(v), ip.inum, k, r.value)
                && ip.addrs == old(ip.addrs)[k := r.value]
                && logged == old(logged) + {BBlock(r.value), r.value} && BBlock(r.value) < nmeta
    {
      LeadsNone(v);
      r := Balloc();
      if r.Some? {
        var b := r.value;
        AssignedOwn(old(v), nmeta, ip.inum, k, b);
        LeadsOne(old(v), Change.Assign(ip.inum, k, b));
        BitmapBlock(b, |bitmap|);
        assert Index(0);
        ip.addrs := ip.addrs[k := b];
        v := v.(addrs := v.addrs[ip.inum := Put(v.addrs[ip.inum], k, b)], owner := v.owner[b := EntryOf(ip.inum, k)]);
        assert v == Assigned(old(v), ip.inum, k, b);
      }
    }

    // A new block for an empty word of the indirect block.
    method Enter(ip: Inode, j: nat) returns (r: Option<nat>)
      requires Inv() && InCore(ip) && j < NINDIRECT && ip.addrs[NDIRECT] != 0
      requires v.ValidPlace(Entry(ip.inum, j)) && v.Val(Entry(ip.inum, j)) == 0
      modifies this`bitmap, this`data, this`v, this`logged
      ensures Inv() && InCore(ip) && Leads(old(v), v) && (old(AllLogged()) ==> AllLogged())
      ensures r.None? ==> v == old(v) && Full()
      ensures r.Some? ==>
                && r.value < |old(v.used)| && !old(v.used)[r.value] && r.value != 0
                && v == Entered(old(v), ip.inum, j, r.value)
                && logged == old(logged) + {BBlock(r.value), r.value, ip.addrs[NDIRECT]} && BBlock(r.value) < nmeta
    {
      LeadsNone(v);
      var ind := ip.addrs[NDIRECT];
      var a := data[ind];
      r := Balloc();
      if r.Some? {
        var b := r.value;
        EnteredOwn(old(v), nmeta, ip.inum, j, b);
        LeadsOne(old(v), Change.Enter(ip.inum, j, b));
        BitmapBlock(b, |bitmap|);
        CoversData(base, Now(), logged, bmapstart, inodestart, ind, SetWord(a, j, b));
        assert Index(0);
        data := data[ind := SetWord(a, j, b)];
        logged := logged + {ind};
        v := v.(data := data, owner := v.owner[b := Entry(ip.inum, j)]);
        assert v == Entered(old(v), ip.inum, j, b);
      }
    }

    ghost predicate HasBlock(i: nat, bn: nat)
      reads this
    {
      bn < MAXFILE && v.ValidPlace(PlaceOf(i, bn)) && v.BlockOf(i, bn) != 0
    }

    // bmap's first step for a block beyond the direct ones: ip has an indirect
    // block afterwards.
    method LoadIndirect(ip: Inode, ghost j: nat) returns (ok: bool, ghost bm: set<nat>)
      requires Inv() && InCore(ip) && j < NINDIRECT
      modifies this`bitmap, this`data, this`v, this`logged, ip`addrs
      ensures Inv() && InCore(ip) && Leads(old(v), v) && (old(AllLogged()) ==> AllLogged())
      ensures !ok ==> Full()
      ensures ok ==> ip.addrs[NDIRECT] != 0 && v.ValidPlace(Entry(ip.inum, j)) && old(v).ValidPlace(Entry(ip.inum, j))
      ensures ok ==> v.Val(Entry(ip.inum, j)) == old(v).Val(Entry(ip.inum, j))
      ensures ok ==> SameViews(old(v), v, ip.inum, NDIRECT + j, old(v).View(ip.inum, NDIRECT + j))
      ensures ok ==> old(logged) <= logged <= old(logged) + bm + IndOf(ip.addrs[NDIRECT])
      ensures |bm| <= (if old(ip.addrs)[NDIRECT] == 0 then 1 else 0) && forall x :: x in bm ==> x < nmeta
      ensures old(ip.addrs)[NDIRECT] != 0 ==> ok && unchanged(this) && unchanged(ip)
    {
      LeadsNone(v);
      BlockOfOk(v, nmeta, ip.inum, NDIRECT + j);
      SameViewsNone(v, nmeta, ip.inum, NDIRECT + j);
      ok, bm := true, {};
      if ip.addrs[NDIRECT] == 0 {
        var r := Attach(ip, NDIRECT);
        if r.None? { return false, {}; }
        bm := {BBlock(r.value)};
        SameViewsAssigned(old(v), nmeta, ip.inum, NDIRECT, r.value, NDIRECT + j);
        AssignedVal(old(v), nmeta, ip.inum, NDIRECT, r.value, Entry(ip.inum, j));
        BlockOfOk(v, nmeta, ip.inum, NDIRECT + j);
      }
    }

    // The indirect block's word j, allocating its block if there is none.
    method MapWord(ip: Inode, j: nat) returns (r: Option<nat>, ghost bm: set<nat>)
      requires Inv() && InCore(ip) && j < NINDIRECT && ip.addrs[NDIRECT] != 0
      modifies this`bitmap, this`data, this`v, this`logged
      ensures Inv() && InCore(ip) && Leads(old(v), v) && (old(AllLogged()) ==> AllLogged())
      ensures r.None? ==> Full()
      ensures old(HasBlock(ip.inum, NDIRECT + j)) ==> r.Some? && unchanged(this)
      ensures r.Some? ==> BmapDone(old(v), NDIRECT + j, ip, r.value, bm, old(logged))
    {
      ghost var bn := NDIRECT + j;
      LeadsNone(v);
      BlockOfOk(v, nmeta, ip.inum, bn);
      SameViewsNone(v, nmeta, ip.inum, bn);
      assert Index(ip.inum);
      bm := {};
      var addr := Word(data[ip.addrs[NDIRECT]], j);
      if addr == 0 {
        r := Enter(ip, j);
        if r.None? { return; }
        bm := {BBlock(r.value)};
        SameViewsEntered(old(v), nmeta, ip.inum, j, r.value);
        EnteredVal(old(v), nmeta, ip.inum, j, r.value, Entry(ip.inum, j));
      } else {
        r := Some(addr);
      }
    }

    // Both steps.
    method BmapIndirect(ip: Inode, j: nat) returns (r: Option<nat>, ghost bm: set<nat>)
      requires Inv() && InCore(ip) && j < NINDIRECT
      modifies this`bitmap, this`data, this`v, this`logged, ip`addrs
      ensures Inv() && InCore(ip) && Leads(old(v), v) && (old(AllLogged()) ==> AllLogged())
      ensures r.None? ==> Full()
      ensures old(HasBlock(ip.inum, NDIRECT + j)) ==> r.Some? && unchanged(this) && unchanged(ip)
      ensures r.Some? ==> BmapDone(old(v), NDIRECT + j, ip, r.value, bm, old(logged))
    {
      ghost var bn := NDIRECT + j;
      BlockOfOk(v, nmeta, ip.inum, bn);
      var ok;
      ok, bm := LoadIndirect(ip, j);
      if !ok { return None, bm; }
      ghost var w := v;
      BlockOfOk(w, nmeta, ip.inum, bn);
      ghost var more;
      r, more := MapWord(ip, j);
      LeadsThen(old(v), w, v);
      if r.Some? {
        SameViewsTwice(old(v), w, v, ip.inum, bn, old(v).View(ip.inum, bn), Mapped(w.View(ip.inum, bn)));
        bm := bm + more;
      }
    }

    // What bmap guarantees when it returns: a is the block, every other file
    // block keeps its view, an existing block is returned without any change,
    // a new one is logged, and at most it, the indirect block and one bitmap
    // block per allocation were.
    ghost predicate BmapDone(v0: Vol, bn: nat, ip: Inode, a: nat, bm: set<nat>, logged0: set<nat>)
      reads this, ip
    {
      && bn < MAXFILE && ip.inum < |v0.addrs| == |v.addrs| && |ip.addrs| == NDIRECT + 1
      && v0.ValidPlace(PlaceOf(ip.inum, bn)) && v.ValidPlace(PlaceOf(ip.inum, bn))
      && v.BlockOf(ip.inum, bn) == a != 0
      && SameViews(v0, v, ip.inum, bn, Mapped(v0.View(ip.inum, bn)))
      && (v0.BlockOf(ip.inum, bn) != 0 ==> v == v0 && logged == logged0)
      && logged0 <= logged <= logged0 + bm + {a} + IndOf(ip.addrs[NDIRECT])
      && (v0.BlockOf(ip.inum, bn) == 0 ==> a in logged) && (forall x :: x in bm ==> x < nmeta)
      && (v0.addrs[ip.inum][NDIRECT] != 0 || bn < NDIRECT ==> ip.addrs[NDIRECT] == v0.addrs[ip.inum][NDIRECT])
      && |bm| <= (if v0.BlockOf(ip.inum, bn) == 0 then 1 else 0)
                 + (if bn >= NDIRECT && v0.addrs[ip.inum][NDIRECT] == 0 then 1 else 0)
    }

    // A direct block.
    method BmapDirect(ip: Inode, bn: nat) returns (r: Option<nat>, ghost bm: set<nat>)
      requires Inv() && InCore(ip) && bn < NDIRECT
      modifies this`bitmap, this`data, this`v, this`logged, ip`addrs
      ensures Inv() && InCore(ip) && Leads(old(v), v) && (old(AllLogged()) ==> AllLogged())
      ensures r.None? ==> Full()
      ensures old(HasBlock(ip.inum, bn)) ==> r.Some? && unchanged(this) && unchanged(ip)
      ensures r.Some? ==> BmapDone(old(v), bn, ip, r.value, bm, old(logged))
    {
      bm := {};
      LeadsNone(v);
      BlockOfOk(v, nmeta, ip.inum, bn);
      SameViewsNone(v, nmeta, ip.inum, bn);
      if ip.addrs[bn] == 0 {
        r := Attach(ip, bn);
        if r.Some? {
          bm := {BBlock(r.value)};
          SameViewsAssigned(old(v), nmeta, ip.inum, bn, r.value, bn);
          AssignedVal(old(v), nmeta, ip.inum, bn, r.value, PlaceOf(ip.inum, bn));
        }
      } else {
        r := Some(ip.addrs[bn]);
      }
    }

    // bmap: the block of file block bn, allocating it if there is none. None
    // stands for the panics "out of range" and "out of blocks".
    method Bmap(ip: Inode, bn: nat) returns (r: Option<nat>, ghost bm: set<nat>)
      requires Inv() && InCore(ip)
      modifies this`bitmap, this`data, this`v, this`logged, ip`addrs
      ensures Inv() && InCore(ip) && Leads(old(v), v) && (old(AllLogged()) ==> AllLogged())
      ensures bn >= MAXFILE ==> r.None? && v == old(v)
      ensures r.None? && bn < MAXFILE ==> Full()
      ensures old(HasBlock(ip.inum, bn)) ==> r.Some? && unchanged(this) && unchanged(ip)
      ensures r.Some? ==> BmapDone(old(v), bn, ip, r.value, bm, old(logged))
    {
      bm := {};
      LeadsNone(v);
      if bn < NDIRECT {
        r, bm := BmapDirect(ip, bn);
      } else if bn - NDIRECT < NINDIRECT {
        r, bm := BmapIndirect(ip, bn - NDIRECT);
      } else {
        r := None;
      }
    }

    // The copy into a buffer of writei's loop.
    method Fill(ip: Inode, bn: nat, a: nat, blk: ByteBlock)
      requires Inv() && InCore(ip) && bn < MAXFILE && v.ValidPlace(PlaceOf(ip.inum, bn))
      requires v.BlockOf(ip.inum, bn) == a != 0
      modifies this`data, this`v
      ensures Inv() && InCore(ip) && SameViews(old(v), v, ip.inum, bn, Some(blk)) && Leads(old(v), v)
      ensures v.ValidPlace(PlaceOf(ip.inum, bn)) && v.BlockOf(ip.inum, bn) == a
      ensures old(AllLogged()) ==> AllLoggedBut({a})
    {
      BlockOfOk(v, nmeta, ip.inum, bn);
      CoversData(base, Now(), logged, bmapstart, inodestart, a, blk);
      WrittenOwn(v, nmeta, ip.inum, bn, blk);
      SameViewsWritten(v, nmeta, ip.inum, bn, blk);
      data := data[a := blk];
      LeadsOne(v, Change.Store(ip.inum, bn, blk));
      v := Written(v, a, blk);
      WrittenVal(old(v), nmeta, ip.inum, bn, blk, PlaceOf(ip.inum, bn));
    }

    // The copy and the log_write.
    method Overwrite(ip: Inode, bn: nat, a: nat, blk: ByteBlock)
      requires Inv() && InCore(ip) && bn < MAXFILE && v.ValidPlace(PlaceOf(ip.inum, bn))
      requires v.BlockOf(ip.inum, bn) == a != 0
      modifies this`data, this`v, this`logged
      ensures Inv() && InCore(ip) && SameViews(old(v), v, ip.inum, bn, Some(blk)) && Leads(old(v), v)
      ensures v.ValidPlace(PlaceOf(ip.inum, bn)) && v.BlockOf(ip.inum, bn) == a && logged == old(logged) + {a}
      ensures old(AllLogged()) ==> AllLogged()
    {
      Fill(ip, bn, a, blk);
      logged := logged + {a};
    }
  }
}
