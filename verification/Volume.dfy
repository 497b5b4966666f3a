/**
  Block ownership on a volume (kernel/fs.c): which block each inode uses in
  which place, and what the file-level views of the blocks are. Values only;
  module FileSystem ties the code that changes a volume to it.
 */
module Volume {
  import opened Params

  const BSIZE := 1024
  const NDIRECT := 12
  const NINDIRECT := 256  // BSIZE / sizeof(uint)
  const MAXFILE := NDIRECT + NINDIRECT

  type ByteBlock = b: seq<Byte> | |b| == BSIZE witness seq(BSIZE, _ => 0)

  function Zero(): (r: ByteBlock)
    ensures forall k :: 0 <= k < BSIZE ==> r[k] == 0
  {
    seq(BSIZE, _ => 0)
  }

  // Word j of a block read as an array of 32-bit little-endian integers.
  function Word(b: ByteBlock, j: nat): (w: nat)
    requires j < NINDIRECT
    ensures w < UINT
  {
    (b[4 * j] as int) + 256 * (b[4 * j + 1] as int) + 65536 * (b[4 * j + 2] as int) + 16777216 * (b[4 * j + 3] as int)
  }

  function SetWord(b: ByteBlock, j: nat, v: nat): (r: ByteBlock)
    requires j < NINDIRECT && v < UINT
  {
    b[4 * j := v % 256][4 * j + 1 := v / 256 % 256][4 * j + 2 := v / 65536 % 256][4 * j + 3 := v / 16777216]
  }

  lemma WordOfSet(b: ByteBlock, j: nat, v: nat, k: nat)
    requires j < NINDIRECT && v < UINT && k < NINDIRECT
    ensures Word(SetWord(b, j, v), k) == if k == j then v else Word(b, k)
  {
    FourBytes(v);
    var r := SetWord(b, j, v);
    if k != j {
      assert r[4 * k] == b[4 * k] && r[4 * k + 1] == b[4 * k + 1];
      assert r[4 * k + 2] == b[4 * k + 2] && r[4 * k + 3] == b[4 * k + 3];
    }
  }

  lemma FourBytes(v: nat)
    requires v < UINT
    ensures v == v % 256 + 256 * (v / 256 % 256) + 65536 * (v / 65536 % 256) + 16777216 * (v / 16777216)
  {
  }

  lemma WordOfZero(j: nat)
    requires j < NINDIRECT
    ensures Word(Zero(), j) == 0
  {
  }

  // A place that can hold a block number: one of the twelve direct entries of
  // an inode, its indirect entry, or a word of its indirect block.
  datatype Place = Direct(i: nat, k: nat) | Indirect(i: nat) | Entry(i: nat, j: nat)

  function PlaceOf(i: nat, bn: nat): Place {
    if bn < NDIRECT then Direct(i, bn) else Entry(i, bn - NDIRECT)
  }

  // The place of word k of ip->addrs.
  function EntryOf(i: nat, k: nat): Place {
    if k == NDIRECT then Indirect(i) else Direct(i, k)
  }

  // used: the allocation bitmap. addrs: the block numbers in every inode.
  // owner: the place of every block in use by some inode.
  datatype Vol = Vol(used: seq<bool>, data: seq<ByteBlock>, addrs: seq<seq<nat>>, owner: map<nat, Place>) {

    ghost predicate Shape() {
      && |data| == |used| <= UINT
      && forall i {:trigger Index(i)} :: Index(i) && 0 <= i < |addrs| ==>
           |addrs[i]| == NDIRECT + 1 && forall k :: 0 <= k <= NDIRECT ==> addrs[i][k] < |data|
    }

    ghost predicate ValidPlace(p: Place) {
      && p.i < |addrs| && |addrs[p.i]| == NDIRECT + 1
      && addrs[p.i][NDIRECT] < |data|
      && match p
         case Direct(_, k) => k < NDIRECT
         case Indirect(_) => true
         case Entry(_, j) => j < NINDIRECT
    }

    // The block number in a place, 0 when there is none.
    ghost function Val(p: Place): nat
      requires ValidPlace(p)
    {
      match p
      case Direct(i, k) => addrs[i][k]
      case Indirect(i) => addrs[i][NDIRECT]
      case Entry(i, j) => if addrs[i][NDIRECT] == 0 then 0 else Word(data[addrs[i][NDIRECT]], j)
    }

    /**
      The ownership invariant: the blocks in use are exactly the first nmeta
      ones and the owned ones, and places and owned blocks correspond one to
      one. The first `gone` words of the indirect block of inode ip are exempt:
      itrunc frees those blocks before it drops the indirect block.
     */
    ghost predicate Own(nmeta: nat, ip: nat, gone: nat) {
      && Shape() && 0 < nmeta <= |used|
      && (forall b {:trigger Index(b)} :: Index(b) && 0 <= b < |used| ==> (used[b] <==> b < nmeta || b in owner))
      && (forall b {:trigger Index(b)} :: Index(b) && b in owner ==>
            && nmeta <= b < |used| && ValidPlace(owner[b]) && Val(owner[b]) == b
            && !Exempt(owner[b], ip, gone))
      && (forall p {:trigger At(p)} :: At(p) && ValidPlace(p) && Val(p) != 0 && !Exempt(p, ip, gone) ==>
            Val(p) in owner && owner[Val(p)] == p)
    }

    // The block number of file block bn of inode i, and its contents.
    ghost function BlockOf(i: nat, bn: nat): nat
      requires bn < MAXFILE && ValidPlace(PlaceOf(i, bn))
    {
      Val(PlaceOf(i, bn))
    }

    ghost function View(i: nat, bn: nat): Option<ByteBlock>
      requires bn < MAXFILE && ValidPlace(PlaceOf(i, bn))
    {
      var b := Val(PlaceOf(i, bn));
      if b == 0 || b >= |data| then None else Some(data[b])
    }
  }

  // Always true; the handle by which facts about places are used.
  ghost predicate At(p: Place) { true }

  ghost predicate Exempt(p: Place, ip: nat, gone: nat) { p.Entry? && p.i == ip && p.j < gone }

  // ------------------------------------------------- consequences of owning

  // No block is in two places, whatever the inodes: files share no block and
  // the map of each inode is injective.
  lemma NoSharing(v: Vol, nmeta: nat, p: Place, q: Place)
    requires v.Own(nmeta, 0, 0) && v.ValidPlace(p) && v.ValidPlace(q) && v.Val(p) == v.Val(q) != 0
    ensures p == q && nmeta <= v.Val(p) < |v.used| && v.used[v.Val(p)]
  {
    assert At(p) && At(q) && Index(v.Val(p));
  }

  // Every block in use beyond the metadata has a place.
  lemma NoLeak(v: Vol, nmeta: nat, b: nat)
    requires v.Own(nmeta, 0, 0) && nmeta <= b < |v.used| && v.used[b]
    ensures exists p :: v.ValidPlace(p) && v.Val(p) == b
  {
    assert Index(b);
    assert v.ValidPlace(v.owner[b]) && v.Val(v.owner[b]) == b;
  }

  // ---------------------------------------------------------------- updates

  function Put(a: seq<nat>, k: nat, b: nat): seq<nat>
    requires k < |a|
  {
    a[k := b]
  }

  // A free block b becomes the value of a direct place or of the indirect entry.
  ghost function Assigned(v: Vol, i: nat, k: nat, b: nat): Vol
    requires i < |v.addrs| && k < |v.addrs[i]| && b < |v.used| == |v.data|
  {
    Vol(v.used[b := true], v.data[b := Zero()], v.addrs[i := Put(v.addrs[i], k, b)],
        v.owner[b := EntryOf(i, k)])
  }

  lemma AssignedOwn(v: Vol, nmeta: nat, i: nat, k: nat, b: nat)
    requires v.Own(nmeta, 0, 0) && i < |v.addrs| && k <= NDIRECT && |v.addrs[i]| == NDIRECT + 1
    requires b < |v.used| && !v.used[b] && v.addrs[i][k] == 0
    ensures Assigned(v, i, k, b).Own(nmeta, 0, 0)
  {
    var v' := Assigned(v, i, k, b);
    assert Index(b) && Index(i);
    forall p {:trigger At(p)} | At(p) && v'.ValidPlace(p) && v'.Val(p) != 0
      ensures v'.Val(p) in v'.owner && v'.owner[v'.Val(p)] == p
    {
      AssignedVal(v, nmeta, i, k, b, p);
    }
    forall c {:trigger Index(c)} | Index(c) && c in v'.owner
      ensures nmeta <= c < |v'.used| && v'.ValidPlace(v'.owner[c]) && v'.Val(v'.owner[c]) == c
    {
      AssignedVal(v, nmeta, i, k, b, v'.owner[c]);
    }
  }

  // Only the assigned place changes its value.
  lemma AssignedVal(v: Vol, nmeta: nat, i: nat, k: nat, b: nat, p: Place)
    requires v.Own(nmeta, 0, 0) && i < |v.addrs| && k <= NDIRECT && |v.addrs[i]| == NDIRECT + 1
    requires b < |v.used| && !v.used[b] && v.addrs[i][k] == 0
    requires Assigned(v, i, k, b).ValidPlace(p)
    ensures v.ValidPlace(p)
    ensures Assigned(v, i, k, b).Val(p) == if p == EntryOf(i, k) then b else v.Val(p)
  {
    assert Index(i) && Index(p.i) && Index(b);
    if p.Entry? {
      WordOfZero(p.j);
      assert At(Indirect(p.i));
    }
  }

  // A free block b becomes word j of the indirect block.
  ghost function Entered(v: Vol, i: nat, j: nat, b: nat): Vol
    requires v.ValidPlace(Entry(i, j)) && b < |v.used| == |v.data| <= UINT
  {
    var ind := v.addrs[i][NDIRECT];
    Vol(v.used[b := true], v.data[b := Zero()][ind := SetWord(v.data[ind], j, b)], v.addrs, v.owner[b := Entry(i, j)])
  }

  lemma EnteredVal(v: Vol, nmeta: nat, i: nat, j: nat, b: nat, p: Place)
    requires v.Own(nmeta, 0, 0) && v.ValidPlace(Entry(i, j)) && v.addrs[i][NDIRECT] != 0
    requires b < |v.used| && !v.used[b] && v.Val(Entry(i, j)) == 0
    requires v.ValidPlace(p)
    ensures Entered(v, i, j, b).ValidPlace(p)
    ensures Entered(v, i, j, b).Val(p) == if p == Entry(i, j) then b else v.Val(p)
  {
    var ind := v.addrs[i][NDIRECT];
    assert Index(b) && Index(ind) && At(Indirect(i));
    if p.Entry? {
      WordOfSet(v.data[ind], j, b, p.j);
      assert At(Indirect(p.i)) && Index(v.addrs[p.i][NDIRECT]);
    }
  }

  lemma EnteredOwn(v: Vol, nmeta: nat, i: nat, j: nat, b: nat)
    requires v.Own(nmeta, 0, 0) && v.ValidPlace(Entry(i, j)) && v.addrs[i][NDIRECT] != 0
    requires b < |v.used| && !v.used[b] && v.Val(Entry(i, j)) == 0
    ensures Entered(v, i, j, b).Own(nmeta, 0, 0)
  {
    var v' := Entered(v, i, j, b);
    assert Index(b);
    forall p {:trigger At(p)} | At(p) && v'.ValidPlace(p) && v'.Val(p) != 0
      ensures v'.Val(p) in v'.owner && v'.owner[v'.Val(p)] == p
    {
      EnteredVal(v, nmeta, i, j, b, p);
    }
    forall c {:trigger Index(c)} | Index(c) && c in v'.owner
      ensures nmeta <= c < |v'.used| && v'.ValidPlace(v'.owner[c]) && v'.Val(v'.owner[c]) == c
    {
      EnteredVal(v, nmeta, i, j, b, v'.owner[c]);
    }
  }

  // The contents of block a, which is file block bn of inode i, are replaced.
  ghost function Written(v: Vol, a: nat, blk: ByteBlock): Vol
    requires a < |v.data|
  {
    v.(data := v.data[a := blk])
  }

  lemma WrittenVal(v: Vol, nmeta: nat, i: nat, bn: nat, blk: ByteBlock, p: Place)
    requires v.Own(nmeta, 0, 0) && bn < MAXFILE && v.ValidPlace(PlaceOf(i, bn)) && 0 != v.BlockOf(i, bn) < |v.data|
    requires v.ValidPlace(p)
    ensures Written(v, v.BlockOf(i, bn), blk).ValidPlace(p)
    ensures Written(v, v.BlockOf(i, bn), blk).Val(p) == v.Val(p)
  {
    assert At(PlaceOf(i, bn));
    if p.Entry? {
      assert At(Indirect(p.i));
    }
  }

  lemma WrittenOwn(v: Vol, nmeta: nat, i: nat, bn: nat, blk: ByteBlock)
    requires v.Own(nmeta, 0, 0) && bn < MAXFILE && v.ValidPlace(PlaceOf(i, bn)) && 0 != v.BlockOf(i, bn) < |v.data|
    ensures Written(v, v.BlockOf(i, bn), blk).Own(nmeta, 0, 0)
  {
    var v' := Written(v, v.BlockOf(i, bn), blk);
    forall p {:trigger At(p)} | At(p) && v'.ValidPlace(p) && v'.Val(p) != 0
      ensures v'.Val(p) in v'.owner && v'.owner[v'.Val(p)] == p
    {
      WrittenVal(v, nmeta, i, bn, blk, p);
    }
    forall c {:trigger Index(c)} | Index(c) && c in v'.owner
      ensures nmeta <= c < |v'.used| && v'.ValidPlace(v'.owner[c]) && v'.Val(v'.owner[c]) == c
    {
      WrittenVal(v, nmeta, i, bn, blk, v'.owner[c]);
    }
  }

  // The blocks in data places are in range, distinct and not metadata.
  lemma BlockOfOk(v: Vol, nmeta: nat, i: nat, bn: nat)
    requires v.Own(nmeta, 0, 0) && bn < MAXFILE && i < |v.addrs|
    ensures v.ValidPlace(PlaceOf(i, bn))
    ensures v.BlockOf(i, bn) != 0 ==> nmeta <= v.BlockOf(i, bn) < |v.data| && v.used[v.BlockOf(i, bn)]
    ensures v.View(i, bn).Some? <==> v.BlockOf(i, bn) != 0
  {
    assert Index(i);
    var p := PlaceOf(i, bn);
    assert At(p) && Index(v.Val(p));
  }

  // ------------------------------------------- what updates do to the views

  lemma AssignedView(v: Vol, nmeta: nat, i: nat, k: nat, b: nat, i': nat, bn: nat)
    requires v.Own(nmeta, 0, 0) && i < |v.addrs| && k <= NDIRECT && |v.addrs[i]| == NDIRECT + 1
    requires b < |v.used| && !v.used[b] && v.addrs[i][k] == 0
    requires i' < |v.addrs| && bn < MAXFILE
    ensures var v' := Assigned(v, i, k, b);
            && v.ValidPlace(PlaceOf(i', bn)) && v'.ValidPlace(PlaceOf(i', bn))
            && v'.View(i', bn) == (if i' == i && bn == k < NDIRECT then Some(Zero()) else v.View(i', bn))
            && (!(i' == i && bn == k < NDIRECT) ==> v'.BlockOf(i', bn) == v.BlockOf(i', bn))
  {
    assert Index(i') && Index(b) && Index(i);
    BlockOfOk(v, nmeta, i', bn);
    AssignedVal(v, nmeta, i, k, b, PlaceOf(i', bn));
  }

  lemma EnteredView(v: Vol, nmeta: nat, i: nat, j: nat, b: nat, i': nat, bn: nat)
    requires v.Own(nmeta, 0, 0) && v.ValidPlace(Entry(i, j)) && v.addrs[i][NDIRECT] != 0
    requires b < |v.used| && !v.used[b] && v.Val(Entry(i, j)) == 0
    requires i' < |v.addrs| && bn < MAXFILE
    ensures var v' := Entered(v, i, j, b);
            && v.ValidPlace(PlaceOf(i', bn)) && v'.ValidPlace(PlaceOf(i', bn))
            && v'.View(i', bn) == (if i' == i && bn == NDIRECT + j then Some(Zero()) else v.View(i', bn))
            && (!(i' == i && bn == NDIRECT + j) ==> v'.BlockOf(i', bn) == v.BlockOf(i', bn))
  {
    var p := PlaceOf(i', bn);
    BlockOfOk(v, nmeta, i', bn);
    EnteredVal(v, nmeta, i, j, b, p);
    assert At(p) && At(Indirect(i)) && Index(b);
  }

  lemma WrittenView(v: Vol, nmeta: nat, i: nat, bn: nat, blk: ByteBlock, i': nat, bn': nat)
    requires v.Own(nmeta, 0, 0) && bn < MAXFILE && v.ValidPlace(PlaceOf(i, bn)) && 0 != v.BlockOf(i, bn) < |v.data|
    requires i' < |v.addrs| && bn' < MAXFILE
    ensures var v' := Written(v, v.BlockOf(i, bn), blk);
            && v.ValidPlace(PlaceOf(i', bn')) && v'.ValidPlace(PlaceOf(i', bn'))
            && v'.View(i', bn') == (if i' == i && bn' == bn then Some(blk) else v.View(i', bn'))
            && v'.BlockOf(i', bn') == v.BlockOf(i', bn')
  {
    BlockOfOk(v, nmeta, i', bn');
    WrittenVal(v, nmeta, i, bn, blk, PlaceOf(i', bn'));
    assert At(PlaceOf(i, bn)) && At(PlaceOf(i', bn'));
  }

  // ------------------------------------------------------------- truncation

  // Block b, the value of word k of ip->addrs, is freed and the word cleared.
  ghost function Cleared(v: Vol, i: nat, k: nat): Vol
    requires i < |v.addrs| && k < |v.addrs[i]| && v.addrs[i][k] < |v.used|
  {
    var b := v.addrs[i][k];
    Vol(v.used[b := false], v.data, v.addrs[i := Put(v.addrs[i], k, 0)], v.owner - {b})
  }

  lemma ClearedDirect(v: Vol, nmeta: nat, i: nat, k: nat)
    requires v.Own(nmeta, i, 0) && i < |v.addrs| && k < NDIRECT && |v.addrs[i]| == NDIRECT + 1 && v.addrs[i][k] != 0
    ensures v.addrs[i][k] < |v.used| && v.used[v.addrs[i][k]]
    ensures v.addrs[i][k] in v.owner && v.owner[v.addrs[i][k]] == Direct(i, k)
    ensures Cleared(v, i, k).Own(nmeta, i, 0)
  {
    assert Index(i) && At(Direct(i, k));
    var b := v.addrs[i][k];
    assert Index(b);
  }

  // Block b, word j of the indirect block, is freed; the word stays.
  ghost function Freed(v: Vol, b: nat): Vol
    requires b < |v.used|
  {
    v.(used := v.used[b := false], owner := v.owner - {b})
  }

  lemma FreedEntry(v: Vol, nmeta: nat, i: nat, j: nat)
    requires v.Own(nmeta, i, j) && v.ValidPlace(Entry(i, j))
    ensures var b := v.Val(Entry(i, j));
            && (b == 0 ==> v.Own(nmeta, i, j + 1))
            && (b != 0 ==> && b < |v.used| && v.used[b] && b in v.owner && v.owner[b] == Entry(i, j)
                           && Freed(v, b).Own(nmeta, i, j + 1))
  {
    assert At(Entry(i, j));
    var b := v.Val(Entry(i, j));
    assert Index(b);
  }

  lemma ClearedIndirect(v: Vol, nmeta: nat, i: nat)
    requires v.Own(nmeta, i, NINDIRECT) && i < |v.addrs| && |v.addrs[i]| == NDIRECT + 1 && v.addrs[i][NDIRECT] != 0
    ensures var b := v.addrs[i][NDIRECT];
            && b < |v.used| && v.used[b] && b in v.owner && v.owner[b] == Indirect(i)
            && Cleared(v, i, NDIRECT).Own(nmeta, 0, 0)
  {
    assert Index(i) && At(Indirect(i));
    var b := v.addrs[i][NDIRECT];
    assert Index(b);
  }

  // All blocks of inode i freed, and its entries cleared.
  ghost function Truncated(v: Vol, i: nat): Vol
    requires i < |v.addrs|
  {
    Vol(seq(|v.used|, b requires 0 <= b < |v.used| => v.used[b] && !(b in v.owner && v.owner[b].i == i)),
        v.data, v.addrs[i := seq(NDIRECT + 1, _ => 0)], map b | b in v.owner && v.owner[b].i != i :: v.owner[b])
  }

  lemma TruncatedOwn(v: Vol, nmeta: nat, i: nat)
    requires v.Own(nmeta, 0, 0) && i < |v.addrs|
    ensures Truncated(v, i).Own(nmeta, 0, 0)
  {
    var v' := Truncated(v, i);
    assert Index(i);
    forall p {:trigger At(p)} | At(p) && v'.ValidPlace(p) && v'.Val(p) != 0
      ensures v'.Val(p) in v'.owner && v'.owner[v'.Val(p)] == p
    {
      assert p.i != i && v.ValidPlace(p) && v.Val(p) == v'.Val(p);
    }
  }

  // ---------------------------------------------------- sequences of changes

  // What operations do to a volume, one change at a time.
  datatype Change =
    | Assign(i: nat, k: nat, b: nat)
    | Enter(i: nat, j: nat, b: nat)
    | Store(i: nat, bn: nat, blk: ByteBlock)
    | Trunc(i: nat)

  ghost predicate Can(v: Vol, c: Change) {
    && |v.used| == |v.data| <= UINT
    && match c
       case Assign(i, k, b) =>
         && i < |v.addrs| && k <= NDIRECT && |v.addrs[i]| == NDIRECT + 1 && v.addrs[i][k] == 0
         && b < |v.used| && !v.used[b]
       case Enter(i, j, b) =>
         && v.ValidPlace(Entry(i, j)) && v.addrs[i][NDIRECT] != 0 && v.Val(Entry(i, j)) == 0
         && b < |v.used| && !v.used[b]
       case Store(i, bn, _) => bn < MAXFILE && v.ValidPlace(PlaceOf(i, bn)) && 0 != v.BlockOf(i, bn) < |v.data|
       case Trunc(i) => i < |v.addrs|
  }

  ghost function After(v: Vol, c: Change): Vol
    requires Can(v, c)
  {
    match c
    case Assign(i, k, b) => Assigned(v, i, k, b)
    case Enter(i, j, b) => Entered(v, i, j, b)
    case Store(i, bn, blk) => Written(v, v.BlockOf(i, bn), blk)
    case Trunc(i) => Truncated(v, i)
  }

  ghost predicate Changes(v: Vol, w: Vol) { exists c :: Can(v, c) && w == After(v, c) }

  ghost predicate AtChange(k: int) { true }

  // Volumes that come from one another by one change each.
  ghost predicate Trail(vs: seq<Vol>) {
    |vs| > 0 && forall k {:trigger AtChange(k)} :: AtChange(k) && 0 <= k < |vs| - 1 ==> Changes(vs[k], vs[k + 1])
  }

  // Always true; the handle by which a trail is taken out of Leads.
  ghost predicate AtTrail(h: int) { true }

  ghost predicate Joins(vs: seq<Vol>, v: Vol, w: Vol) { Trail(vs) && vs[0] == v && vs[|vs| - 1] == w }

  // w comes from v by such changes.
  ghost predicate Leads(v: Vol, w: Vol) {
    forall h {:trigger AtTrail(h)} :: AtTrail(h) ==> exists vs :: Joins(vs, v, w)
  }

  lemma LeadsBy(vs: seq<Vol>, v: Vol, w: Vol)
    requires Joins(vs, v, w)
    ensures Leads(v, w)
  {
  }

  lemma LeadsNone(v: Vol)
    ensures Leads(v, v)
  {
    LeadsBy([v], v, v);
  }

  lemma LeadsOne(v: Vol, c: Change)
    requires Can(v, c)
    ensures Leads(v, After(v, c))
  {
    var w := After(v, c);
    assert Changes(v, w);
    assert Trail([v, w]);
    LeadsBy([v, w], v, w);
  }

  lemma TrailsJoin(a: seq<Vol>, b: seq<Vol>)
    requires Trail(a) && Trail(b) && a[|a| - 1] == b[0]
    ensures Trail(a + b[1..])
  {
    var ab := a + b[1..];
    forall k {:trigger AtChange(k)} | AtChange(k) && 0 <= k < |ab| - 1 ensures Changes(ab[k], ab[k + 1]) {
      if k < |a| - 1 {
        assert ab[k] == a[k] && ab[k + 1] == a[k + 1];
      } else {
        var j := k + 1 - |a|;
        assert AtChange(j) && ab[k] == b[j] && ab[k + 1] == b[j + 1];
      }
    }
  }

  lemma LeadsThen(u: Vol, v: Vol, w: Vol)
    requires Leads(u, v) && Leads(v, w)
    ensures Leads(u, w)
  {
    assert AtTrail(0);
    var a :| Joins(a, u, v);
    var b :| Joins(b, v, w);
    TrailsJoin(a, b);
    LeadsBy(a + b[1..], u, w);
  }

  lemma ChangeOwn(v: Vol, nmeta: nat, c: Change)
    requires v.Own(nmeta, 0, 0) && Can(v, c)
    ensures After(v, c).Own(nmeta, 0, 0)
  {
    match c
    case Assign(i, k, b) => AssignedOwn(v, nmeta, i, k, b);
    case Enter(i, j, b) => EnteredOwn(v, nmeta, i, j, b);
    case Store(i, bn, blk) => WrittenOwn(v, nmeta, i, bn, blk);
    case Trunc(i) => TruncatedOwn(v, nmeta, i);
  }

  lemma {:induction false} TrailOwn(vs: seq<Vol>, nmeta: nat, k: nat)
    requires Trail(vs) && vs[0].Own(nmeta, 0, 0) && k < |vs|
    ensures vs[k].Own(nmeta, 0, 0)
  {
    if k > 0 {
      TrailOwn(vs, nmeta, k - 1);
      assert AtChange(k - 1);
      var c :| Can(vs[k - 1], c) && vs[k] == After(vs[k - 1], c);
      ChangeOwn(vs[k - 1], nmeta, c);
    }
  }

  /** No sequence of allocations, stores and truncations breaks ownership. */
  lemma LeadsOwn(v: Vol, w: Vol, nmeta: nat)
    requires Leads(v, w) && v.Own(nmeta, 0, 0)
    ensures w.Own(nmeta, 0, 0)
  {
    assert AtTrail(0);
    var vs :| Joins(vs, v, w);
    TrailOwn(vs, nmeta, |vs| - 1);
  }
}
