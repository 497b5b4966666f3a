/**
  The file system as the words of the disk hold it (kernel/fs.h), and block
  ownership after a crash. A disk block is 256 words of 32 bits, the lowest byte
  of each first.
 */
module DiskView {
  import opened Params
  import opened RedoLog
  import opened Volume
  import opened Bitmap
  import opened FileSystem
  import opened CrashInvariant
  import M = StorageMachine

  // What the super block says, and nmeta, the blocks before the first data block.
  datatype Super = Super(nmeta: nat, bmapstart: nat, nbitmap: nat, inodestart: nat, ninodes: nat) {
    // The log, the inodes and the bitmap lie apart, all before the data.
    ghost predicate Fits(lay: Layout) {
      && lay.start + lay.size <= nmeta
      && bmapstart + nbitmap <= nmeta && inodestart + ninodes / IPB < nmeta
      && (forall b :: bmapstart <= b < bmapstart + nbitmap ==> !lay.InLog(b))
      && (forall b :: inodestart <= b <= inodestart + ninodes / IPB ==> !lay.InLog(b))
    }
  }

  function ByteOf(w: nat, k: nat): Byte
    requires k < 4
  {
    match k
    case 0 => w % 256
    case 1 => w / 256 % 256
    case 2 => w / 65536 % 256
    case 3 => w / 16777216 % 256
  }

  function Bytes(b: Block): ByteBlock { seq(BSIZE, q requires 0 <= q < BSIZE => ByteOf(b[q / 4], q % 4)) }

  /** Reading a block as bytes and then as words gives its words. */
  lemma WordOfBytes(b: Block, j: nat)
    requires j < NINDIRECT && b[j] < UINT
    ensures Word(Bytes(b), j) == b[j]
  {
    var c := Bytes(b);
    assert c[4 * j] == ByteOf(b[j], 0) by { ByteAt(b, j, 0); }
    assert c[4 * j + 1] == ByteOf(b[j], 1) by { ByteAt(b, j, 1); }
    assert c[4 * j + 2] == ByteOf(b[j], 2) by { ByteAt(b, j, 2); }
    assert c[4 * j + 3] == ByteOf(b[j], 3) by { ByteAt(b, j, 3); }
    BytesAdd(b[j]);
  }

  lemma BytesAdd(w: nat)
    requires w < UINT
    ensures ByteOf(w, 0) + 256 * ByteOf(w, 1) + 65536 * ByteOf(w, 2) + 16777216 * ByteOf(w, 3) == w
  {
    FourBytes(w);
  }

  lemma ByteAt(b: Block, j: nat, k: nat)
    requires j < NINDIRECT && k < 4
    ensures Bytes(b)[4 * j + k] == ByteOf(b[j], k)
  {
    assert (4 * j + k) / 4 == j && (4 * j + k) % 4 == k;
  }

  function Bits(b: Block): BitBlock { seq(BSIZE, q requires 0 <= q < BSIZE => Bytes(b)[q] as bv8) }

  // A 16-bit signed integer.
  function Short(x: nat): int { if x % 65536 < 32768 then x % 65536 else x % 65536 - 65536 }

  // struct dinode number k of an inode block: 16 words.
  function InodeAt(b: Block, k: nat): Dinode
    requires k < IPB
  {
    Dinode(Short(b[16 * k]), Short(b[16 * k] / 65536), Short(b[16 * k + 1]), Short(b[16 * k + 1] / 65536),
           b[16 * k + 2] % UINT, seq(NDIRECT + 1, m requires 0 <= m <= NDIRECT => b[16 * k + 3 + m] % UINT))
  }

  // Block x of a disk.
  function At(d: Image, x: nat): Block { if x < |d| then d[x] else seq(WORDS, _ => 0) }

  // Bitmap, data and inodes on a disk.
  function View(sb: Super, d: Image): Snapshot { Snapshot(BitmapIn(sb, d), DataIn(sb, d), InodesIn(sb, d)) }

  function BitmapIn(sb: Super, d: Image): seq<BitBlock> {
    seq<BitBlock>(sb.nbitmap, k requires 0 <= k < sb.nbitmap => BitsAt(sb, d, k))
  }

  function BitsAt(sb: Super, d: Image, k: nat): BitBlock { Bits(At(d, sb.bmapstart + k)) }

  function DataIn(sb: Super, d: Image): seq<ByteBlock> {
    seq<ByteBlock>(|d|, x requires 0 <= x < |d| => DataAt(sb, d, x))
  }

  function DataAt(sb: Super, d: Image, x: nat): ByteBlock { if x < sb.nmeta then Zero() else Bytes(At(d, x)) }

  function InodesIn(sb: Super, d: Image): seq<Dinode> {
    seq(sb.ninodes, i requires 0 <= i < sb.ninodes => InodeAt(At(d, sb.inodestart + i / IPB), i % IPB))
  }

  lemma ViewHome(sb: Super, lay: Layout, a: Image, b: Image)
    requires sb.Fits(lay) && SameHome(lay, a, b)
    ensures View(sb, a) == View(sb, b)
  {
    forall k | 0 <= k < sb.nbitmap ensures BitmapIn(sb, a)[k] == BitmapIn(sb, b)[k] {
      assert !lay.InLog(sb.bmapstart + k) && Index(sb.bmapstart + k);
      assert BitsAt(sb, a, k) == BitsAt(sb, b, k);
    }
    forall x | 0 <= x < |a| ensures DataIn(sb, a)[x] == DataIn(sb, b)[x] { assert Index(x); }
    forall i | 0 <= i < sb.ninodes ensures InodesIn(sb, a)[i] == InodesIn(sb, b)[i] {
      var x := sb.inodestart + i / IPB;
      assert i / IPB <= sb.ninodes / IPB && !lay.InLog(x) && Index(x);
    }
    assert BitmapIn(sb, a) == BitmapIn(sb, b) && DataIn(sb, a) == DataIn(sb, b) && InodesIn(sb, a) == InodesIn(sb, b);
  }

  // Snapshots that come from one another by one operation each.
  ghost predicate Serial(nmeta: nat, sns: seq<Snapshot>) {
    |sns| > 0 && forall k :: 0 <= k < |sns| - 1 ==> Effect(nmeta, sns[k], sns[k + 1])
  }

  // From disk a to disk b file-system operations took effect one after another.
  ghost predicate OneByOne(sb: Super, a: Image, b: Image) {
    exists sns :: Serial(sb.nmeta, sns) && sns[0] == View(sb, a) && sns[|sns| - 1] == View(sb, b)
  }

  // The operations of every group in the run are file-system operations.
  ghost predicate FileSystemRun(states: seq<M.State>, steps: seq<M.Step>, sb: Super) {
    forall i: nat, k: nat {:trigger Group(states, i, k)} ::
      Group(states, i, k) && 0 < k <= |steps| && i + 1 < k && steps[k - 1].SEndOp? ==>
        OneByOne(sb, states[i].cur, states[k].cur)
  }

  lemma {:induction false} SerialOwned(nmeta: nat, sns: seq<Snapshot>, k: nat)
    requires Serial(nmeta, sns) && Owned(nmeta, sns[0]) && k < |sns|
    ensures Owned(nmeta, sns[k])
  {
    if k > 0 {
      SerialOwned(nmeta, sns, k - 1);
      EffectOwned(nmeta, sns[k - 1], sns[k]);
    }
  }

  lemma OneByOneOwned(sb: Super, a: Image, b: Image)
    requires OneByOne(sb, a, b) && Owned(sb.nmeta, View(sb, a))
    ensures Owned(sb.nmeta, View(sb, b))
  {
    var sns :| Serial(sb.nmeta, sns) && sns[0] == View(sb, a) && sns[|sns| - 1] == View(sb, b);
    SerialOwned(sb.nmeta, sns, |sns| - 1);
  }

  ghost function OwnedOn(sb: Super): Image -> bool { d => Owned(sb.nmeta, View(sb, d)) }

  lemma OwnedHome(sb: Super, lay: Layout)
    requires sb.Fits(lay)
    ensures HomeOnly(lay, OwnedOn(sb))
  {
    var P := OwnedOn(sb);
    forall a: Image, b: Image {:trigger P(a), P(b)} | SameHome(lay, a, b) ensures P(a) == P(b) {
      ViewHome(sb, lay, a, b);
    }
  }

  lemma OwnedKept(states: seq<M.State>, steps: seq<M.Step>, sb: Super)
    requires M.Run(states, steps) && FileSystemRun(states, steps, sb)
    ensures GroupsKeep(states, steps, OwnedOn(sb))
  {
    var P := OwnedOn(sb);
    forall i: nat, k: nat {:trigger Group(states, i, k)} |
      Group(states, i, k) && 0 < k <= |steps| && i + 1 < k && steps[k - 1].SEndOp? && P(states[i].cur)
      ensures P(states[k].cur)
    {
      OneByOneOwned(sb, states[i].cur, states[k].cur);
    }
  }

  /**
    Block ownership survives every crash: if the file system owned its blocks at
    the beginning and changed only by operations, then in every state of every
    run recovery, interrupted any number of times, ends with a disk on which no
    block is shared and none is lost.
   */
  lemma OwnershipSurvives(states: seq<M.State>, steps: seq<M.Step>, sb: Super, k: nat, ks: seq<nat>)
    requires M.Run(states, steps) && k < |states| && FileSystemRun(states, steps, sb)
    requires sb.Fits(states[0].lay) && Owned(sb.nmeta, View(sb, states[0].cur))
    ensures var s := states[k];
            && Crashes(s.lay, s.disk, ks).Some? && Recoverable(s.lay, Crashes(s.lay, s.disk, ks).value)
            && Owned(sb.nmeta, View(sb, Recover(s.lay, Crashes(s.lay, s.disk, ks).value)))
  {
    OwnedHome(sb, states[0].lay);
    OwnedKept(states, steps, sb);
    SurvivesCrash(states, steps, OwnedOn(sb), k, ks);
  }
}
