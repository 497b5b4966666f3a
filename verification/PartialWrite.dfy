/**
  A write that fails part way (writei in kernel/fs.c), on a volume with one
  bitmap block, one inode block and one file of two bytes.
 */
module PartialWrite {
  import opened Params
  import opened Volume
  import opened Bitmap
  import opened FileSystem
  import opened FileContents

  function NoBlocks(): seq<nat> { seq(NDIRECT + 1, _ => 0) }

  function OneBlock(): seq<nat> { NoBlocks()[0 := 3] }

  // Blocks 0 to 2 are metadata, block 3 belongs to inode 1.
  ghost function SmallVolume(): Vol {
    Vol([true, true, true, true], [Zero(), Zero(), Zero(), Zero()], [NoBlocks(), OneBlock()], map[3 := Direct(1, 0)])
  }

  function SmallBitmap(): BitBlock { seq(BSIZE, q => if q == 0 then 0xF else 0) }

  lemma SmallBitmapDecodes()
    ensures Decodes([SmallBitmap()], [true, true, true, true])
  {
    forall b {:trigger Index(b)} | Index(b) && 0 <= b < 4 ensures Used([SmallBitmap()], b) {
      assert b == 0 || b == 1 || b == 2 || b == 3;
      assert Bit(0xF, 0) && Bit(0xF, 1) && Bit(0xF, 2) && Bit(0xF, 3);
    }
  }

  lemma SmallVolumeOwns()
    ensures SmallVolume().Own(3, 0, 0) && HoleFree(SmallVolume(), 1, 2)
    ensures var v := SmallVolume(); v.ValidPlace(PlaceOf(1, 0)) && v.BlockOf(1, 0) == 3 && Get(v, 1, 0) == 0
  {
    var v := SmallVolume();
    forall p {:trigger At(p)} | At(p) && v.ValidPlace(p) && v.Val(p) != 0 ensures p == Direct(1, 0) {
    }
    assert v.ValidPlace(Direct(1, 0)) && v.Val(Direct(1, 0)) == 3;
  }

  lemma SmallSpoils()
    ensures Spoils(SmallVolume(), 1, {}, 0, [1, 1], 1)
  {
    SmallVolumeOwns();
    assert PieceStart(0, 1) <= 0 < 0 + 1 && [1, 1][0 - 0] != Get(SmallVolume(), 1, 0);
  }

  // The volume, with its file's inode in memory.
  method SmallDisk() returns (fs: FileSystem, ip: Inode)
    ensures fresh(fs) && fresh(ip) && ip.inum == 1 && ip.size == 2 && fs.v == SmallVolume() && fs.logged == {}
    ensures fs.Inv() && fs.InCore(ip) && fs.AllLogged() && HoleFree(fs.v, 1, 2)
  {
    var file, none := Dinode(2, 0, 0, 1, 2, OneBlock()), Dinode(0, 0, 0, 0, 0, NoBlocks());
    SmallBitmapDecodes();
    SmallVolumeOwns();
    fs := new FileSystem(3, 1, 2, [SmallBitmap()], [Zero(), Zero(), Zero(), Zero()], [none, file], SmallVolume());
    ip := new Inode(1, file);
  }

  /**
    Two bytes are to be written over the file but only the first can be read:
    writei reports nothing written, yet the byte is in the file's block, and
    that change is not logged.
   */
  method ByteLeftUnlogged() returns (r: WriteResult, fs: FileSystem, ip: Inode)
    ensures r == Wrote(0) && fs.v.ValidPlace(PlaceOf(ip.inum, 0)) && Get(fs.v, ip.inum, 0) == 1 && !fs.AllLogged()
  {
    fs, ip := SmallDisk();
    SmallSpoils();
    SmallVolumeOwns();
    ghost var stray;
    r, stray := Writei(fs, ip, 0, [1, 1], 1);
    ByteThere(SmallVolume(), fs.v, 1, [1, 1]);
  }

  lemma ByteThere(v0: Vol, v: Vol, i: nat, src: seq<Byte>)
    requires Stored(v0, v, i, 0, src, 1)
    ensures v.ValidPlace(PlaceOf(i, 0)) && |src| >= 1 && Get(v, i, 0) == src[0]
  {
    assert Open(0) && Index(0);
  }
}
