/**
  The free-block bitmap (balloc and bfree in kernel/fs.c): one bit a block, in
  bitmap blocks of BSIZE bytes.
 */
module Bitmap {
  import opened Params
  import opened Volume

  const BPB := BSIZE * 8  // bitmap bits per block

  type BitBlock = b: seq<bv8> | |b| == BSIZE witness seq(BSIZE, _ => 0)

  // 1 << (bi % 8)
  function Mask(k: nat): bv8
    requires k < 8
  {
    match k
    case 0 => 1 case 1 => 2 case 2 => 4 case 3 => 8
    case 4 => 16 case 5 => 32 case 6 => 64 case 7 => 128
  }

  predicate Bit(v: bv8, k: nat)
    requires k < 8
  {
    v & Mask(k) != 0
  }

  lemma BitSet(v: bv8, k: nat, j: nat)
    requires k < 8 && j < 8
    ensures Bit(v | Mask(k), j) <==> j == k || Bit(v, j)
  {
  }

  lemma BitCleared(v: bv8, k: nat, j: nat)
    requires k < 8 && j < 8
    ensures Bit(v & !Mask(k), j) <==> j != k && Bit(v, j)
  {
  }

  // Bit bi of a bitmap block.
  predicate BlockBit(b: BitBlock, bi: nat)
    requires bi < BPB
  {
    Bit(b[bi / 8], bi % 8)
  }

  function WithBit(b: BitBlock, bi: nat): BitBlock
    requires bi < BPB
  {
    b[bi / 8 := b[bi / 8] | Mask(bi % 8)]
  }

  function WithoutBit(b: BitBlock, bi: nat): BitBlock
    requires bi < BPB
  {
    b[bi / 8 := b[bi / 8] & !Mask(bi % 8)]
  }

  // A number is its quotient and remainder.
  lemma SameDiv(x: nat, y: nat, d: nat)
    requires 0 < d && x / d == y / d
    ensures x % d == y % d <==> x == y
  {
    assert x == x / d * d + x % d && y == y / d * d + y % d;
  }

  lemma BlockBitSet(b: BitBlock, bi: nat, bj: nat)
    requires bi < BPB && bj < BPB
    ensures BlockBit(WithBit(b, bi), bj) <==> bj == bi || BlockBit(b, bj)
  {
    if bi / 8 == bj / 8 {
      BitSet(b[bi / 8], bi % 8, bj % 8);
      SameDiv(bi, bj, 8);
    }
  }

  lemma BlockBitCleared(b: BitBlock, bi: nat, bj: nat)
    requires bi < BPB && bj < BPB
    ensures BlockBit(WithoutBit(b, bi), bj) <==> bj != bi && BlockBit(b, bj)
  {
    if bi / 8 == bj / 8 {
      BitCleared(b[bi / 8], bi % 8, bj % 8);
      SameDiv(bi, bj, 8);
    }
  }

  // Whether block b is in use.
  predicate Used(bitmap: seq<BitBlock>, b: nat)
    requires b < |bitmap| * BPB
  {
    BlockBit(bitmap[b / BPB], b % BPB)
  }

  // used lists the bits of the first |used| blocks.
  ghost predicate Decodes(bitmap: seq<BitBlock>, used: seq<bool>) {
    && |used| <= |bitmap| * BPB
    && forall b {:trigger Index(b)} :: Index(b) && 0 <= b < |used| ==> used[b] == Used(bitmap, b)
  }

  // Changing one bit changes the state of one block.
  lemma DecodesUpdate(bitmap: seq<BitBlock>, used: seq<bool>, b: nat, m: BitBlock, on: bool)
    requires Decodes(bitmap, used) && b < |used|
    requires forall bj :: 0 <= bj < BPB ==>
               (BlockBit(m, bj) <==> if bj == b % BPB then on else BlockBit(bitmap[b / BPB], bj))
    ensures Decodes(bitmap[b / BPB := m], used[b := on])
  {
    forall c {:trigger Index(c)} | Index(c) && 0 <= c < |used|
      ensures used[b := on][c] == Used(bitmap[b / BPB := m], c)
    {
      if c / BPB == b / BPB {
        SameDiv(b, c, BPB);
      }
    }
  }

  lemma DecodesSet(bitmap: seq<BitBlock>, used: seq<bool>, b: nat)
    requires Decodes(bitmap, used) && b < |used|
    ensures Decodes(bitmap[b / BPB := WithBit(bitmap[b / BPB], b % BPB)], used[b := true])
  {
    var m := WithBit(bitmap[b / BPB], b % BPB);
    forall bj | 0 <= bj < BPB
      ensures BlockBit(m, bj) <==> if bj == b % BPB then true else BlockBit(bitmap[b / BPB], bj)
    {
      BlockBitSet(bitmap[b / BPB], b % BPB, bj);
    }
    DecodesUpdate(bitmap, used, b, m, true);
  }

  lemma DecodesCleared(bitmap: seq<BitBlock>, used: seq<bool>, b: nat)
    requires Decodes(bitmap, used) && b < |used|
    ensures Decodes(bitmap[b / BPB := WithoutBit(bitmap[b / BPB], b % BPB)], used[b := false])
  {
    var m := WithoutBit(bitmap[b / BPB], b % BPB);
    forall bj | 0 <= bj < BPB
      ensures BlockBit(m, bj) <==> if bj == b % BPB then false else BlockBit(bitmap[b / BPB], bj)
    {
      BlockBitCleared(bitmap[b / BPB], b % BPB, bj);
    }
    DecodesUpdate(bitmap, used, b, m, false);
  }
}
