/**
  The page-table entry as the 64-bit word of kernel/loongarch.h, and that its
  macros do to the word what the model does to the entry.
 */
module PteBits {
  import opened PageTable
  import V = Vm

  const PAMASK: bv64 := 0x0000_FFFF_FFFF_F000
  const FLAGMASK: bv64 := 0xE000_0000_0000_01FF
  const DMWIN: bv64 := 0x9000_0000_0000_0000
  const RAMBASE: bv64 := 0x9000_0000_9000_0000
  const RAMSTOP: bv64 := 0x9000_0000_9800_0000

  function FlagsOf(w: bv64): Flags { Flags(w & 0x1 != 0, w & 0xC, w & 0x1F2, w & 0xE000_0000_0000_0000) }

  // The word that mappages and walk store for kernel pointer p.
  function Word(p: bv64, perm: bv64): bv64 { (p & PAMASK) | perm | 0x1 }

  // kalloc's pointers survive the trip through an entry.
  lemma WordPointer(p: bv64, perm: bv64)
    requires RAMBASE <= p < RAMSTOP && p & 0xFFF == 0 && perm & !FLAGMASK == 0
    ensures (Word(p, perm) & PAMASK) | DMWIN == p
    ensures FlagsOf(Word(p, perm)) == V.On(FlagsOf(perm))
  {
  }

  // The tests and the changes the code makes to flags.
  lemma FlagTests(w: bv64)
    ensures w & 0x1 != 0 <==> FlagsOf(w).v
    ensures w & 0xC != 0 <==> FlagsOf(w).plv != 0
    ensures w & FLAGMASK == 0x1 <==> FlagsOf(w) == PTE_V
  {
  }

  lemma FlagChanges(w: bv64)
    ensures FlagsOf((w & FLAGMASK) & 0xFFFF_FFFF) == V.Low(FlagsOf(w))
    ensures FlagsOf(w & !0xC) == V.NoUser(FlagsOf(w))
  {
  }
}
