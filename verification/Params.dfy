/** Parameters of the kernel (kernel/param.h, kernel/fs.h) and notions that several modules share. */
module Params {
  const ROOTDEV := 1       // the only device with a file system
  const MAXOPBLOCKS := 10  // blocks one file-system operation may log
  const LOGSIZE := MAXOPBLOCKS * 3
  const NBUF := MAXOPBLOCKS * 3

  const UINT := 0x1_0000_0000  // the values of a 32-bit unsigned integer

  type Byte = x: int | 0 <= x < 256

  datatype Option<+T> = None | Some(value: T)

  function Min(a: nat, b: nat): nat { if a < b then a else b }

  lemma CardSubset(a: set<nat>, b: set<nat>)
    requires a <= b
    ensures |a| <= |b|
  {
    assert b == a + (b - a);
  }

  // A C string up to its NUL.
  predicate NulFree(s: string) { forall i :: 0 <= i < |s| ==> s[i] != '\0' }

  // Always true; the handle by which a predicate that bundles many facts is unfolded.
  ghost predicate Open(h: int) { true }

  // Always true; the handle by which facts about block and buffer numbers are used.
  ghost predicate Index(i: int) { true }
}
