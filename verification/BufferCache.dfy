/**
  The buffer cache (kernel/bio.c) over the RAM disk (kernel/ramdisk.c), call by
  call. The interleavings of several threads are the subject of module
  StorageMachine.
 */
module BufferCache {
  import opened Params
  import opened RedoLog

  datatype Buf = Buf(valid: bool, dev: nat, blockno: nat, refcnt: nat, locked: bool, data: Block)

  // NoBuffers is a panic. A call that waits for the lock of its buffer has not
  // returned yet.
  datatype Got = Locked(b: nat) | Waits(b: nat) | NoBuffers

  // Buffers are numbered from 0; the list head of the LRU list is number NBUF.
  const HEAD := NBUF

  // The nodes of a circular list whose members, from head.next on, are order.
  function Node(order: seq<nat>, i: int): nat
    requires -1 <= i <= |order|
  {
    if 0 <= i < |order| then order[i] else HEAD
  }

  ghost predicate Linked(prev: seq<nat>, next: seq<nat>, order: seq<nat>) {
    && |prev| == |next| == NBUF + 1
    && Distinct(order)
    && (forall i :: 0 <= i < |order| ==> order[i] < NBUF)
    && forall i :: 0 <= i <= |order| ==>
         next[Node(order, i - 1)] == Node(order, i) && prev[Node(order, i)] == Node(order, i - 1)
  }

  ghost predicate Holds(b: Buf, bno: nat) { b.dev == ROOTDEV && b.blockno == bno }

  // slot maps each cached block to its buffer, refs and held say block by
  // block what the buffers' counts and locks say, cur is the latest contents
  // of every block: in its buffer if that is valid, on disk otherwise. A
  // block whose latest contents are not on disk is in a referenced buffer.
  ghost predicate Coherent(buf: seq<Buf>, slot: map<nat, nat>, refs: seq<nat>, held: set<nat>, cur: Image,
                           disk: Image) {
    && |refs| == |cur| == |disk|
    && (forall i {:trigger Index(i)} :: Index(i) && 0 <= i < |buf| ==> BufOk(buf[i], i, slot, refs, held, cur))
    && (forall x {:trigger Index(x)} :: Index(x) && x in slot ==>
          x < |disk| && slot[x] < |buf| && Holds(buf[slot[x]], x))
    && (forall x {:trigger Index(x)} :: Index(x) && x in held ==> x in slot)
    && (forall x {:trigger Index(x)} :: Index(x) && 0 <= x < |disk| && x !in slot ==> refs[x] == 0)
    && (forall x {:trigger Index(x)} :: Index(x) && 0 <= x < |disk| && cur[x] != disk[x] ==>
          x in slot && buf[slot[x]].valid && refs[x] > 0)
  }

  ghost predicate BufOk(b: Buf, i: nat, slot: map<nat, nat>, refs: seq<nat>, held: set<nat>, cur: Image)
    requires |refs| == |cur|
  {
    if b.dev == 0 then !b.valid && b.refcnt == 0 && !b.locked
    else
      && b.dev == ROOTDEV && b.blockno < |cur| && b.blockno in slot && slot[b.blockno] == i
      && refs[b.blockno] == b.refcnt
      && (b.blockno in held <==> b.locked)
      && (b.locked ==> b.refcnt > 0)
      && (b.valid ==> b.data == cur[b.blockno])
  }

  // Two references taken and dropped again leave the counts as they were.
  lemma TakeAndDrop(refs: seq<nat>, x: nat, y: nat)
    requires x < |refs| && y < |refs| && x != y
    ensures var r := refs[x := refs[x] + 1][y := refs[y] + 1];
            r[x] > 0 && r[y] > 0 && r[y := r[y] - 1][x := r[x] - 1] == refs
  {
  }

  // The same, with one reference to y dropped in between.
  lemma TakeAndUnpin(refs: seq<nat>, x: nat, y: nat)
    requires x < |refs| && y < |refs| && x != y && refs[y] > 0
    ensures var r := refs[x := refs[x] + 1][y := refs[y] + 1];
            r[x] > 0 && r[y] > 1 && r[y := r[y] - 2][x := r[x] - 1] == refs[y := refs[y] - 1]
  {
  }

  function Reslot(slot: map<nat, nat>, was: Buf, x: nat, b: nat): map<nat, nat> {
    (if was.dev == 0 then slot else slot - {was.blockno})[x := b]
  }

  // Replacing the buffer of block x changes the counts of x alone.
  lemma ReplaceOwn(buf: seq<Buf>, slot: map<nat, nat>, refs: seq<nat>, held: set<nat>, cur: Image, disk: Image,
                   b: nat, v: Buf, x: nat)
    requires Coherent(buf, slot, refs, held, cur, disk)
    requires b < |buf| && x < |disk| && Holds(v, x) && Holds(buf[b], x)
    requires (v.locked ==> v.refcnt > 0) && (v.valid ==> v.data == cur[x])
    requires cur[x] != disk[x] ==> v.valid && v.refcnt > 0
    ensures Coherent(buf[b := v], slot[x := b], refs[x := v.refcnt],
                     if v.locked then held + {x} else held - {x}, cur, disk)
  {
    assert Index(b) && Index(x);
  }

  // Replacing the buffer of block x, or an unreferenced one by a buffer for
  // the uncached block x, changes the counts of x alone.
  lemma Replace(buf: seq<Buf>, slot: map<nat, nat>, refs: seq<nat>, held: set<nat>, cur: Image, disk: Image,
                b: nat, v: Buf, x: nat)
    requires Coherent(buf, slot, refs, held, cur, disk)
    requires b < |buf| && x < |disk| && Holds(v, x)
    requires (v.locked ==> v.refcnt > 0) && (v.valid ==> v.data == cur[x])
    requires Holds(buf[b], x) || (x !in slot && buf[b].refcnt == 0)
    requires cur[x] != disk[x] ==> v.valid && v.refcnt > 0
    ensures Coherent(buf[b := v], Reslot(slot, buf[b], x, b), refs[x := v.refcnt],
                     if v.locked then held + {x} else held - {x}, cur, disk)
  {
    if Holds(buf[b], x) {
      ReplaceOwn(buf, slot, refs, held, cur, disk, b, v, x);
      assert Reslot(slot, buf[b], x, b) == slot[x := b];
    } else {
      Recycle(buf, slot, refs, held, cur, disk, b, v, x);
    }
  }

  lemma Recycle(buf: seq<Buf>, slot: map<nat, nat>, refs: seq<nat>, held: set<nat>, cur: Image, disk: Image,
                b: nat, v: Buf, x: nat)
    requires Coherent(buf, slot, refs, held, cur, disk)
    requires b < |buf| && x < |disk| && Holds(v, x) && x !in slot && buf[b].refcnt == 0
    requires (v.locked ==> v.refcnt > 0) && (v.valid ==> v.data == cur[x])
    requires cur[x] != disk[x] ==> v.valid && v.refcnt > 0
    ensures Coherent(buf[b := v], Reslot(slot, buf[b], x, b), refs[x := v.refcnt],
                     if v.locked then held + {x} else held - {x}, cur, disk)
  {
    assert Index(b) && Index(x) && Index(buf[b].blockno);
    RecycleBufs(buf, slot, refs, held, cur, disk, b, v, x);
    var slot' := Reslot(slot, buf[b], x, b);
    forall y {:trigger Index(y)} | Index(y) && 0 <= y < |disk| && cur[y] != disk[y]
      ensures y in slot' && buf[b := v][slot'[y]].valid && refs[x := v.refcnt][y] > 0
    {
    }
  }

  lemma RecycleBufs(buf: seq<Buf>, slot: map<nat, nat>, refs: seq<nat>, held: set<nat>, cur: Image, disk: Image,
                    b: nat, v: Buf, x: nat)
    requires Coherent(buf, slot, refs, held, cur, disk)
    requires b < |buf| && x < |disk| && Holds(v, x) && x !in slot && buf[b].refcnt == 0
    requires (v.locked ==> v.refcnt > 0) && (v.valid ==> v.data == cur[x])
    ensures forall i {:trigger Index(i)} :: Index(i) && 0 <= i < |buf| ==>
              BufOk(buf[b := v][i], i, Reslot(slot, buf[b], x, b), refs[x := v.refcnt],
                    if v.locked then held + {x} else held - {x}, cur)
  {
    assert Index(b) && Index(x) && Index(buf[b].blockno);
    forall i {:trigger Index(i)} | Index(i) && 0 <= i < |buf|
      ensures BufOk(buf[b := v][i], i, Reslot(slot, buf[b], x, b), refs[x := v.refcnt],
                    if v.locked then held + {x} else held - {x}, cur)
    {
    }
  }

  // The blocks that are referenced.
  ghost function Used(refs: seq<nat>): set<nat> { set x | 0 <= x < |refs| && refs[x] > 0 }

  // At least k buffers are unreferenced.
  ghost predicate Room(refs: seq<nat>, k: nat) { |Used(refs)| + k <= NBUF }

  // Nobody holds x or y, and there are buffers for both.
  ghost predicate Free(refs: seq<nat>, held: set<nat>, x: nat, y: nat)
    requires y < |refs|
  {
    x !in held && y !in held && Room(refs, if refs[y] > 0 then 1 else 2)
  }

  lemma RoomFewer(refs: seq<nat>, refs': seq<nat>, k: nat)
    requires Room(refs, k) && Used(refs') <= Used(refs)
    ensures Room(refs', k)
  {
    CardSubset(Used(refs'), Used(refs));
  }

  lemma RoomNext(refs: seq<nat>, x: nat, k: nat)
    requires Room(refs, k + 1) && x < |refs|
    ensures Room(refs[x := refs[x] + 1], k)
  {
    CardSubset(Used(refs[x := refs[x] + 1]), Used(refs) + {x});
  }

  // Referenced buffers are as many as the blocks they hold.
  lemma {:induction false} BlocksOf(buf: seq<Buf>, slot: map<nat, nat>, refs: seq<nat>, held: set<nat>, cur: Image,
                                    disk: Image, n: nat) returns (blocks: set<nat>)
    requires Coherent(buf, slot, refs, held, cur, disk) && n <= |buf|
    requires forall i :: 0 <= i < n ==> buf[i].refcnt > 0
    ensures |blocks| == n && blocks <= Used(refs)
    ensures forall x :: x in blocks ==> x in slot && slot[x] < n
  {
    blocks := {};
    if n > 0 {
      blocks := BlocksOf(buf, slot, refs, held, cur, disk, n - 1);
      assert Index(n - 1);
      blocks := blocks + {buf[n - 1].blockno};
    }
  }

  lemma SomeUnused(buf: seq<Buf>, slot: map<nat, nat>, refs: seq<nat>, held: set<nat>, cur: Image, disk: Image)
    requires Coherent(buf, slot, refs, held, cur, disk) && |buf| == NBUF && Room(refs, 1)
    ensures exists i :: 0 <= i < NBUF && buf[i].refcnt == 0
  {
    if forall i :: 0 <= i < NBUF ==> buf[i].refcnt > 0 {
      var blocks := BlocksOf(buf, slot, refs, held, cur, disk, NBUF);
      CardSubset(blocks, Used(refs));
    }
  }

  // The list without b, which is at position p.
  function Without(order: seq<nat>, p: nat): seq<nat>
    requires p < |order|
  {
    order[..p] + order[p + 1..]
  }

  // Every buffer nearer the tail of the list than b is referenced.
  ghost predicate Oldest(buf: seq<Buf>, order: seq<nat>, b: nat) {
    exists k ::
      && 0 <= k < |order| && order[k] == b
      && forall j :: k < j < |order| ==> order[j] < |buf| && buf[order[j]].refcnt > 0
  }

  lemma UnlinkFront(prev: seq<nat>, next: seq<nat>, order: seq<nat>, p: nat)
    requires Linked(prev, next, order) && p < |order|
    ensures next[order[p]] == Node(order, p + 1) && prev[order[p]] == Node(order, p - 1)
    ensures var b := order[p];
            Linked(prev[next[b] := prev[b]], next[prev[b] := next[b]], Without(order, p))
  {
    var b := order[p];
    assert next[Node(order, p + 1 - 1)] == Node(order, p + 1);
    assert prev[Node(order, p)] == Node(order, p - 1);
    var o := Without(order, p);
    var prev', next' := prev[next[b] := prev[b]], next[prev[b] := next[b]];
    forall i | 0 <= i <= |o|
      ensures next'[Node(o, i - 1)] == Node(o, i) && prev'[Node(o, i)] == Node(o, i - 1)
    {
      if i < p {
        assert Node(o, i) == Node(order, i) && Node(o, i - 1) == Node(order, i - 1);
      } else if i == p {
        assert Node(o, i - 1) == Node(order, p - 1) && Node(o, i) == Node(order, p + 1);
      } else {
        assert Node(o, i) == Node(order, i + 1) && Node(o, i - 1) == Node(order, i);
        assert next[Node(order, i + 1 - 1)] == Node(order, i + 1);
      }
    }
  }

  lemma PushFront(prev: seq<nat>, next: seq<nat>, order: seq<nat>, b: nat)
    requires Linked(prev, next, order) && b < NBUF && b !in order
    ensures next[HEAD] == Node(order, 0)
    ensures var n := next[HEAD];
            Linked(prev[b := HEAD][n := b], next[b := n][HEAD := b], [b] + order)
  {
    var n := next[HEAD];
    assert next[Node(order, 0 - 1)] == Node(order, 0) == n;
    var o := [b] + order;
    var prev', next' := prev[b := HEAD][n := b], next[b := n][HEAD := b];
    forall i | 0 <= i <= |o|
      ensures next'[Node(o, i - 1)] == Node(o, i) && prev'[Node(o, i)] == Node(o, i - 1)
    {
      if i >= 2 {
        assert Node(o, i) == Node(order, i - 1) && Node(o, i - 1) == Node(order, i - 2);
        assert next[Node(order, i - 1 - 1)] == Node(order, i - 1);
      } else if i == 1 {
        assert Node(o, 1) == Node(order, 0) == n;
      }
    }
  }

  class Bcache {
    var disk: Image
    ghost var trace: seq<Write>  // every block write that reached the disk
    var buf: seq<Buf>
    var prev: seq<nat>
    var next: seq<nat>
    ghost var order: seq<nat>    // the LRU list, most recently used first
    ghost var cur: Image         // the latest contents of every block
    ghost var slot: map<nat, nat>  // the buffer of each cached block
    ghost var refs: seq<nat>     // references to each block
    ghost var held: set<nat>     // blocks whose buffer is locked

    // Every buffer is on the list once.
    ghost predicate ListOk()
      reads this
    {
      && |buf| == NBUF == |order|
      && Linked(prev, next, order)
      && (forall b :: 0 <= b < NBUF ==> b in order)
    }

    ghost predicate Valid()
      reads this
    {
      ListOk() && Coherent(buf, slot, refs, held, cur, disk)
    }

    // Buffer b is locked and holds the latest contents of block x.
    ghost predicate Handle(b: nat, x: nat)
      reads this
    {
      && b < |buf| && x < |cur| == |refs| && x in held && refs[x] > 0
      && buf[b] == Buf(true, ROOTDEV, x, refs[x], true, cur[x])
    }

    // binit: an empty cache over a given disk.
    constructor (d: Image)
      ensures Valid() && disk == d == cur && trace == []
      ensures held == {} && refs == seq(|d|, _ => 0)
      ensures forall i :: 0 <= i < NBUF ==> order[i] == NBUF - 1 - i
    {
      disk, cur, trace := d, d, [];
      var zero: Block := seq(WORDS, _ => 0);
      buf := seq(NBUF, _ => Buf(false, 0, 0, 0, false, zero));
      slot, refs, held := map[], seq(|d|, _ => 0), {};
      var pv: seq<nat>, nx: seq<nat> := seq(NBUF + 1, _ => HEAD), seq(NBUF + 1, _ => HEAD);
      ghost var o: seq<nat> := [];
      for b := 0 to NBUF
        invariant Linked(pv, nx, o)
        invariant |o| == b && forall i :: 0 <= i < b ==> o[i] == b - 1 - i
      {
        PushFront(pv, nx, o, b);
        nx := nx[b := nx[HEAD]];
        pv := pv[b := HEAD];
        pv := pv[nx[HEAD] := b];
        nx := nx[HEAD := b];
        o := [b] + o;
      }
      prev, next, order := pv, nx, o;
      new;
      forall b | 0 <= b < NBUF ensures b in order {
        assert order[NBUF - 1 - b] == b;
      }
    }

    // bget's first loop: the buffer of the block, or HEAD when it is not cached.
    method Find(bno: nat) returns (b: nat)
      requires ListOk()
      ensures b <= NBUF
      ensures b != HEAD ==> Holds(buf[b], bno)
      ensures b == HEAD ==> forall i :: 0 <= i < NBUF ==> !Holds(buf[i], bno)
    {
      b := next[HEAD];
      ghost var k := 0;
      assert next[Node(order, 0 - 1)] == Node(order, 0);
      while b != HEAD
        invariant 0 <= k <= NBUF && b == Node(order, k)
        invariant forall j :: 0 <= j < k ==> !Holds(buf[order[j]], bno)
        decreases NBUF - k
      {
        if buf[b].dev == ROOTDEV && buf[b].blockno == bno {
          return;
        }
        assert next[Node(order, k + 1 - 1)] == Node(order, k + 1);
        b, k := next[b], k + 1;
      }
      forall i | 0 <= i < NBUF ensures !Holds(buf[i], bno) {
        assert i in order;
      }
    }

    // bget's second loop: the unreferenced buffer nearest the tail of the
    // list, or HEAD when every buffer is referenced.
    method LeastRecent() returns (b: nat)
      requires ListOk()
      ensures b <= NBUF
      ensures b != HEAD ==> buf[b].refcnt == 0
      ensures b != HEAD ==> Oldest(buf, order, b)
      ensures b == HEAD ==> forall i :: 0 <= i < NBUF ==> buf[i].refcnt > 0
    {
      b := prev[HEAD];
      ghost var k := NBUF - 1;
      assert prev[Node(order, NBUF)] == Node(order, NBUF - 1);
      while b != HEAD
        invariant -1 <= k < NBUF && b == Node(order, k)
        invariant forall j :: k < j < NBUF ==> buf[order[j]].refcnt > 0
        decreases k + 1
      {
        if buf[b].refcnt == 0 {
          return;
        }
        assert prev[Node(order, k)] == Node(order, k - 1);
        b, k := prev[b], k - 1;
      }
      forall i | 0 <= i < NBUF ensures buf[i].refcnt > 0 {
        assert i in order;
      }
    }

    // Buffer b takes a new value for block x: the block it already holds, or,
    // for an unreferenced buffer, a block that is not cached.
    method Assign(b: nat, v: Buf, ghost x: nat)
      requires Valid() && b < NBUF && x < |disk| && Holds(v, x)
      requires (v.locked ==> v.refcnt > 0) && (v.valid ==> v.data == cur[x])
      requires Holds(buf[b], x) || (buf[b].refcnt == 0 && x !in slot)
      requires cur[x] != disk[x] ==> v.valid && v.refcnt > 0
      modifies this`buf, this`refs, this`held, this`slot
      ensures Valid() && buf == old(buf)[b := v]
      ensures slot == Reslot(old(slot), old(buf)[b], x, b)
      ensures refs == old(refs)[x := v.refcnt]
      ensures held == if v.locked then old(held) + {x} else old(held) - {x}
    {
      Replace(buf, slot, refs, held, cur, disk, b, v, x);
      slot := Reslot(slot, buf[b], x, b);
      buf := buf[b := v];
      refs := refs[x := v.refcnt];
      held := if v.locked then held + {x} else held - {x};
    }

    // The buffer of block x changes. What is kept of the cache is exactly what
    // the new value allows: a locked buffer must be referenced, and so must one
    // that holds what the disk does not.
    method Change(b: nat, v: Buf, ghost x: nat)
      requires Valid() && b < NBUF && x < |disk| && Holds(v, x) && Holds(buf[b], x) && (v.valid ==> v.data == cur[x])
      modifies this`buf, this`refs, this`held, this`slot
      ensures ListOk() && buf == old(buf)[b := v] && refs == old(refs)[x := v.refcnt]
      ensures held == if v.locked then old(held) + {x} else old(held) - {x}
      ensures Valid() <==> (v.locked ==> v.refcnt > 0) && (cur[x] != disk[x] ==> v.valid && v.refcnt > 0)
    {
      assert Index(b) && Index(x);
      if (v.locked ==> v.refcnt > 0) && (cur[x] != disk[x] ==> v.valid && v.refcnt > 0) {
        ReplaceOwn(buf, slot, refs, held, cur, disk, b, v, x);
      }
      slot := slot[x := b];
      buf := buf[b := v];
      refs := refs[x := v.refcnt];
      held := if v.locked then held + {x} else held - {x};
    }

    // bget: find the block's buffer, or recycle the least recently used
    // unreferenced one, and lock it. A buffer that is locked already keeps the
    // caller waiting, with its reference counted.
    method Bget(bno: nat) returns (r: Got)
      requires Valid() && bno < |disk|
      modifies this`buf, this`refs, this`held, this`slot
      ensures Valid()
      ensures r.NoBuffers? <==> bno !in old(slot) && forall i :: 0 <= i < NBUF ==> old(buf)[i].refcnt > 0
      ensures r.Waits? <==> bno in old(held)
      ensures r.NoBuffers? ==> unchanged(this)
      ensures !r.NoBuffers? ==> r.b < NBUF
      ensures !r.NoBuffers? ==> refs == old(refs)[bno := old(refs)[bno] + 1] && held == old(held) + {bno}
      ensures !r.NoBuffers? ==> (old(Holds(buf[r.b], bno)) <==> bno in old(slot))
      ensures !r.NoBuffers? && bno !in old(slot) ==> old(buf[r.b].refcnt) == 0 && Oldest(old(buf), old(order), r.b)
      ensures !r.NoBuffers? ==> buf == old(buf)[r.b := Buf(bno in old(slot) && old(buf[r.b].valid), ROOTDEV, bno,
                                                           refs[bno], true, old(buf[r.b].data))]
    {
      var b := Find(bno);
      assert Index(bno);
      if b != HEAD {
        assert Index(b);
        Assign(b, buf[b].(refcnt := buf[b].refcnt + 1), bno);
        if buf[b].locked {
          return Waits(b);
        }
        Assign(b, buf[b].(locked := true), bno);
        return Locked(b);
      }
      b := LeastRecent();
      if b != HEAD {
        assert Index(b);
        Assign(b, Buf(false, ROOTDEV, bno, 1, true, buf[b].data), bno);
        return Locked(b);
      }
      return NoBuffers;
    }

    // bread: a locked buffer with the latest contents of the block.
    method Bread(bno: nat) returns (r: Got)
      requires Valid() && bno < |disk|
      modifies this`buf, this`refs, this`held, this`slot
      ensures Valid()
      ensures r.NoBuffers? <==> bno !in old(slot) && forall i :: 0 <= i < NBUF ==> old(buf)[i].refcnt > 0
      ensures r.NoBuffers? ==> unchanged(this) && refs[bno] == 0 && !Room(refs, 1)
      ensures r.Waits? <==> bno in old(held)
      ensures r.Waits? ==> r.b < NBUF && old(Holds(buf[r.b], bno))
      ensures r.Waits? ==> buf == old(buf)[r.b := old(buf[r.b]).(refcnt := old(buf[r.b].refcnt) + 1)]
      ensures r.Locked? ==> Handle(r.b, bno)
      ensures !r.NoBuffers? ==> refs == old(refs)[bno := old(refs)[bno] + 1] && held == old(held) + {bno}
      ensures !r.Waits? ==> forall i :: 0 <= i < NBUF && old(buf[i].locked) ==> buf[i] == old(buf[i])
    {
      r := Bget(bno);
      assert Index(bno);
      assert !r.NoBuffers? ==> Index(r.b);
      if r.Locked? && !buf[r.b].valid {
        var b := r.b;
        assert cur[bno] == disk[bno];
        Assign(b, buf[b].(valid := true, data := disk[bno]), bno);
        assert held == old(held) + {bno};
      }
      if r.NoBuffers? && Room(refs, 1) { SomeUnused(buf, slot, refs, held, cur, disk); }
    }

    // The holder of a locked buffer overwrites its data.
    method Modify(b: nat, x: nat, data: Block)
      requires Valid() && Handle(b, x)
      modifies this`buf, this`cur
      ensures Valid() && Handle(b, x)
      ensures buf == old(buf)[b := old(buf[b]).(data := data)]
      ensures cur == old(cur)[x := data]
    {
      assert Index(b) && Index(x);
      buf := buf[b := buf[b].(data := data)];
      cur := cur[x := data];
    }

    // bwrite: one atomic block write.
    method Bwrite(b: nat, ghost x: nat)
      requires Valid() && Handle(b, x)
      modifies this`disk, this`trace
      ensures Valid()
      ensures trace == old(trace) + [Write(x, cur[x])] && disk == old(disk)[x := cur[x]]
    {
      disk := disk[buf[b].blockno := buf[b].data];
      trace := trace + [Write(x, buf[b].data)];
    }

    // brelse: unlock and drop the reference; on the last one move the buffer
    // to the front of the LRU list. The cache stays coherent exactly if the block
    // is clean or pinned: otherwise its contents may be recycled.
    method Brelse(b: nat, ghost x: nat)
      requires Valid() && Handle(b, x)
      modifies this`buf, this`prev, this`next, this`order, this`refs, this`held, this`slot
      ensures Valid() <==> old(refs)[x] > 1 || cur[x] == disk[x]
      ensures buf == old(buf)[b := old(buf[b]).(locked := false, refcnt := old(refs)[x] - 1)]
      ensures refs == old(refs)[x := old(refs)[x] - 1] && held == old(held) - {x}
      ensures refs[x] > 0 ==> order == old(order)
      ensures refs[x] == 0 ==> exists p :: 0 <= p < NBUF && old(order)[p] == b && order == [b] + Without(old(order), p)
    {
      Change(b, buf[b].(locked := false, refcnt := buf[b].refcnt - 1), x);
      if buf[b].refcnt == 0 {
        MoveToFront(b);
      }
    }

    method MoveToFront(b: nat)
      requires ListOk() && b < NBUF
      modifies this`prev, this`next, this`order
      ensures ListOk()
      ensures exists p :: 0 <= p < NBUF && old(order)[p] == b && order == [b] + Without(old(order), p)
    {
      assert b in order;
      ghost var p :| 0 <= p < NBUF && order[p] == b;
      UnlinkFront(prev, next, order, p);
      prev := prev[next[b] := prev[b]];
      next := next[prev[b] := next[b]];
      order := Without(order, p);
      PushFront(prev, next, order, b);
      next := next[b := next[HEAD]];
      prev := prev[b := HEAD];
      prev := prev[next[HEAD] := b];
      next := next[HEAD := b];
      order := [b] + order;
      forall i | 0 <= i < NBUF ensures i in order {
        assert i in old(order);
      }
    }

    // Two bread calls in a row, as write_log and install_trans make them.
    method BreadPair(x: nat, y: nat) returns (ok: bool, a: nat, b: nat)
      requires Valid() && x < |disk| && y < |disk| && x != y
      modifies this`buf, this`refs, this`held, this`slot
      ensures ok ==> Valid() && x !in old(held) && y !in old(held) && Handle(a, x) && Handle(b, y)
      ensures ok ==> refs == old(refs)[x := old(refs)[x] + 1][y := old(refs)[y] + 1] && held == old(held) + {x, y}
      ensures Free(old(refs), old(held), x, y) ==> ok
    {
      ok, a, b := false, 0, 0;
      var r := Bread(x);
      if !r.Locked? { return; }
      a := r.b;
      assert refs[y] == old(refs)[y];
      if Room(old(refs), 2) { RoomNext(old(refs), x, 1); }
      r := Bread(y);
      if !r.Locked? { return; }
      ok, b := true, r.b;
    }

    // Overwrite a locked buffer and write it to disk.
    method Store(b: nat, x: nat, data: Block)
      requires Valid() && Handle(b, x)
      modifies this`buf, this`cur, this`disk, this`trace
      ensures Valid() && buf == old(buf)[b := old(buf[b]).(data := data)]
      ensures cur == old(cur)[x := data] && disk == old(disk)[x := data] && trace == old(trace) + [Write(x, data)]
    {
      Modify(b, x, data);
      Bwrite(b, x);
    }

    method BrelsePair(a: nat, b: nat, ghost x: nat, ghost y: nat)
      requires Valid() && x != y && Handle(a, x) && Handle(b, y)
      requires (refs[x] > 1 || cur[x] == disk[x]) && (refs[y] > 1 || cur[y] == disk[y])
      modifies this`buf, this`prev, this`next, this`order, this`refs, this`held, this`slot
      ensures Valid()
      ensures refs == old(refs)[x := old(refs)[x] - 1][y := old(refs)[y] - 1] && held == old(held) - {x, y}
    {
      Brelse(a, x);
      assert refs[y] == old(refs)[y];
      Brelse(b, y);
    }

    // Loop body of write_log: copy block `from` over block `to` and write it
    // to disk. Stops before the write when bread panics or waits.
    method CopyOut(to: nat, from: nat) returns (ok: bool)
      requires Valid() && to < |disk| && from < |disk| && to != from
      requires refs[from] > 0 || cur[from] == disk[from]
      modifies this
      ensures Free(old(refs), old(held), to, from) ==> ok
      ensures !ok ==> trace == old(trace) && disk == old(disk) && cur == old(cur)
      ensures ok ==> Valid() && refs == old(refs) && held == old(held)
      ensures ok ==> var w := Write(to, old(cur)[from]);
                     trace == old(trace) + [w] && disk == Put(old(disk), w) && cur == Put(old(cur), w)
    {
      var a, b;
      ok, a, b := BreadPair(to, from);
      if !ok { return; }
      Store(a, to, buf[b].data);
      BrelsePair(b, a, from, to);
      TakeAndDrop(old(refs), to, from);
    }

    // Loop body of install_trans: copy log block `x` over home block `y`, write
    // it to disk and drop the pin unless recovering.
    method CopyHome(x: nat, y: nat, recovering: bool) returns (ok: bool)
      requires Valid() && x < |disk| && y < |disk| && x != y
      requires refs[x] > 0 || cur[x] == disk[x]
      requires !recovering ==> refs[y] > 0
      modifies this
      ensures Free(old(refs), old(held), x, y) ==> ok
      ensures !ok ==> trace == old(trace) && disk == old(disk) && cur == old(cur)
      ensures ok ==> Valid() && held == old(held)
      ensures ok ==> refs == if recovering then old(refs) else old(refs)[y := old(refs)[y] - 1]
      ensures ok ==> var w := Write(y, old(cur)[x]);
                     trace == old(trace) + [w] && disk == Put(old(disk), w) && cur == Put(old(cur), w)
    {
      var a, b;
      ok, a, b := BreadPair(x, y);
      if !ok { return; }
      Store(b, y, buf[a].data);
      DropHome(a, b, x, y, recovering);
      if recovering { TakeAndDrop(old(refs), x, y); } else { TakeAndUnpin(old(refs), x, y); }
    }

    // The end of that body.
    method DropHome(a: nat, b: nat, ghost x: nat, ghost y: nat, recovering: bool)
      requires Valid() && x != y && Handle(a, x) && Handle(b, y)
      requires (refs[x] > 1 || cur[x] == disk[x]) && cur[y] == disk[y] && (!recovering ==> refs[y] > 1)
      modifies this`buf, this`prev, this`next, this`order, this`refs, this`held, this`slot
      ensures Valid() && held == old(held) - {x, y}
      ensures refs == old(refs)[y := old(refs)[y] - if recovering then 1 else 2][x := old(refs)[x] - 1]
    {
      if !recovering {
        Bunpin(b, y);
      }
      BrelsePair(b, a, y, x);
    }

    // bpin: an extra reference keeps the block cached.
    method Bpin(b: nat, ghost x: nat)
      requires Valid() && b < NBUF && x < |disk| && Holds(buf[b], x)
      modifies this`buf, this`refs, this`held, this`slot
      ensures Valid() && buf == old(buf)[b := old(buf[b]).(refcnt := old(buf[b].refcnt) + 1)]
      ensures refs == old(refs)[x := old(refs)[x] + 1] && held == old(held)
    {
      assert Index(b) && Index(x);
      Assign(b, buf[b].(refcnt := buf[b].refcnt + 1), x);
      assert held == old(held);
    }

    // bunpin, whoever holds the buffer. The cache stays coherent exactly if it
    // is not the last reference, or the buffer is unlocked and its contents are
    // on disk.
    method Bunpin(b: nat, ghost x: nat)
      requires Valid() && b < NBUF && x < |disk| && Holds(buf[b], x) && buf[b].refcnt > 0
      modifies this`buf, this`refs, this`held, this`slot
      ensures buf == old(buf)[b := old(buf[b]).(refcnt := old(buf[b].refcnt) - 1)]
      ensures Valid() <==> old(buf[b].refcnt) > 1 || (!old(buf[b].locked) && cur[x] == disk[x])
      ensures refs == old(refs)[x := old(buf[b].refcnt) - 1] && held == old(held)
    {
      assert Index(b) && Index(x);
      Change(b, buf[b].(refcnt := buf[b].refcnt - 1), x);
      assert held == old(held);
    }
  }
}
