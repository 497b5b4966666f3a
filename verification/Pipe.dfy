/**
  Pipes (kernel/pipe.c). A method runs from taking the pipe's lock to giving it
  up, by returning or by going to sleep; any interleaving of processes is a
  sequence of such critical sections. The ring is kept in place and the two
  counters are 32-bit and wrap around.
 */
module Pipe {
  import opened Params

  const PIPESIZE := 512
  type Pid = nat

  // The place of byte number i in the ring, and the value of a counter.
  function Slot(i: nat): (r: nat) ensures r < PIPESIZE { i % PIPESIZE }
  function Wrap(i: nat): (r: nat) ensures r < UINT { i % UINT }

  lemma WrapIs(x: nat, q: nat, r: nat)
    requires x == q * UINT + r && r < UINT
    ensures Wrap(x) == r
  {
  }

  lemma SlotIs(x: nat, q: nat, r: nat)
    requires x == q * PIPESIZE + r && r < PIPESIZE
    ensures Slot(x) == r
  {
  }

  lemma WrapAdd(i: nat, d: nat)
    ensures Wrap(Wrap(i) + d) == Wrap(i + d)
  {
    var x := Wrap(i) + d;
    WrapIs(i + d, i / UINT + x / UINT, x % UINT);
  }

  // 2^32 is a multiple of PIPESIZE, so wrapping does not move the slot.
  lemma SlotOfWrap(i: nat)
    ensures Slot(Wrap(i)) == Slot(i)
  {
    var r := Wrap(i);
    SlotIs(i, i / UINT * (UINT / PIPESIZE) + r / PIPESIZE, r % PIPESIZE);
  }

  // Counters less than 2^32 apart are told apart by their wrapped values.
  lemma WrapDistinct(i: nat, d: nat)
    requires 0 < d < UINT
    ensures Wrap(i) != Wrap(i + d)
  {
  }

  lemma SlotDistinct(i: nat, d: nat)
    requires 0 < d < PIPESIZE
    ensures Slot(i) != Slot(i + d)
  {
  }

  // How a critical section ends.
  datatype Outcome = Slept | Returned(n: int)

  class Pipe {
    const data: array<Byte>
    var nread: nat
    var nwrite: nat
    var readopen: bool
    var writeopen: bool
    var readers: set<Pid>     // processes SLEEPING in piperead
    var writers: set<Pid>     // processes SLEEPING in pipewrite
    ghost var sent: seq<Byte> // every byte ever stored
    ghost var taken: nat      // how many of them have been taken out
    ghost var delivered: seq<Byte>  // what the copies out have stored
    ghost var lost: bool      // a copy out has failed

    // The ring holds exactly the bytes sent and not yet taken, at most
    // PIPESIZE of them, whatever the counters have wrapped to.
    ghost predicate Valid()
      reads this, data
    {
      && data.Length == PIPESIZE
      && taken <= |sent| <= taken + PIPESIZE
      && nwrite == Wrap(|sent|) && nread == Wrap(taken)
      && (forall i :: taken <= i < |sent| ==> data[Slot(i)] == sent[i])
      && (!lost ==> delivered == sent[..taken])
    }

    // As long as every copy out succeeds, the bytes delivered are a prefix of
    // the bytes sent, and at most PIPESIZE are on the way.
    lemma Stream()
      requires Valid() && !lost
      ensures delivered <= sent && |sent| - |delivered| <= PIPESIZE
    {
    }

    // No reader sleeps on a non-empty pipe, no writer on a non-full one, and
    // nobody on a pipe whose other end is closed.
    ghost predicate Awake()
      reads this
    {
      && (readers != {} ==> taken == |sent| && writeopen)
      && (writers != {} ==> |sent| == taken + PIPESIZE && readopen)
    }

    // pipealloc
    constructor ()
      ensures Valid() && Awake() && fresh(data) && sent == [] && taken == 0 && delivered == [] && !lost
      ensures readopen && writeopen && readers == {} && writers == {}
    {
      data := new Byte[PIPESIZE];
      nread, nwrite, readopen, writeopen := 0, 0, true, true;
      readers, writers, sent, taken, delivered, lost := {}, {}, [], 0, [], false;
    }

    // The tests on the counters mean what they say across wrap-around.
    lemma Counters()
      requires Valid()
      ensures nread == nwrite <==> taken == |sent|
      ensures nwrite == Wrap(nread + PIPESIZE) <==> |sent| == taken + PIPESIZE
    {
      WrapAdd(taken, PIPESIZE);
      if taken < |sent| {
        WrapDistinct(taken, |sent| - taken);
      }
      if |sent| < taken + PIPESIZE {
        WrapDistinct(|sent|, taken + PIPESIZE - |sent|);
      }
    }

    // Store one byte at the write end of the ring.
    method Put(ch: Byte)
      requires Valid() && |sent| < taken + PIPESIZE
      modifies this`nwrite, this`sent, data
      ensures Valid() && sent == old(sent) + [ch]
    {
      WrapAdd(|sent|, 1);
      SlotOfWrap(|sent|);
      forall i | taken <= i < |sent| ensures Slot(i) != Slot(|sent|) {
        SlotDistinct(i, |sent| - i);
      }
      data[Slot(nwrite)] := ch;
      nwrite := Wrap(nwrite + 1);
      sent := sent + [ch];
    }

    // Take one byte from the read end; stored: whether the copy out will succeed.
    method Get(stored: bool) returns (ch: Byte)
      requires Valid() && taken < |sent|
      modifies this`nread, this`taken, this`delivered, this`lost
      ensures Valid() && taken == old(taken) + 1 && ch == sent[old(taken)] && lost == (old(lost) || !stored)
      ensures delivered == if stored then old(delivered) + [ch] else old(delivered)
    {
      WrapAdd(taken, 1);
      SlotOfWrap(taken);
      ch := data[Slot(nread)];
      nread := Wrap(nread + 1);
      taken := taken + 1;
      lost := lost || !stored;
      delivered := if stored then delivered + [ch] else delivered;
    }

    /**
      pipewrite by process me, from the point where start bytes are written.
      pr->killed is false until byte number killAt is looked at and true from
      then on; the copy can read the first avail bytes. Returns how far it got
      and how the section ended. Nobody is left asleep wrongly, except exactly
      when Strands says so before the call.
     */
    method Write(me: Pid, src: seq<Byte>, start: nat, killAt: nat, avail: nat) returns (i: nat, o: Outcome)
      requires Valid() && Awake() && start <= |src|
      modifies this, data
      ensures Valid() && readopen == old(readopen) && writeopen == old(writeopen)
      ensures taken == old(taken) && delivered == old(delivered) && lost == old(lost)
      ensures start <= i <= |src| && sent == old(sent) + src[start..i]
      ensures i > start ==> i <= killAt && i <= avail && readopen
      ensures o == Returned(-1) <==> i < |src| && (!readopen || killAt <= i)
      ensures o == Slept <==> i < |src| && readopen && i < killAt && |sent| == taken + PIPESIZE
      ensures o.Returned? && o.n != -1 ==> o.n == i && (i < |src| ==> i >= avail)
      ensures writers == if o == Slept then old(writers) + {me} else old(writers)
      ensures o != Returned(-1) ==> readers == {}
      ensures o != Returned(-1) ==> Awake()
      ensures o == Returned(-1) ==> readers == old(readers) && (Awake() <==> i == start || readers == {})
      ensures Awake() <==> !Strands(old(readopen), old(readers), start, killAt, |src|, avail)
      // With one CPU and interrupts off a kill lands before the section or after it.
      ensures killAt <= start || |src| <= killAt ==> Awake()
    {
      i := start;
      while i < |src|
        invariant Valid() && start <= i <= |src| && sent == old(sent) + src[start..i]
        invariant readopen == old(readopen) && writeopen == old(writeopen)
        invariant taken == old(taken) && delivered == old(delivered) && lost == old(lost)
        invariant readers == old(readers) && writers == old(writers)
        invariant i > start ==> writers == {} && readopen && i <= killAt && i <= avail
      {
        if !readopen || i >= killAt {
          return i, Returned(-1);
        }
        Counters();
        if nwrite == Wrap(nread + PIPESIZE) {
          readers := {};             // wake the readers
          writers := writers + {me}; // and sleep among the writers
          return i, Slept;
        }
        if i >= avail {
          break;
        }
        Put(src[i]);
        i := i + 1;
      }
      readers := {};
      o := Returned(i);
    }

    /**
      piperead by process me. dst receives the bytes; the copy out can store
      the first avail of them, and the byte on which it fails is lost.
     */
    method Read(me: Pid, n: nat, killed: bool, avail: nat) returns (dst: seq<Byte>, o: Outcome)
      requires Valid() && Awake()
      modifies this
      ensures Valid() && Awake() && sent == old(sent) && readopen == old(readopen) && writeopen == old(writeopen)
      ensures old(taken) + |dst| <= taken <= |sent| && dst == sent[old(taken)..old(taken) + |dst|]
      ensures delivered == old(delivered) + dst && (lost <==> old(lost) || taken > old(taken) + |dst|)
      ensures taken == old(taken) + |dst| +
                       (if avail < n && avail < |sent| - old(taken) && o.Returned? && o.n != -1 then 1 else 0)
      ensures old(taken) == |sent| && writeopen ==> dst == [] && o == if killed then Returned(-1) else Slept
      ensures !(old(taken) == |sent| && writeopen) ==>
                o == Returned(|dst|) && |dst| == Min(n, Min(avail, |sent| - old(taken)))
      ensures readers == if o == Slept then old(readers) + {me} else old(readers)
      ensures o.Returned? && o.n != -1 ==> writers == {}
    {
      dst := [];
      Counters();
      if nread == nwrite && writeopen {
        if killed {
          return [], Returned(-1);
        }
        readers := readers + {me};
        return [], Slept;
      }
      dst := Drain(n, avail);
      writers := {};
      o := Returned(|dst|);
    }

    // piperead's copying loop.
    method Drain(n: nat, avail: nat) returns (dst: seq<Byte>)
      requires Valid()
      modifies this
      ensures Valid() && sent == old(sent) && readopen == old(readopen) && writeopen == old(writeopen)
      ensures readers == old(readers) && writers == old(writers) && |dst| == Min(n, Min(avail, |sent| - old(taken)))
      ensures old(taken) + |dst| <= |sent| && dst == sent[old(taken)..old(taken) + |dst|]
      ensures delivered == old(delivered) + dst
      ensures taken == old(taken) + |dst| +
                       (if avail < n && avail < |sent| - old(taken) then 1 else 0)
      ensures lost <==> old(lost) || taken > old(taken) + |dst|
    {
      dst := [];
      var i := 0;
      while i < n
        invariant Valid() && 0 <= i <= n && i <= avail && sent == old(sent)
        invariant taken == old(taken) + i && dst == sent[old(taken)..taken] && delivered == old(delivered) + dst
        invariant lost == old(lost)
        invariant readopen == old(readopen) && writeopen == old(writeopen) && readers == old(readers)
        invariant writers == old(writers)
      {
        Counters();
        if nread == nwrite {
          break;
        }
        var ch := Get(i < avail);
        if i >= avail {
          break;
        }
        dst := dst + [ch];
        i := i + 1;
      }
    }

    // pipeclose; the second result says that the page is freed.
    method Close(writable: bool) returns (freed: bool)
      requires Valid() && Awake()
      modifies this`readopen, this`writeopen, this`readers, this`writers
      ensures Valid() && Awake()
      ensures writeopen == (old(writeopen) && !writable) && readopen == (old(readopen) && writable)
      ensures freed <==> !readopen && !writeopen
      ensures freed && old(readopen != writeopen) ==> readers == {} && writers == {}
    {
      if writable {
        writeopen := false;
        readers := {};
      } else {
        readopen := false;
        writers := {};
      }
      freed := !readopen && !writeopen;
    }

    // kill wakes a sleeping process.
    method Kill(p: Pid)
      requires Valid() && Awake()
      modifies this`readers, this`writers
      ensures Valid() && Awake() && readers == old(readers) - {p} && writers == old(writers) - {p}
    {
      readers, writers := readers - {p}, writers - {p};
    }
  }

  // A kill lands inside the section, after a byte is stored for a sleeping
  // reader and before the writer would wake it.
  predicate Strands(readopen: bool, readers: set<Pid>, start: nat, killAt: nat, len: nat, avail: nat) {
    readopen && readers != {} && start < killAt < len && killAt <= avail && killAt - start <= PIPESIZE
  }

  // The one way to strand a reader, on a machine with a second CPU: a writer
  // killed after it stored a byte and before it woke anybody.
  method KilledWriterStrandsReader() returns (p: Pipe)
    ensures p.Valid() && p.readers == {1} && p.taken < |p.sent| && !p.Awake()
  {
    p := new Pipe();
    var dst, o := p.Read(1, 4, false, 4);
    var i, o' := p.Write(2, [7, 8], 0, 1, 2);
  }
}
