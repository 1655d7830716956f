/** pipe.c. Each method is one stretch of code under p->lock, up to a sleep or the return, so
    any interleaving of readers, writers and closers is a sequence of these calls. */
module Pipes {
  import opened FsBlocks

  const PIPESIZE := 512
  const WORD32 := 0x1_0000_0000

  // ---- the ring and its wrapping counters ----

  ghost predicate RingOk(data: seq<Byte>, nread: int, nwrite: int) {
    |data| == PIPESIZE && 0 <= nread < WORD32 && 0 <= nwrite < WORD32 && Count(nread, nwrite) <= PIPESIZE
  }

  /** Bytes in flight; the subtraction wraps at 32 bits. */
  function Count(nread: int, nwrite: int): (n: int)
    ensures 0 <= n < WORD32
  {
    (nwrite - nread) % WORD32
  }

  /** The bytes in flight, oldest first. */
  ghost function Queue(data: seq<Byte>, nread: int, nwrite: int): (q: seq<Byte>)
    requires RingOk(data, nread, nwrite)
    ensures |q| == Count(nread, nwrite)
  {
    seq(Count(nread, nwrite), k requires 0 <= k < Count(nread, nwrite) => data[(nread + k) % PIPESIZE])
  }

  /** The full test, nwrite == nread + PIPESIZE in 32-bit arithmetic. */
  lemma FullTest(nread: int, nwrite: int)
    requires 0 <= nread < WORD32 && 0 <= nwrite < WORD32
    ensures nwrite == (nread + PIPESIZE) % WORD32 <==> Count(nread, nwrite) == PIPESIZE
    ensures nread == nwrite <==> Count(nread, nwrite) == 0
  {
  }

  /** PIPESIZE divides 2^32, so wrapping a counter does not move its slot. */
  lemma WrapKeepsSlot(n: int)
    requires 0 <= n
    ensures (n % WORD32) % PIPESIZE == n % PIPESIZE
  {
  }

  lemma CountPut(nread: int, nwrite: int)
    requires 0 <= nread < WORD32 && 0 <= nwrite < WORD32 && Count(nread, nwrite) < PIPESIZE
    ensures Count(nread, (nwrite + 1) % WORD32) == Count(nread, nwrite) + 1
  {
  }

  lemma CountGet(nread: int, nwrite: int)
    requires 0 <= nread < WORD32 && 0 <= nwrite < WORD32 && 0 < Count(nread, nwrite)
    ensures Count((nread + 1) % WORD32, nwrite) == Count(nread, nwrite) - 1
  {
  }

  /** The slots in flight are distinct, and the next to be written comes after them. */
  lemma SlotOf(nread: int, nwrite: int, k: int)
    requires 0 <= nread < WORD32 && 0 <= nwrite < WORD32 && Count(nread, nwrite) < PIPESIZE
              && 0 <= k <= Count(nread, nwrite)
    ensures (nread + k) % PIPESIZE == nwrite % PIPESIZE <==> k == Count(nread, nwrite)
  {
    var n := Count(nread, nwrite);
    assert (nread + n) % WORD32 == nwrite;
    WrapKeepsSlot(nread + n);
  }

  lemma PutQueue(data: seq<Byte>, nread: int, nwrite: int, b: Byte)
    requires RingOk(data, nread, nwrite) && Count(nread, nwrite) < PIPESIZE
    ensures RingOk(data[nwrite % PIPESIZE := b], nread, (nwrite + 1) % WORD32)
    ensures Queue(data[nwrite % PIPESIZE := b], nread, (nwrite + 1) % WORD32) == Queue(data, nread, nwrite) + [b]
  {
    CountPut(nread, nwrite);
    forall k | 0 <= k <= Count(nread, nwrite)
      ensures data[nwrite % PIPESIZE := b][(nread + k) % PIPESIZE] == (Queue(data, nread, nwrite) + [b])[k]
    {
      SlotOf(nread, nwrite, k);
    }
  }

  lemma GetQueue(data: seq<Byte>, nread: int, nwrite: int)
    requires RingOk(data, nread, nwrite) && 0 < Count(nread, nwrite)
    ensures RingOk(data, (nread + 1) % WORD32, nwrite)
    ensures Queue(data, nread, nwrite) == [data[nread % PIPESIZE]] + Queue(data, (nread + 1) % WORD32, nwrite)
  {
    CountGet(nread, nwrite);
    var q, rest := Queue(data, nread, nwrite), Queue(data, (nread + 1) % WORD32, nwrite);
    forall k | 0 <= k < |rest|
      ensures rest[k] == q[k + 1]
    {
      SlotNext(nread, k);
    }
  }

  lemma SlotNext(nread: int, k: int)
    requires 0 <= nread && 0 <= k
    ensures ((nread + 1) % WORD32 + k) % PIPESIZE == (nread + (k + 1)) % PIPESIZE
  {
    WrapKeepsSlot(nread + 1);
  }

  // ---- the pipe ----

  datatype WriteResult = Wrote | WriteFailed | WriterAsleep
  datatype ReadResult = Got(bytes: seq<Byte>) | ReadFailed | ReaderAsleep

  class PipeRing {
    const data: array<Byte>
    var nread: int
    var nwrite: int
    var readopen: bool
    var writeopen: bool
    // the processes asleep on &p->nread, on &p->nwrite
    var readers: set<int>
    var writers: set<int>
    // every byte ever written, every byte ever read
    ghost var sent: seq<Byte>
    ghost var received: seq<Byte>

    ghost predicate Ok()
      reads this, data
    {
      RingOk(data[..], nread, nwrite)
    }

    ghost function InFlight(): (q: seq<Byte>)
      reads this, data
      requires Ok()
    {
      Queue(data[..], nread, nwrite)
    }

    /** What was read is what was written first, in order; the rest is in the ring. */
    ghost predicate Valid()
      reads this, data
    {
      Ok() && sent == received + InFlight()
    }

    /** Nobody sleeps who could go on. */
    ghost predicate NobodyForgotten()
      reads this, data
      requires Ok()
    {
      && (readers != {} ==> InFlight() == [] && writeopen)
      && (writers != {} ==> |InFlight()| == PIPESIZE && readopen)
    }

    /** pipealloc. */
    constructor ()
      ensures Valid() && NobodyForgotten() && fresh(data) && sent == received == [] && readopen && writeopen
      ensures readers == writers == {}
    {
      data := new Byte[PIPESIZE];
      nread, nwrite, readopen, writeopen, readers, writers := 0, 0, true, true, {}, {};
      sent, received := [], [];
    }

    method PutByte(b: Byte)
      requires Valid() && |InFlight()| < PIPESIZE
      modifies `nwrite, `sent, data
      ensures Valid() && InFlight() == old(InFlight()) + [b] && sent == old(sent) + [b]
    {
      PutQueue(data[..], nread, nwrite, b);
      data[nwrite % PIPESIZE] := b;
      assert data[..] == old(data[..])[nwrite % PIPESIZE := b];
      nwrite := (nwrite + 1) % WORD32;
      sent := sent + [b];
    }

    method GetByte() returns (b: Byte)
      requires Valid() && |InFlight()| > 0
      modifies `nread, `received
      ensures Valid() && old(InFlight()) == [b] + InFlight() && received == old(received) + [b]
    {
      GetQueue(data[..], nread, nwrite);
      b := data[nread % PIPESIZE];
      nread := (nread + 1) % WORD32;
      received := received + [b];
    }

    /** pipewrite by process p from addr[i] on, until it sleeps or returns. It puts the bytes it
        gets to in order behind those in flight, stops early only with the ring full, and
        leaves nobody asleep who could go on, except when it gives up under a sleeping reader
        with more than a ring's worth left to write. */
    method Pipewrite(p: int, addr: seq<Byte>, i: nat, killed: bool) returns (r: WriteResult, j: nat)
      requires Valid() && i <= |addr| && writeopen && p !in readers && p !in writers
      modifies `nwrite, `sent, data, `readers, `writers
      ensures Valid() && i <= j <= |addr|
      ensures InFlight() == old(InFlight()) + addr[i..j] && sent == old(sent) + addr[i..j]
      ensures r == Wrote <==> |old(InFlight())| + |addr| - i <= PIPESIZE
      ensures r == Wrote ==> j == |addr|
      ensures r != Wrote ==> |InFlight()| == PIPESIZE
      ensures r == WriteFailed <==> r != Wrote && (!readopen || killed)
      ensures readers == if r == WriteFailed then old(readers) else {}
      ensures writers == if r == WriterAsleep then old(writers) + {p} else old(writers)
      ensures old(NobodyForgotten()) ==>
                (NobodyForgotten() <==> !(old(readers) != {} && (killed || !readopen) && |addr| - i > PIPESIZE))
    {
      j := i;
      while j < |addr|
        invariant Valid() && i <= j <= |addr| && readers == old(readers) && writers == old(writers)
        invariant InFlight() == old(InFlight()) + addr[i..j] && sent == old(sent) + addr[i..j]
      {
        FullTest(nread, nwrite);
        if nwrite == (nread + PIPESIZE) % WORD32 {
          if !readopen || killed {
            return WriteFailed, j;
          }
          readers := {};
          writers := writers + {p};
          return WriterAsleep, j;
        }
        PutByte(addr[j]);
        j := j + 1;
      }
      readers := {};
      r := Wrote;
    }

    /** piperead by process p until it sleeps or returns: it hands over the oldest bytes, and
        none only when none are asked for or none are left with the write end closed. */
    method Piperead(p: int, n: int, killed: bool) returns (r: ReadResult)
      requires Valid() && readopen && p !in readers && p !in writers
      modifies `nread, `received, `readers, `writers
      ensures Valid() && (old(NobodyForgotten()) ==> NobodyForgotten())
      ensures r.Got? <==> old(InFlight()) != [] || !writeopen
      ensures r.Got? ==> r.bytes + InFlight() == old(InFlight()) && received == old(received) + r.bytes
      ensures r.Got? ==> |r.bytes| == Clip(n, |old(InFlight())|) && readers == old(readers) && writers == {}
      ensures r.Got? && r.bytes == [] && n > 0 ==> InFlight() == [] && !writeopen
      ensures !r.Got? ==> InFlight() == old(InFlight()) == [] && received == old(received) && writers == old(writers)
      ensures !r.Got? ==> (r.ReadFailed? <==> killed) && readers == if killed then old(readers) else old(readers) + {p}
    {
      FullTest(nread, nwrite);
      if nread == nwrite && writeopen {
        if killed {
          return ReadFailed;
        }
        readers := readers + {p};
        return ReaderAsleep;
      }
      var bytes: seq<Byte> := [];
      var i := 0;
      while i < n
        invariant Valid() && i == |bytes| && (i == 0 || i <= n)
        invariant readers == old(readers) && writers == old(writers)
        invariant bytes + InFlight() == old(InFlight()) && received == old(received) + bytes
      {
        FullTest(nread, nwrite);
        if nread == nwrite {
          break;
        }
        var b := GetByte();
        bytes := bytes + [b];
        i := i + 1;
      }
      writers := {};
      r := Got(bytes);
    }

    /** kill of a process that may be asleep in the pipe: it leaves the channel. */
    method Killed(p: int)
      requires Valid()
      modifies `readers, `writers
      ensures Valid() && readers == old(readers) - {p} && writers == old(writers) - {p}
      ensures old(NobodyForgotten()) ==> NobodyForgotten()
    {
      readers := readers - {p};
      writers := writers - {p};
    }

    /** pipeclose by process p, which is running. The page goes back to the kernel exactly when
        both ends are closed. */
    method Pipeclose(p: int, writable: bool) returns (freed: bool)
      requires Valid() && p !in readers && p !in writers
      modifies `readopen, `writeopen, `readers, `writers
      ensures Valid() && (old(NobodyForgotten()) ==> NobodyForgotten()) && InFlight() == old(InFlight())
      ensures writeopen == (old(writeopen) && !writable) && readopen == (old(readopen) && writable)
      ensures readers == (if writable then {} else old(readers)) && writers == if writable then old(writers) else {}
      ensures freed <==> !readopen && !writeopen
    {
      if writable {
        writeopen := false;
        readers := {};
      } else {
        readopen := false;
        writers := {};
      }
      freed := !readopen && !writeopen;
    }
  }

  function Clip(n: int, most: int): int {
    if n < 0 then 0 else if n < most then n else most
  }
}
