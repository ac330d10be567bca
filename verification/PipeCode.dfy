// pipe.c as it runs: a ring of bytes under two 32-bit counters that wrap around.
module PipeCode {
  import opened Blocks
  import opened Pipe

  const U32: nat := 0x1_0000_0000

  function Inc(x: nat): nat {
    (x + 1) % U32
  }

  // Within one length of the ring, different counts are different slots.
  lemma {:induction false} SlotsDiffer(a: nat, b: nat)
    requires a < b < a + PIPESIZE
    ensures a % PIPESIZE != b % PIPESIZE
  {
  }

  // Wrapping a counter around does not move it to another slot.
  lemma {:induction false} WrapKeepsSlot(a: nat)
    ensures a % U32 % PIPESIZE == a % PIPESIZE
  {
    var q := a / U32;
    assert a == U32 * q + a % U32;
    assert a % U32 == a - PIPESIZE * (0x80_0000 * q);
  }

  // The ring holds the queue: as many bytes as the counters differ, from slot nread on.
  ghost predicate IsRing(data: seq<Byte>, nread: nat, nwrite: nat, queue: seq<Byte>) {
    && |data| == PIPESIZE && nread < U32 && nwrite < U32
    && |queue| == (nwrite - nread) % U32 && |queue| <= PIPESIZE
    && forall k :: 0 <= k < |queue| ==> data[Slot(nread, k)] == queue[k]
  }

  function Slot(nread: nat, k: nat): (r: nat)
    ensures r < PIPESIZE
  {
    (nread + k) % PIPESIZE
  }

  // The tests of the code on the counters tell empty and full.
  lemma {:induction false} CountersTell(data: seq<Byte>, nread: nat, nwrite: nat, queue: seq<Byte>)
    requires IsRing(data, nread, nwrite, queue)
    ensures nread == nwrite <==> queue == []
    ensures nwrite == (nread + PIPESIZE) % U32 <==> |queue| == PIPESIZE
  {
    hide Slot;
  }

  lemma {:induction false} StoreKeepsRing(data: seq<Byte>, nread: nat, nwrite: nat, queue: seq<Byte>, b: Byte)
    requires IsRing(data, nread, nwrite, queue) && |queue| < PIPESIZE
    ensures IsRing(data[nwrite % PIPESIZE := b], nread, Inc(nwrite), queue + [b])
  {
    WrapKeepsSlot(nread + |queue|);
    assert nwrite == (nread + |queue|) % U32;
    assert nwrite % PIPESIZE == Slot(nread, |queue|);
    IncDistance(nread, nwrite);
    forall k | 0 <= k < |queue| ensures Slot(nread, k) != Slot(nread, |queue|) {
      SlotsDiffer(nread + k, nread + |queue|);
    }
    hide Slot;
  }

  lemma {:induction false} TakeKeepsRing(data: seq<Byte>, nread: nat, nwrite: nat, queue: seq<Byte>)
    requires IsRing(data, nread, nwrite, queue) && queue != []
    ensures data[nread % PIPESIZE] == queue[0]
    ensures IsRing(data, Inc(nread), nwrite, queue[1..])
  {
    assert Slot(nread, 0) == nread % PIPESIZE;
    forall k | 0 <= k < |queue| - 1 ensures Slot(Inc(nread), k) == Slot(nread, k + 1) {
      WrapAddKeepsSlot(nread + 1, k);
    }
    DecDistance(nread, nwrite);
    hide Slot;
  }

  lemma {:induction false} WrapAddKeepsSlot(a: nat, k: nat)
    ensures (a % U32 + k) % PIPESIZE == (a + k) % PIPESIZE
  {
    var q := a / U32;
    assert a % U32 + k == a + k - PIPESIZE * (0x80_0000 * q);
  }

  lemma {:induction false} IncDistance(a: nat, b: nat)
    requires a < U32 && b < U32 && (b - a) % U32 < U32 - 1
    ensures (Inc(b) - a) % U32 == (b - a) % U32 + 1
  {
  }

  lemma {:induction false} DecDistance(a: nat, b: nat)
    requires a < U32 && b < U32 && a != b
    ensures (b - Inc(a)) % U32 == (b - a) % U32 - 1
  {
  }

  class PipeBuffer {
    const data: array<Byte>
    var nread: nat
    var nwrite: nat
    var readopen: bool
    var writeopen: bool
    ghost var queue: seq<Byte> // the bytes written and not read

    ghost predicate Valid()
      reads this, data
    {
      data.Length == PIPESIZE && IsRing(data[..], nread, nwrite, queue)
    }

    // pipealloc, given the page for it. count is where both counters start: 0 in the source.
    constructor (count: nat)
      requires count < U32
      ensures Valid() && queue == [] && readopen && writeopen
    {
      data := new Byte[PIPESIZE](_ => 0);
      nread, nwrite, readopen, writeopen, queue := count, count, true, true, [];
    }

    method Full() returns (r: bool)
      requires Valid()
      ensures r <==> |queue| == PIPESIZE
    {
      CountersTell(data[..], nread, nwrite, queue);
      r := nwrite == (nread + PIPESIZE) % U32;
    }

    // p->data[p->nwrite++ % PIPESIZE] = b
    method Store(b: Byte)
      requires Valid() && |queue| < PIPESIZE
      modifies data, this`nwrite, this`queue
      ensures Valid() && queue == old(queue) + [b]
    {
      StoreKeepsRing(data[..], nread, nwrite, queue, b);
      data[nwrite % PIPESIZE] := b;
      nwrite := Inc(nwrite);
      queue := queue + [b];
    }

    // p->data[p->nread++ % PIPESIZE]
    method Take() returns (b: Byte)
      requires Valid() && queue != []
      modifies this`nread, this`queue
      ensures Valid() && old(queue) == [b] + queue
    {
      b := data[nread % PIPESIZE];
      TakeKeepsRing(data[..], nread, nwrite, queue);
      nread := Inc(nread);
      queue := queue[1..];
    }

    // pipewrite from the acquire (i == 0) or from waking up, to the sleep or the return.
    method PipeWrite(addr: seq<Byte>, from: nat, killed: bool) returns (i: nat, status: Status, wakes: bool)
      requires Valid() && from <= |addr|
      modifies data, this`nwrite, this`queue
      ensures Valid()
      ensures Outcome(queue, i, status, wakes)
           == WriteSection(old(queue), readopen, killed, addr, from)
      // as many bytes as fit are stored; with bytes left it fails or sleeps
      ensures from <= i <= |addr| && queue == old(queue) + addr[from..i] && (i == |addr| || |queue| == PIPESIZE)
      ensures status == (if i == |addr| then Done(|addr|) else if !readopen || killed then Done(-1) else Asleep)
      ensures wakes <==> i == |addr| || (readopen && !killed)
    {
      i := from;
      ghost var q0 := queue;
      assert q0 == q0 + addr[from..i];
      while i < |addr|
        invariant Valid() && from <= i <= |addr| && queue == q0 + addr[from..i]
      {
        var full := Full();
        if full {
          if !readopen || killed {
            return i, Done(-1), false;
          }
          return i, Asleep, true;
        }
        Store(addr[i]);
        i := i + 1;
        assert addr[from..i] == addr[from..i - 1] + [addr[i - 1]];
      }
      return i, Done(|addr|), true;
    }

    // piperead, likewise; buf gets the bytes.
    method PipeRead(buf: array<Byte>, n: nat, killed: bool) returns (i: nat, status: Status, wakes: bool)
      requires Valid() && n <= buf.Length && buf != data
      modifies buf, this`nread, this`queue
      ensures Valid()
      ensures Outcome(queue, i, status, wakes) == ReadSection(old(queue), writeopen, killed, n)
      ensures i <= buf.Length && buf[..i] + queue == old(queue)
      // it sleeps, or fails, only on an empty pipe that may still be written to; otherwise it
      // takes what is there, up to n bytes
      ensures if old(queue) == [] && writeopen then i == 0 && !wakes && status == (if killed then Done(-1) else Asleep)
              else wakes && status == Done(i) && i <= n && (i == n || queue == [])
      ensures forall k :: i <= k < buf.Length ==> buf[k] == old(buf[k])
    {
      i := 0;
      CountersTell(data[..], nread, nwrite, queue);
      if nread == nwrite && writeopen {
        if killed {
          return 0, Done(-1), false;
        }
        return 0, Asleep, false;
      }
      ghost var q0 := queue;
      while i < n
        invariant Valid() && i <= n && i <= |q0| && queue == q0[i..] && buf[..i] == q0[..i]
        invariant forall k :: i <= k < buf.Length ==> buf[k] == old(buf[k])
      {
        CountersTell(data[..], nread, nwrite, queue);
        if nread == nwrite {
          break;
        }
        buf[i] := Take();
        i := i + 1;
      }
      return i, Done(i), true;
    }

    // Closing an end wakes those who sleep at the other one. freed: whether the page goes back
    // to kfree.
    method PipeClose(writable: bool) returns (wakesReaders: bool, wakesWriters: bool, freed: bool)
      requires Valid()
      modifies this`readopen, this`writeopen
      ensures Valid()
      ensures readopen == (old(readopen) && writable) && writeopen == (old(writeopen) && !writable)
      ensures wakesReaders == writable && wakesWriters == !writable
      ensures freed <==> !readopen && !writeopen
    {
      wakesReaders, wakesWriters := false, false;
      if writable {
        writeopen := false;
        wakesReaders := true;
      } else {
        readopen := false;
        wakesWriters := true;
      }
      freed := !readopen && !writeopen;
    }
  }
}
