// ide.c as it runs: idequeue and the qnext fields form a linked list of buffers.
module IdeCode {
  import opened Blocks
  import opened MemIde
  import opened Ide

  class Driver {
    const buf: array<Buf>
    const qnext: array<nat> // buf.Length stands for the null pointer
    var idequeue: nat
    var disk: DiskMap
    var device: Device
    ghost var queue: seq<nat>

    ghost predicate Valid()
      reads this, buf, qnext
    {
      && qnext.Length == buf.Length && IsList(qnext[..], idequeue, queue)
      && Inv(S())
    }

    ghost function S(): State
      reads this, buf
    {
      State(buf[..], queue, disk, device)
    }

    constructor (n: nat, disk: DiskMap, initial: seq<Buf>)
      requires |initial| == n
      ensures Valid() && S() == State(initial, [], disk, Idle)
    {
      buf, qnext := new Buf[n](i requires 0 <= i < n => initial[i]), new nat[n](i => n);
      idequeue, queue := n, [];
      this.disk, device := disk, Idle;
      new;
      assert buf[..] == initial;
    }

    // The controller gets the command for buffer b.
    method IdeStart(b: nat)
      requires b < buf.Length
      modifies this`device
      ensures device == Command(buf[b])
      ensures device == if buf[b].dirty then Writing(KeyOf(buf[b]), buf[b].data) else Reading(KeyOf(buf[b]))
    {
      if buf[b].dirty {
        device := Writing(KeyOf(buf[b]), buf[b].data);
      } else {
        device := Reading(KeyOf(buf[b]));
      }
    }

    // iderw, up to the loop in which it sleeps until its request is done.
    method Iderw(i: nat)
      requires Valid() && CanSubmit(S(), i)
      modifies qnext, this`idequeue, this`device, this`queue
      ensures Valid() && S() == SubmitStep(old(S()), i)
      ensures queue == old(queue) + [i]
      ensures old(queue) != [] ==> device == old(device)
    {
      hide Inv, CanSync, Distinct, IsList, ElementOrNull;
      ghost var s0, links: seq<nat>, q0 := S(), qnext[..], queue;
      StepKeepsInv(s0, Submit(i));
      HeadReady(s0);
      ListHead(links, idequeue, q0);
      AppendKeeps(links, idequeue, q0, i);
      // walk the links to the null pointer and put i there
      qnext[i] := buf.Length;
      if idequeue == buf.Length {
        idequeue := i;
      } else {
        var p := idequeue;
        ghost var k: nat := 0;
        while qnext[p] != buf.Length
          invariant 0 <= k < |q0| && p == q0[k] < |links| && p != i
          invariant qnext[..] == links[i := buf.Length as nat]
          invariant idequeue == q0[0] && queue == q0 && device == s0.device
          decreases |q0| - k
        {
          ListAt(links, idequeue, q0, k);
          p := qnext[p];
          k := k + 1;
          ListAt(links, idequeue, q0, k);
        }
        ListAt(links, idequeue, q0, k);
        qnext[p] := i;
        assert qnext[..] == links[i := buf.Length as nat][q0[|q0| - 1] := i];
      }
      queue := q0 + [i];
      assert q0 == [] ==> queue == [i];
      // an empty queue means an idle controller
      if idequeue == i {
        IdeStart(i);
      }
      assert buf[..] == s0.buf;
    }

    // ideintr. ok tells whether the controller reports no error.
    method IdeIntr(ok: bool)
      requires Valid()
      modifies buf, this`idequeue, this`disk, this`device, this`queue
      ensures Valid() && S() == InterruptStep(old(S()), ok)
      ensures old(queue) == [] ==> buf[..] == old(buf[..]) && queue == [] && disk == old(disk) && device == old(device)
      // the head leaves the queue, valid and clean; its data went to the disk, or came from it
      ensures old(queue) != [] ==>
                var i := old(queue)[0];
                && queue == old(queue)[1..] && i < buf.Length
                && buf[i] == old(buf[i]).(valid := true, dirty := false, data := buf[i].data)
                && (forall j :: 0 <= j < buf.Length && j != i ==> buf[j] == old(buf[j]))
                && (if old(buf[i]).dirty then
                      buf[i].data == old(buf[i]).data && disk == old(disk)[KeyOf(buf[i]) := buf[i].data]
                    else
                      disk == old(disk) && KeyOf(buf[i]) in disk
                      && buf[i].data == if ok then disk[KeyOf(buf[i])] else old(buf[i]).data)
    {
      hide Inv, CanSync, Distinct, IsList;
      ghost var s0, links: seq<nat> := S(), qnext[..];
      StepKeepsInv(s0, Interrupt(ok));
      HeadReady(s0);
      ListHead(links, idequeue, queue);
      if idequeue == buf.Length {
        return; // spurious
      }
      var b := idequeue;
      idequeue := qnext[b];
      queue := queue[1..];
      // the controller finishes its command; a read fills the buffer
      if device.Writing? {
        disk := disk[device.k := device.data];
      }
      if !buf[b].dirty && ok && device.Reading? {
        buf[b] := buf[b].(data := disk[device.k]);
      }
      buf[b] := buf[b].(valid := true);
      buf[b] := buf[b].(dirty := false);
      assert buf[..] == InterruptStep(s0, ok).buf;
      ListHead(links, idequeue, queue);
      // the next request, if there is one
      if idequeue != buf.Length {
        IdeStart(idequeue);
      } else {
        device := Idle;
      }
      assert S() == InterruptStep(s0, ok);
    }
  }

  lemma {:induction false} HeadReady(s: State)
    requires Inv(s)
    ensures Distinct(s.queue)
    ensures s.queue == [] ==> s.device == Idle
    ensures s.queue != [] ==>
              && s.queue[0] < |s.buf| && KeyOf(s.buf[s.queue[0]]) in s.disk
              && s.device == Command(s.buf[s.queue[0]])
              && (|s.queue| > 1 ==> s.queue[1] < |s.buf|)
  {
  }

  // From `first` the links run through the queue and end with the null pointer |qnext|.
  ghost predicate IsList(qnext: seq<nat>, first: nat, queue: seq<nat>) {
    && (forall j :: 0 <= j < |queue| ==> queue[j] < |qnext|)
    && first == ElementOrNull(qnext, queue, 0)
    && (forall j :: 0 <= j < |queue| ==> qnext[queue[j]] == ElementOrNull(qnext, queue, j + 1))
  }

  ghost function ElementOrNull(qnext: seq<nat>, queue: seq<nat>, j: nat): nat {
    if j < |queue| then queue[j] else |qnext|
  }

  lemma {:induction false} ListAt(qnext: seq<nat>, first: nat, queue: seq<nat>, k: nat)
    requires IsList(qnext, first, queue) && k < |queue|
    ensures queue[k] < |qnext| && (qnext[queue[k]] == |qnext| <==> k + 1 == |queue|)
    ensures k + 1 < |queue| ==> qnext[queue[k]] == queue[k + 1]
  {
  }

  lemma {:induction false} ListHead(qnext: seq<nat>, first: nat, queue: seq<nat>)
    requires IsList(qnext, first, queue)
    ensures first == |qnext| <==> queue == []
    ensures queue != [] ==> first == queue[0] < |qnext| && IsList(qnext, qnext[first], queue[1..])
  {
    if queue != [] {
      var rest := queue[1..];
      assert qnext[queue[0]] == ElementOrNull(qnext, queue, 1);
      forall j | 0 <= j < |rest|
        ensures rest[j] < |qnext| && qnext[rest[j]] == ElementOrNull(qnext, rest, j + 1)
      {
        assert rest[j] == queue[j + 1];
      }
    }
  }

  lemma {:induction false} AppendKeeps(qnext: seq<nat>, first: nat, queue: seq<nat>, i: nat)
    requires IsList(qnext, first, queue) && Distinct(queue) && i !in queue && i < |qnext|
    ensures queue == [] ==> IsList(qnext[i := |qnext|], i, [i])
    ensures queue != [] ==>
              && queue[|queue| - 1] < |qnext|
              && IsList(qnext[i := |qnext|][queue[|queue| - 1] := i], first, queue + [i])
  {
    if queue != [] {
      var last := |queue| - 1;
      var links: seq<nat> := qnext[i := |qnext|][queue[last] := i];
      forall j | 0 <= j <= last
        ensures links[queue[j]] == (queue + [i])[j + 1]
      {
        assert queue[j] != i;
        assert j != last ==> queue[j] != queue[last];
      }
    }
  }
}
