// The pipe protocol of pipe.c: any number of reads and writes that share one bounded queue,
// sleep when they cannot go on, and are woken by each other. A step runs one operation from
// the point where it takes p->lock to the point where it gives the lock up.
module Pipe {
  import opened Blocks

  const PIPESIZE: nat := 512

  datatype Status =
    | Ready // not begun, or woken: will take the lock
    | Asleep
    | Done(result: int)

  datatype Op =
    | Write(addr: seq<Byte>, i: nat, status: Status, killed: bool) // i bytes are stored
    | Read(n: nat, got: seq<Byte>, status: Status, killed: bool)

  // A byte and the operation that moved it.
  datatype Moved = Moved(t: nat, b: Byte)

  // stored and taken are the histories of all bytes put into and taken out of the pipe.
  datatype State = State(
    queue: seq<Byte>, readopen: bool, writeopen: bool, ops: seq<Op>, stored: seq<Moved>, taken: seq<Moved>)

  datatype Event =
    | Run(t: nat)
    | Kill(t: nat)
    | CloseWrite
    | CloseRead

  // ----- The sections that run with the lock held -----

  datatype Outcome = Outcome(queue: seq<Byte>, i: nat, status: Status, wakes: bool)

  function Min(a: nat, b: nat): nat {
    if a < b then a else b
  }

  // pipewrite, from its start or from waking with i bytes stored.
  function WriteSection(queue: seq<Byte>, readopen: bool, killed: bool, addr: seq<Byte>, i: nat): Outcome
    requires i <= |addr| && |queue| <= PIPESIZE
  {
    var j := i + Min(|addr| - i, PIPESIZE - |queue|);
    var q := queue + addr[i..j];
    if j == |addr| then Outcome(q, j, Done(|addr|), true)
    else if !readopen || killed then Outcome(q, j, Done(-1), false)
    else Outcome(q, j, Asleep, true)
  }

  // piperead; the bytes read are those missing from the front of the queue.
  function ReadSection(queue: seq<Byte>, writeopen: bool, killed: bool, n: nat): Outcome {
    if queue == [] && writeopen then Outcome(queue, 0, if killed then Done(-1) else Asleep, false)
    else
      var k := Min(n, |queue|);
      Outcome(queue[k..], k, Done(k), true)
  }

  function Awake(o: Op): Op {
    o.(status := Ready)
  }

  // wakeup(&p->nread)
  function WakeReaders(ops: seq<Op>): (r: seq<Op>)
    ensures |r| == |ops|
  {
    seq(|ops|, k requires 0 <= k < |ops| => if ops[k].Read? && ops[k].status.Asleep? then Awake(ops[k]) else ops[k])
  }

  // wakeup(&p->nwrite)
  function WakeWriters(ops: seq<Op>): (r: seq<Op>)
    ensures |r| == |ops|
  {
    seq(|ops|, k requires 0 <= k < |ops| => if ops[k].Write? && ops[k].status.Asleep? then Awake(ops[k]) else ops[k])
  }

  function Tag(t: nat, s: seq<Byte>): (r: seq<Moved>)
    ensures |r| == |s|
  {
    seq(|s|, k requires 0 <= k < |s| => Moved(t, s[k]))
  }

  // ----- Steps -----

  // An end is closed when the last file that refers to it is, so no operation is using it.
  ghost predicate Enabled(s: State, e: Event) {
    match e
    case Run(t) => t < |s.ops| && s.ops[t].status.Ready?
    case Kill(t) => t < |s.ops| && !s.ops[t].status.Done?
    case CloseWrite => s.writeopen && forall k :: 0 <= k < |s.ops| && s.ops[k].Write? ==> s.ops[k].status.Done?
    case CloseRead => s.readopen && forall k :: 0 <= k < |s.ops| && s.ops[k].Read? ==> s.ops[k].status.Done?
  }

  ghost function RunStep(s: State, t: nat): State
    requires t < |s.ops| && |s.queue| <= PIPESIZE && OpOk(s, t)
  {
    match s.ops[t]
    case Write(addr, i, _, killed) =>
      var o := WriteSection(s.queue, s.readopen, killed, addr, i);
      var ops := if o.wakes then WakeReaders(s.ops) else s.ops;
      s.(queue := o.queue,
         ops := ops[t := Write(addr, o.i, o.status, killed)],
         stored := s.stored + Tag(t, addr[i..o.i]))
    case Read(n, got, _, killed) =>
      var o := ReadSection(s.queue, s.writeopen, killed, n);
      var ops := if o.wakes then WakeWriters(s.ops) else s.ops;
      s.(queue := o.queue,
         ops := ops[t := Read(n, got + s.queue[..o.i], o.status, killed)],
         taken := s.taken + Tag(t, s.queue[..o.i]))
  }

  ghost function Step(s: State, e: Event): State
    requires Enabled(s, e) && Inv(s)
  {
    match e
    case Run(t) => (assert OpOk(s, t); RunStep(s, t))
    case Kill(t) => s.(ops := s.ops[t := s.ops[t].(killed := true, status := Ready)])
    case CloseWrite => s.(writeopen := false, ops := WakeReaders(s.ops))
    case CloseRead => s.(readopen := false, ops := WakeWriters(s.ops))
  }

  // ----- What every run keeps -----

  // The bytes of a history, in order.
  function Bytes(h: seq<Moved>): (r: seq<Byte>)
    ensures |r| == |h|
  {
    seq(|h|, k requires 0 <= k < |h| => h[k].b)
  }

  // The bytes that operation t moved, in order.
  function By(h: seq<Moved>, t: nat): seq<Byte> {
    if h == [] then []
    else By(h[..|h| - 1], t) + if h[|h| - 1].t == t then [h[|h| - 1].b] else []
  }

  // What operation t has done so far, and what a finished one reports.
  ghost predicate OpOk(s: State, t: nat)
    requires t < |s.ops|
  {
    match s.ops[t]
    case Write(addr, i, status, killed) =>
      && i <= |addr| && By(s.stored, t) == addr[..i] && By(s.taken, t) == []
      && (status.Done? ==> status.result == (if i == |addr| then i else -1))
      && (status.Done? && i < |addr| ==> killed || !s.readopen)
      && (status.Asleep? ==> i < |addr|)
    case Read(n, got, status, killed) =>
      && |got| <= n && By(s.taken, t) == got && By(s.stored, t) == []
      && (!status.Done? ==> got == [])
      && (status.Done? ==> status.result == |got| || (status.result == -1 && got == [] && killed))
  }

  ghost predicate Inv(s: State) {
    && |s.queue| <= PIPESIZE
    && Bytes(s.stored) == Bytes(s.taken) + s.queue
    && (forall t :: 0 <= t < |s.ops| ==> OpOk(s, t))
    && (!s.writeopen ==> forall t :: 0 <= t < |s.ops| && s.ops[t].Write? ==> s.ops[t].status.Done?)
    && (!s.readopen ==> forall t :: 0 <= t < |s.ops| && s.ops[t].Read? ==> s.ops[t].status.Done?)
  }

  ghost predicate NobodyStuck(s: State) {
    forall t :: 0 <= t < |s.ops| && s.ops[t].status.Asleep? ==>
      if s.ops[t].Read? then s.queue == [] && s.writeopen else |s.queue| == PIPESIZE && s.readopen
  }

  lemma {:induction false} ByAppend(h: seq<Moved>, t: nat, s: seq<Byte>, u: nat)
    ensures By(h + Tag(u, s), t) == By(h, t) + if t == u then s else []
    decreases |s|
  {
    if s == [] {
      assert h + Tag(u, s) == h;
    } else {
      var init := s[..|s| - 1];
      ByAppend(h, t, init, u);
      assert (h + Tag(u, s))[..|h| + |s| - 1] == h + Tag(u, init);
      assert s == init + [s[|s| - 1]];
    }
  }

  lemma {:induction false} BytesAppend(h: seq<Moved>, u: nat, s: seq<Byte>)
    ensures Bytes(h + Tag(u, s)) == Bytes(h) + s
  {
  }

  // The bytes that running operation t moves into or out of the pipe.
  ghost function Moves(s: State, t: nat): seq<Byte>
    requires |s.queue| <= PIPESIZE && t < |s.ops| && OpOk(s, t)
  {
    match s.ops[t]
    case Write(addr, i, _, _) => addr[i..i + Min(|addr| - i, PIPESIZE - |s.queue|)]
    case Read(n, _, _, _) => s.queue[..Min(n, |s.queue|)]
  }

  // What a section does to the queue and the histories.
  lemma {:induction false} RunMoves(s: State, t: nat)
    requires |s.queue| <= PIPESIZE && t < |s.ops| && OpOk(s, t)
    ensures var (r, x) := (RunStep(s, t), Moves(s, t));
            && |r.queue| <= PIPESIZE && |r.ops| == |s.ops|
            && (if s.ops[t].Write? then
                  r.queue == s.queue + x && r.stored == s.stored + Tag(t, x) && r.taken == s.taken
                else s.queue == x + r.queue && r.taken == s.taken + Tag(t, x) && r.stored == s.stored)
  {
  }

  // What it does to the operations.
  lemma {:induction false} RunChanges(s: State, t: nat, u: nat)
    requires |s.queue| <= PIPESIZE && t < |s.ops| && u < |s.ops| && OpOk(s, t)
    ensures var (r, x, o) := (RunStep(s, t), Moves(s, t), s.ops[t]);
            && (u != t ==> r.ops[u] == s.ops[u] || (s.ops[u].status.Asleep? && r.ops[u] == s.ops[u].(status := Ready)))
            && (o.Write? ==>
                  && o.i + |x| <= |o.addr| && x == o.addr[o.i..o.i + |x|]
                  && r.ops[t] == o.(i := o.i + |x|, status := r.ops[t].status)
                  && r.ops[t].status == (if o.i + |x| == |o.addr| then Done(|o.addr|)
                                         else if !s.readopen || o.killed then Done(-1) else Asleep))
            && (o.Read? ==>
                  && r.ops[t] == o.(got := o.got + x, status := r.ops[t].status)
                  && r.ops[t].status == (if s.queue != [] || !s.writeopen then Done(|x|)
                                         else if o.killed then Done(-1) else Asleep))
            && r.readopen == s.readopen && r.writeopen == s.writeopen && |x| <= PIPESIZE
            && (o.Read? ==> |x| <= o.n)
  {
  }

  // One operation at a time is moved on; the others are at most woken.
  lemma {:induction false} RunKeepsOp(s: State, t: nat, u: nat)
    requires Inv(s) && t < |s.ops| && s.ops[t].status.Ready? && OpOk(s, t) && u < |s.ops|
    ensures OpOk(RunStep(s, t), u)
  {
    hide RunStep, Moves, Tag, Bytes, By, Inv;
    OpsOk(s, u);
    var r, x, o := RunStep(s, t), Moves(s, t), s.ops[t];
    RunMoves(s, t);
    RunChanges(s, t, u);
    if o.Write? {
      ByAppend(s.stored, u, x, t);
      assert o.addr[..o.i] + x == o.addr[..o.i + |x|];
    } else {
      ByAppend(s.taken, u, x, t);
    }
  }

  lemma {:induction false} OpsOk(s: State, u: nat)
    requires Inv(s) && u < |s.ops|
    ensures OpOk(s, u) && |s.queue| <= PIPESIZE
  {
  }

  lemma {:induction false} RunKeepsBytes(s: State, t: nat)
    requires Inv(s) && t < |s.ops| && OpOk(s, t)
    ensures Bytes(RunStep(s, t).stored) == Bytes(RunStep(s, t).taken) + RunStep(s, t).queue
  {
    hide RunStep, OpOk, Moves, Bytes, Tag;
    RunMoves(s, t);
    if s.ops[t].Write? {
      BytesAppend(s.stored, t, Moves(s, t));
    } else {
      BytesAppend(s.taken, t, Moves(s, t));
    }
  }

  lemma {:induction false} StepKeepsInv(s: State, e: Event)
    requires Inv(s) && Enabled(s, e)
    ensures Inv(Step(s, e))
  {
    match e {
      case Run(t) =>
        assert OpOk(s, t);
        forall u | 0 <= u < |s.ops| ensures OpOk(Step(s, e), u) { RunKeepsOp(s, t, u); }
        RunMoves(s, t);
        RunKeepsBytes(s, t);
      case Kill(t) =>
        forall u | 0 <= u < |s.ops| ensures OpOk(Step(s, e), u) { assert OpOk(s, u); }
      case CloseWrite =>
        forall u | 0 <= u < |s.ops| ensures OpOk(Step(s, e), u) { assert OpOk(s, u); }
      case CloseRead =>
        forall u | 0 <= u < |s.ops| ensures OpOk(Step(s, e), u) { assert OpOk(s, u); }
    }
  }

  // ----- Nobody sleeps in vain -----

  // The one step that can leave a reader asleep: a killed writer fills the pipe, fails, and
  // returns without waking the readers.
  ghost predicate Strands(s: State, e: Event) {
    && e.Run? && e.t < |s.ops| && s.ops[e.t].Write? && s.ops[e.t].killed
    && |s.ops[e.t].addr| - s.ops[e.t].i > PIPESIZE - |s.queue| > 0
    && exists k :: 0 <= k < |s.ops| && s.ops[k].Read? && s.ops[k].status.Asleep?
  }

  lemma {:induction false} StepKeepsNobodyStuck(s: State, e: Event)
    requires Inv(s) && NobodyStuck(s) && Enabled(s, e)
    ensures NobodyStuck(Step(s, e)) <==> !Strands(s, e)
  {
    var r := Step(s, e);
    if e.Run? {
      assert OpOk(s, e.t);
    }
    if Strands(s, e) {
      var k :| 0 <= k < |s.ops| && s.ops[k].Read? && s.ops[k].status.Asleep?;
      assert r.ops[k].status.Asleep? && r.queue != [];
    }
  }

  // What ends the sleep of operation u: a kill of its process, the end it waits for being closed,
  // a read that takes bytes or finds the end for a writer, and for a reader a write that stores
  // its last byte or goes to sleep itself.
  ghost predicate Wakes(s: State, e: Event, u: nat)
    requires u < |s.ops| && Enabled(s, e)
  {
    match e
    case Kill(t) => t == u
    case CloseWrite => s.ops[u].Read?
    case CloseRead => s.ops[u].Write?
    case Run(t) =>
      match s.ops[t]
      case Read(_, _, _, _) => s.ops[u].Write? && (s.queue != [] || !s.writeopen)
      case Write(addr, i, _, killed) =>
        s.ops[u].Read? && (|addr| - i <= PIPESIZE - |s.queue| || (s.readopen && !killed))
  }

  // A sleeping operation is made ready by exactly these steps, and is otherwise left alone.
  lemma {:induction false} WakesExactly(s: State, e: Event, u: nat)
    requires Inv(s) && Enabled(s, e) && u < |s.ops| && s.ops[u].status.Asleep?
    ensures |Step(s, e).ops| == |s.ops|
    ensures Step(s, e).ops[u] ==
              s.ops[u].(status := if Wakes(s, e, u) then Ready else Asleep, killed := s.ops[u].killed || e == Kill(u))
  {
    hide Bytes, By, Tag;
    if e.Run? {
      assert OpOk(s, e.t);
    }
  }

  // ----- Whole runs -----

  ghost predicate Initial(s: State) {
    && s.queue == [] && s.readopen && s.writeopen && s.stored == [] && s.taken == []
    && forall t :: 0 <= t < |s.ops| ==>
         && s.ops[t].status.Ready? && !s.ops[t].killed
         && (if s.ops[t].Write? then s.ops[t].i == 0 else s.ops[t].got == [])
  }

  lemma {:induction false} InitialInv(s: State)
    requires Initial(s)
    ensures Inv(s) && NobodyStuck(s)
  {
    forall t | 0 <= t < |s.ops| ensures OpOk(s, t) {}
  }

  ghost predicate IsRun(s: State, es: seq<Event>)
    requires Inv(s)
    decreases |es|, 0
  {
    es == [] || (
      && IsRun(s, es[..|es| - 1])
      && Enabled(After(s, es[..|es| - 1]), es[|es| - 1]))
  }

  ghost function After(s: State, es: seq<Event>): (r: State)
    requires Inv(s) && IsRun(s, es)
    ensures Inv(r)
    decreases |es|, 1
  {
    if es == [] then s
    else
      var t := After(s, es[..|es| - 1]);
      StepKeepsInv(t, es[|es| - 1]);
      Step(t, es[|es| - 1])
  }

  // First in, first out over every run, killed processes included: the bytes read are a prefix
  // of the bytes stored, and what is missing is what the pipe still holds. A write that
  // reports n stored all its bytes in order; a failed one stored a proper prefix; a read
  // returned exactly the bytes it took.
  lemma {:induction false} BytesComeOutInOrder(s: State, es: seq<Event>)
    requires Initial(s) && Inv(s) && IsRun(s, es)
    ensures Bytes(After(s, es).taken) <= Bytes(After(s, es).stored)
    ensures Bytes(After(s, es).stored)[|After(s, es).taken|..] == After(s, es).queue
    ensures forall t :: 0 <= t < |After(s, es).ops| && After(s, es).ops[t].status.Done? ==>
              match After(s, es).ops[t]
              case Write(addr, _, status, _) =>
                if status.result == |addr| then By(After(s, es).stored, t) == addr
                else status.result == -1 && By(After(s, es).stored, t) < addr
              case Read(n, got, status, _) =>
                && By(After(s, es).taken, t) == got && |got| <= n
                && (status.result == |got| || (status.result == -1 && got == []))
  {
    var r := After(s, es);
    assert Bytes(r.stored) == Bytes(r.taken) + r.queue;
    forall t | 0 <= t < |r.ops| && r.ops[t].status.Done?
      ensures match r.ops[t]
              case Write(addr, _, status, _) =>
                if status.result == |addr| then By(r.stored, t) == addr
                else status.result == -1 && By(r.stored, t) < addr
              case Read(n, got, status, _) =>
                && By(r.taken, t) == got && |got| <= n
                && (status.result == |got| || (status.result == -1 && got == []))
    {
      assert OpOk(r, t);
    }
  }

  // Without kill, whenever the lock is free: a sleeping reader means that the pipe is empty and
  // its write end open, a sleeping writer that it is full and its read end open.
  lemma {:induction false} NobodyStuckWithoutKill(s: State, es: seq<Event>)
    requires Initial(s) && Inv(s) && IsRun(s, es) && forall k :: 0 <= k < |es| ==> !es[k].Kill?
    ensures NobodyStuck(After(s, es))
    ensures forall t :: 0 <= t < |After(s, es).ops| ==> !After(s, es).ops[t].killed
    decreases |es|
  {
    if es == [] {
      InitialInv(s);
    } else {
      var init := es[..|es| - 1];
      NobodyStuckWithoutKill(s, init);
      StepKeepsNobodyStuck(After(s, init), es[|es| - 1]);
    }
  }

  // With kill it holds exactly as long as no killed writer has stranded a reader.
  lemma {:induction false} NobodyStuckUntilStranded(s: State, es: seq<Event>)
    requires Initial(s) && Inv(s) && IsRun(s, es)
    requires forall k :: 0 <= k < |es| ==> IsRun(s, es[..k]) && !Strands(After(s, es[..k]), es[k])
    ensures NobodyStuck(After(s, es))
    decreases |es|
  {
    if es == [] {
      InitialInv(s);
    } else {
      var init := es[..|es| - 1];
      forall k | 0 <= k < |init| ensures IsRun(s, init[..k]) && !Strands(After(s, init[..k]), init[k]) {
        assert init[..k] == es[..k];
      }
      NobodyStuckUntilStranded(s, init);
      StepKeepsNobodyStuck(After(s, init), es[|es| - 1]);
    }
  }

  // So readers and writers never all sleep; and when nothing more can run, a remaining
  // reader waits for bytes that nobody has stored yet.
  lemma {:induction false} NoDeadlock(s: State)
    requires Inv(s) && NobodyStuck(s) && forall t :: 0 <= t < |s.ops| ==> !s.ops[t].status.Ready?
    ensures (forall t :: 0 <= t < |s.ops| && s.ops[t].Read? ==> s.ops[t].status.Done?)
            || (forall t :: 0 <= t < |s.ops| && s.ops[t].Write? ==> s.ops[t].status.Done?)
    ensures forall t :: 0 <= t < |s.ops| && s.ops[t].Read? && s.ops[t].status.Asleep? ==>
              Bytes(s.taken) == Bytes(s.stored)
  {
  }

  // pipeclose frees the pipe when both ends are closed; then no operation is left to use it.
  lemma {:induction false} FreedPipeIsUnused(s: State, e: Event)
    requires Inv(s) && Enabled(s, e)
    ensures !Step(s, e).readopen && !Step(s, e).writeopen ==>
              forall t :: 0 <= t < |s.ops| ==> Step(s, e).ops[t].status.Done? && !Enabled(Step(s, e), Run(t))
  {
    StepKeepsInv(s, e);
  }

  // The smallest case of such a step: a read goes to sleep on the empty pipe, the process of a
  // write with a byte more than fits is killed, and then it runs.
  lemma {:induction false} KilledWriterStrandsReader(addr: seq<Byte>)
    requires |addr| == PIPESIZE + 1
    ensures var s, es := OneWriteOneRead(addr), [Run(1), Kill(0), Run(0)];
            && Initial(s) && Inv(s) && IsRun(s, es)
            && var t := After(s, es);
               && t.ops == [Write(addr, PIPESIZE, Done(-1), true), Read(1, [], Asleep, false)]
               && t.queue == addr[..PIPESIZE] && !NobodyStuck(t)
  {
    hide IsRun, After, Inv, Step, NobodyStuck;
    var s := OneWriteOneRead(addr);
    InitialInv(s);
    EmptyRun(s);
    ReaderSleeps(addr);
    Extend(s, [], Run(1));
    assert [] + [Run(1)] == [Run(1)];
    RunInv(s, [Run(1)]);
    WriterKilled(addr, After(s, [Run(1)]));
    Extend(s, [Run(1)], Kill(0));
    assert [Run(1)] + [Kill(0)] == [Run(1), Kill(0)];
    RunInv(s, [Run(1), Kill(0)]);
    WriterFails(addr, After(s, [Run(1), Kill(0)]));
    Extend(s, [Run(1), Kill(0)], Run(0));
    assert [Run(1), Kill(0)] + [Run(0)] == [Run(1), Kill(0), Run(0)];
  }

  // The pipe is empty, the reader asleep, and the writer has not begun.
  ghost predicate ReaderWaits(addr: seq<Byte>, killed: bool, t: State) {
    && t.queue == [] && t.readopen && t.writeopen
    && t.ops == [Write(addr, 0, Ready, killed), Read(1, [], Asleep, false)]
  }

  lemma {:induction false} ReaderSleeps(addr: seq<Byte>)
    requires Inv(OneWriteOneRead(addr))
    ensures Enabled(OneWriteOneRead(addr), Run(1))
    ensures ReaderWaits(addr, false, Step(OneWriteOneRead(addr), Run(1)))
  {
    hide By, Bytes, Tag, Inv;
    var none: seq<Byte> := [];
    assert none[..0] == none && none + none == none;
  }

  lemma {:induction false} WriterKilled(addr: seq<Byte>, t: State)
    requires Inv(t) && ReaderWaits(addr, false, t)
    ensures Enabled(t, Kill(0)) && ReaderWaits(addr, true, Step(t, Kill(0)))
  {
    hide By, Bytes, Tag, Inv;
  }

  lemma {:induction false} WriterFails(addr: seq<Byte>, t: State)
    requires Inv(t) && ReaderWaits(addr, true, t) && |addr| == PIPESIZE + 1
    ensures Enabled(t, Run(0))
    ensures var r := Step(t, Run(0));
            && r.ops == [Write(addr, PIPESIZE, Done(-1), true), Read(1, [], Asleep, false)]
            && r.queue == addr[..PIPESIZE] && !NobodyStuck(r)
  {
    hide By, Bytes, Tag, Inv;
    assert t.queue + addr[0..PIPESIZE] == addr[..PIPESIZE];
    var r := Step(t, Run(0));
    assert r.ops[1].status.Asleep? && |r.queue| == PIPESIZE;
  }

  function OneWriteOneRead(addr: seq<Byte>): State {
    State([], true, true, [Write(addr, 0, Ready, false), Read(1, [], Ready, false)], [], [])
  }

  lemma {:induction false} RunInv(s: State, es: seq<Event>)
    requires Inv(s) && IsRun(s, es)
    ensures Inv(After(s, es))
  {
  }

  lemma {:induction false} EmptyRun(s: State)
    requires Inv(s)
    ensures IsRun(s, []) && After(s, []) == s
  {
  }

  lemma {:induction false} Extend(s: State, es: seq<Event>, e: Event)
    requires Inv(s) && IsRun(s, es) && Enabled(After(s, es), e)
    ensures IsRun(s, es + [e]) && After(s, es + [e]) == Step(After(s, es), e)
  {
    assert (es + [e])[..|es|] == es;
  }
}
