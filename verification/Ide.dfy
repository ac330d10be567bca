// The interrupt-driven disk driver of ide.c. Requests wait in a linked queue whose head is the
// command in progress; each interrupt completes it and starts the next. The queued driver is
// proved to be the synchronous iderw of memide.c, as if it ran at the moment of the call.
module Ide {
  import opened Blocks
  import opened MemIde

  // The command that the controller is executing.
  datatype Device = Idle | Reading(k: Key) | Writing(k: Key, data: Block)

  datatype State = State(buf: seq<Buf>, queue: seq<nat>, disk: DiskMap, device: Device)

  datatype Event =
    | Submit(i: nat) // iderw up to the point where it sleeps
    | Interrupt(ok: bool) // ideintr; ok tells whether the controller reports no error
    | Touch(i: nat, b: Buf) // the holder of a buffer that is not queued changes it

  // ----- The steps -----

  // idestart
  function Command(b: Buf): Device {
    if b.dirty then Writing(KeyOf(b), b.data) else Reading(KeyOf(b))
  }

  predicate CanSubmit(s: State, i: nat) {
    i < |s.buf| && i !in s.queue && CanSync(s.buf[i], s.disk)
  }

  function SubmitStep(s: State, i: nat): State
    requires i < |s.buf|
  {
    s.(queue := s.queue + [i], device := if s.queue == [] then Command(s.buf[i]) else s.device)
  }

  // A spurious interrupt does nothing.
  function InterruptStep(s: State, ok: bool): State
    requires s.queue != [] ==> s.queue[0] < |s.buf| && (|s.queue| > 1 ==> s.queue[1] < |s.buf|)
    requires s.device.Reading? ==> s.device.k in s.disk
  {
    if s.queue == [] then s
    else
      var i := s.queue[0];
      var b := s.buf[i];
      var data := if !b.dirty && ok && s.device.Reading? then s.disk[s.device.k] else b.data;
      var buf := s.buf[i := b.(data := data, valid := true, dirty := false)];
      State(buf, s.queue[1..],
            if s.device.Writing? then s.disk[s.device.k := s.device.data] else s.disk,
            if |s.queue| > 1 then Command(buf[s.queue[1]]) else Idle)
  }

  // ----- The invariant -----

  ghost predicate Distinct(queue: seq<nat>) {
    forall i, j :: 0 <= i < j < |queue| ==> queue[i] != queue[j]
  }

  // Queued buffers are distinct and busy with something to do; the head is the active request.
  ghost predicate Inv(s: State) {
    && Distinct(s.queue)
    && (forall j :: 0 <= j < |s.queue| ==> s.queue[j] < |s.buf| && CanSync(s.buf[s.queue[j]], s.disk))
    && s.device == (if s.queue == [] then Idle else Command(s.buf[s.queue[0]]))
  }

  predicate Enabled(s: State, e: Event) {
    match e
    case Submit(i) => CanSubmit(s, i)
    case Interrupt(_) => true
    case Touch(i, b) => i < |s.buf| && i !in s.queue
  }

  function Step(s: State, e: Event): State
    requires Inv(s) && Enabled(s, e)
  {
    match e
    case Submit(i) => SubmitStep(s, i)
    case Interrupt(ok) => InterruptStep(s, ok)
    case Touch(i, b) => s.(buf := s.buf[i := b])
  }

  lemma {:induction false} StepKeepsInv(s: State, e: Event)
    requires Inv(s) && Enabled(s, e)
    ensures Inv(Step(s, e))
    ensures Step(s, e).disk.Keys == s.disk.Keys && |Step(s, e).buf| == |s.buf|
  {
  }

  // ----- The synchronous driver -----

  datatype SyncState = SyncState(buf: seq<Buf>, disk: DiskMap)

  // memide's iderw on buffer i.
  function SyncAt(a: SyncState, i: nat): SyncState
    requires i < |a.buf| && CanSync(a.buf[i], a.disk)
  {
    var r := Sync(a.buf[i], a.disk);
    SyncState(a.buf[i := r.0], r.1)
  }

  ghost predicate CanFlush(a: SyncState, queue: seq<nat>) {
    && Distinct(queue)
    && forall j :: 0 <= j < |queue| ==> queue[j] < |a.buf| && CanSync(a.buf[queue[j]], a.disk)
  }

  lemma {:induction false} SyncKeepsOthers(a: SyncState, queue: seq<nat>)
    requires CanFlush(a, queue) && queue != []
    ensures CanFlush(SyncAt(a, queue[0]), queue[1..])
  {
  }

  // The synchronous driver called for each queued buffer in turn.
  ghost function Flush(a: SyncState, queue: seq<nat>): (r: SyncState)
    requires CanFlush(a, queue)
    ensures |r.buf| == |a.buf| && r.disk.Keys == a.disk.Keys
    ensures forall i :: 0 <= i < |a.buf| && i !in queue ==> r.buf[i] == a.buf[i]
    decreases |queue|
  {
    if queue == [] then a
    else
      SyncKeepsOthers(a, queue);
      Flush(SyncAt(a, queue[0]), queue[1..])
  }

  // What the callers see: all submitted requests done, in queue order.
  ghost function Abs(s: State): SyncState
    requires Inv(s)
  {
    Flush(SyncState(s.buf, s.disk), s.queue)
  }

  lemma {:induction false} FlushAppend(a: SyncState, queue: seq<nat>, i: nat)
    requires CanFlush(a, queue) && i !in queue && i < |a.buf| && CanSync(a.buf[i], a.disk)
    ensures CanFlush(a, queue + [i]) && CanSync(Flush(a, queue).buf[i], Flush(a, queue).disk)
    ensures Flush(a, queue + [i]) == SyncAt(Flush(a, queue), i)
    decreases |queue|
  {
    if queue != [] {
      SyncKeepsOthers(a, queue);
      FlushAppend(SyncAt(a, queue[0]), queue[1..], i);
      assert (queue + [i])[1..] == queue[1..] + [i];
    } else {
      assert (queue + [i])[1..] == [];
    }
  }

  lemma {:induction false} FlushTouch(a: SyncState, queue: seq<nat>, i: nat, b: Buf)
    requires CanFlush(a, queue) && i !in queue && i < |a.buf|
    ensures CanFlush(a.(buf := a.buf[i := b]), queue)
    ensures Flush(a.(buf := a.buf[i := b]), queue)
         == Flush(a, queue).(buf := Flush(a, queue).buf[i := b])
    decreases |queue|
  {
    if queue != [] {
      SyncKeepsOthers(a, queue);
      FlushTouch(SyncAt(a, queue[0]), queue[1..], i, b);
      assert SyncAt(a.(buf := a.buf[i := b]), queue[0]).buf == SyncAt(a, queue[0]).buf[i := b];
    }
  }

  // ----- Refinement -----

  // Submitting a request is, for the callers, memide's iderw at that moment.
  lemma {:induction false} SubmitRefines(s: State, i: nat)
    requires Inv(s) && CanSubmit(s, i)
    ensures Inv(SubmitStep(s, i)) && CanSync(Abs(s).buf[i], Abs(s).disk)
    ensures Abs(SubmitStep(s, i)) == SyncAt(Abs(s), i)
  {
    FlushAppend(SyncState(s.buf, s.disk), s.queue, i);
    StepKeepsInv(s, Submit(i));
  }

  lemma {:induction false} TouchRefines(s: State, i: nat, b: Buf)
    requires Inv(s) && Enabled(s, Touch(i, b))
    ensures Inv(Step(s, Touch(i, b)))
    ensures Abs(Step(s, Touch(i, b))) == Abs(s).(buf := Abs(s).buf[i := b])
  {
    FlushTouch(SyncState(s.buf, s.disk), s.queue, i, b);
  }

  // Without an error on a read, an interrupt is invisible.
  lemma {:induction false} InterruptRefines(s: State, ok: bool)
    requires Inv(s) && (ok || s.queue == [] || s.buf[s.queue[0]].dirty)
    ensures Inv(InterruptStep(s, ok)) && Abs(InterruptStep(s, ok)) == Abs(s)
  {
    StepKeepsInv(s, Interrupt(ok));
    if s.queue != [] {
      var t := InterruptStep(s, ok);
      assert SyncState(t.buf, t.disk) == SyncAt(SyncState(s.buf, s.disk), s.queue[0]);
    }
  }

  // A read error is the one case that shows: the buffer is marked valid with stale data,
  // unless these happen to be those of the sector.
  lemma {:induction false} ErrorShows(s: State)
    requires Inv(s) && s.queue != [] && !s.buf[s.queue[0]].dirty
    ensures Inv(InterruptStep(s, false))
    ensures Abs(InterruptStep(s, false)) == Abs(s)
       <==> s.buf[s.queue[0]].data == s.disk[KeyOf(s.buf[s.queue[0]])]
  {
    StepKeepsInv(s, Interrupt(false));
    var i, rest := s.queue[0], s.queue[1..];
    var t := InterruptStep(s, false);
    SyncKeepsOthers(SyncState(s.buf, s.disk), s.queue);
    var a, c := SyncAt(SyncState(s.buf, s.disk), i), SyncState(t.buf, t.disk);
    assert i !in rest;
    assert Flush(a, rest).buf[i] == a.buf[i] && Flush(c, rest).buf[i] == c.buf[i];
    if s.buf[i].data == s.disk[KeyOf(s.buf[i])] {
      assert a == c;
    }
  }

  // ----- Whole runs -----

  // An error-free run.
  ghost predicate IsRun(s: State, es: seq<Event>)
    requires Inv(s)
    decreases |es|, 0
  {
    es == [] || (
      && IsRun(s, es[..|es| - 1])
      && Enabled(After(s, es[..|es| - 1]), es[|es| - 1])
      && (es[|es| - 1].Interrupt? ==> es[|es| - 1].ok))
  }

  ghost function After(s: State, es: seq<Event>): (r: State)
    requires Inv(s) && IsRun(s, es)
    ensures Inv(r)
    decreases |es|, 1
  {
    if es == [] then s
    else
      var t := After(s, es[..|es| - 1]);
      StepKeepsInv(t, es[|es| - 1]);
      Step(t, es[|es| - 1])
  }

  // The same events on the synchronous driver: a submission runs iderw to its end, an
  // interrupt is nothing.
  ghost function SyncStep(a: SyncState, e: Event): SyncState
    requires e.Submit? ==> e.i < |a.buf| && CanSync(a.buf[e.i], a.disk)
    requires e.Touch? ==> e.i < |a.buf|
  {
    match e
    case Submit(i) => SyncAt(a, i)
    case Interrupt(_) => a
    case Touch(i, b) => a.(buf := a.buf[i := b])
  }

  ghost predicate SyncRun(a: SyncState, es: seq<Event>, r: SyncState)
    decreases |es|
  {
    if es == [] then r == a
    else
      var e := es[|es| - 1];
      exists m :: SyncRun(a, es[..|es| - 1], m)
        && (e.Submit? ==> e.i < |m.buf| && CanSync(m.buf[e.i], m.disk))
        && (e.Touch? ==> e.i < |m.buf|)
        && r == SyncStep(m, e)
  }

  // Every interleaving of calls, interrupts and changes of unqueued buffers has the effects
  // of the calls run one by one in queue order. Once the queue is empty they are all there.
  lemma {:induction false} QueueRefinesSync(s: State, es: seq<Event>)
    requires Inv(s) && s.queue == [] && IsRun(s, es)
    ensures SyncRun(SyncState(s.buf, s.disk), es, Abs(After(s, es)))
    ensures After(s, es).queue == [] ==>
              SyncRun(SyncState(s.buf, s.disk), es, SyncState(After(s, es).buf, After(s, es).disk))
    decreases |es|
  {
    if es != [] {
      var init, e := es[..|es| - 1], es[|es| - 1];
      var t := After(s, init);
      QueueRefinesSync(s, init);
      match e
      case Submit(i) => SubmitRefines(t, i);
      case Interrupt(ok) => InterruptRefines(t, ok);
      case Touch(i, b) => TouchRefines(t, i, b);
      assert Abs(After(s, es)) == SyncStep(Abs(t), e);
    }
  }

  // A caller returns when its buffer is valid and clean; then nothing is pending for it, and
  // it sees what the synchronous driver would have given it.
  lemma {:induction false} ReturnSeesSync(s: State, i: nat)
    requires Inv(s) && i < |s.buf| && s.buf[i].valid && !s.buf[i].dirty
    ensures i !in s.queue && Abs(s).buf[i] == s.buf[i]
  {
  }
}
