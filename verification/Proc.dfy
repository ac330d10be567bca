// The process table of proc.c as a transition system. A step is what one process does while it
// holds ptable.lock, or one of the few writes that fork makes to a slot of its own without it.
module Proc {
  datatype ProcState = UNUSED | EMBRYO | SLEEPING | RUNNABLE | RUNNING | ZOMBIE

  datatype Ptr = Null | At(i: nat)

  // wait sleeps on the address of the calling process; everybody else on something else.
  datatype Chan = NoChan | ProcChan(i: nat) | OtherChan(n: nat)

  datatype Proc = Proc(state: ProcState, pid: int, parent: Ptr, chan: Chan, killed: bool)

  // What happened to the slots of the table.
  datatype Note =
    | Born(slot: nat, pid: int)
    | Aborted(slot: nat, pid: int)
    | Exited(slot: nat, pid: int)
    | Reaped(slot: nat, pid: int)

  // forking[i] is the slot that process i is filling inside fork.
  datatype State = State(ps: seq<Proc>, forking: seq<Ptr>, initproc: nat, nextpid: int, history: seq<Note>)

  datatype Event =
    | Alloc(i: nat) // fork: allocproc
    | ForkFails(i: nat) // fork: no memory for the stack or the address space
    | SetParent(i: nat) // fork: np->parent = proc
    | Publish(i: nat) // fork: np->state = RUNNABLE
    | Exit(i: nat)
    | Wait(i: nat) // wait, from its start or from waking, to its return or its sleep
    | Sleep(i: nat, n: nat)
    | Wakeup(c: Chan)
    | Kill(pid: int)
    | Yield(i: nat)
    | Schedule(i: nat)

  predicate Live(p: Proc) {
    p.state == SLEEPING || p.state == RUNNABLE || p.state == RUNNING
  }

  // ----- The operations on the table -----

  // The first slot from k on that is UNUSED, or |ps|.
  function FirstUnused(ps: seq<Proc>, k: nat): (r: nat)
    requires k <= |ps|
    ensures k <= r <= |ps| && (r < |ps| ==> ps[r].state == UNUSED)
    ensures forall j :: k <= j < r ==> ps[j].state != UNUSED
    decreases |ps| - k
  {
    if k == |ps| || ps[k].state == UNUSED then k else FirstUnused(ps, k + 1)
  }

  // The first ZOMBIE child of i from k on, or |ps|.
  function FirstZombie(ps: seq<Proc>, i: nat, k: nat): (r: nat)
    requires k <= |ps|
    ensures k <= r <= |ps| && (r < |ps| ==> ps[r].state == ZOMBIE && ps[r].parent == At(i))
    ensures forall j :: k <= j < r ==> !(ps[j].state == ZOMBIE && ps[j].parent == At(i))
    decreases |ps| - k
  {
    if k == |ps| || (ps[k].state == ZOMBIE && ps[k].parent == At(i)) then k else FirstZombie(ps, i, k + 1)
  }

  // The first slot from k on with that pid, or |ps|.
  function FirstPid(ps: seq<Proc>, pid: int, k: nat): (r: nat)
    requires k <= |ps|
    ensures k <= r <= |ps| && (r < |ps| ==> ps[r].pid == pid)
    ensures forall j :: k <= j < r ==> ps[j].pid != pid
    decreases |ps| - k
  {
    if k == |ps| || ps[k].pid == pid then k else FirstPid(ps, pid, k + 1)
  }

  predicate HasChild(ps: seq<Proc>, i: nat) {
    exists k :: 0 <= k < |ps| && ps[k].parent == At(i)
  }

  function WakeOne(p: Proc, c: Chan): Proc {
    if p.state == SLEEPING && p.chan == c then p.(state := RUNNABLE) else p
  }

  // wakeup1
  function Wake(ps: seq<Proc>, c: Chan): (r: seq<Proc>)
    ensures |r| == |ps| && forall k :: 0 <= k < |ps| ==> r[k] == WakeOne(ps[k], c)
  {
    seq(|ps|, k requires 0 <= k < |ps| => WakeOne(ps[k], c))
  }

  function ChanOf(p: Ptr): Chan {
    if p.At? then ProcChan(p.i) else NoChan
  }

  // Pass the children of i to init.
  function Adopt(ps: seq<Proc>, i: nat, init: nat): (r: seq<Proc>)
    ensures |r| == |ps|
    ensures forall k :: 0 <= k < |ps| ==> r[k] == if ps[k].parent == At(i) then ps[k].(parent := At(init)) else ps[k]
  {
    seq(|ps|, k requires 0 <= k < |ps| => if ps[k].parent == At(i) then ps[k].(parent := At(init)) else ps[k])
  }

  function ExitProcs(ps: seq<Proc>, i: nat, init: nat): (r: seq<Proc>)
    requires i < |ps|
    ensures |r| == |ps|
  {
    var woken := Wake(ps, ChanOf(ps[i].parent));
    var adopted := Adopt(woken, i, init);
    var r := if FirstZombie(ps, i, 0) < |ps| then Wake(adopted, ProcChan(init)) else adopted;
    r[i := r[i].(state := ZOMBIE)]
  }

  function Reap(p: Proc): Proc {
    p.(state := UNUSED, pid := 0, parent := Null, killed := false)
  }

  function WaitProcs(ps: seq<Proc>, i: nat): (r: seq<Proc>)
    requires i < |ps|
    ensures |r| == |ps|
  {
    var k := FirstZombie(ps, i, 0);
    if k < |ps| then ps[k := Reap(ps[k])]
    else if !HasChild(ps, i) || ps[i].killed then ps
    else ps[i := ps[i].(state := SLEEPING, chan := ProcChan(i))]
  }

  function KillOne(p: Proc): Proc {
    p.(killed := true, state := if p.state == SLEEPING then RUNNABLE else p.state)
  }

  function KillProcs(ps: seq<Proc>, pid: int): (r: seq<Proc>)
    ensures |r| == |ps|
  {
    var k := FirstPid(ps, pid, 0);
    if k < |ps| then ps[k := KillOne(ps[k])] else ps
  }

  // nextpid++ on a 32-bit int
  const MAXINT: int := 0x7FFF_FFFF

  function NextPid(n: int): int {
    if n == MAXINT then -0x8000_0000 else n + 1
  }

  // ----- Steps -----

  predicate IsRunning(s: State, i: nat) {
    i < |s.ps| && i < |s.forking| && s.ps[i].state == RUNNING
  }

  predicate InFork(s: State, i: nat) {
    IsRunning(s, i) && s.forking[i].At? && s.forking[i].i < |s.ps|
  }

  predicate Enabled(s: State, e: Event) {
    match e
    case Alloc(i) => IsRunning(s, i) && s.forking[i] == Null
    case ForkFails(i) => InFork(s, i) && s.ps[s.forking[i].i].parent == Null
    case SetParent(i) => InFork(s, i)
    case Publish(i) => InFork(s, i) && s.ps[s.forking[i].i].parent == At(i)
    case Exit(i) => IsRunning(s, i) && s.forking[i] == Null && i != s.initproc // init would panic
    case Wait(i) => IsRunning(s, i) && s.forking[i] == Null
    case Sleep(i, _) => IsRunning(s, i)
    case Wakeup(_) => true
    case Kill(_) => true
    case Yield(i) => IsRunning(s, i)
    case Schedule(i) => i < |s.ps| && s.ps[i].state == RUNNABLE
  }

  function SetProc(s: State, i: nat, p: Proc): State
    requires i < |s.ps|
  {
    s.(ps := s.ps[i := p])
  }

  function AllocStep(s: State, i: nat): State
    requires i < |s.forking|
  {
    var np := FirstUnused(s.ps, 0);
    if np == |s.ps| then s
    else s.(ps := s.ps[np := s.ps[np].(state := EMBRYO, pid := s.nextpid)],
            forking := s.forking[i := At(np)],
            nextpid := NextPid(s.nextpid),
            history := s.history + [Born(np, s.nextpid)])
  }

  function WaitStep(s: State, i: nat): State
    requires i < |s.ps|
  {
    var k := FirstZombie(s.ps, i, 0);
    s.(ps := WaitProcs(s.ps, i),
       history := if k < |s.ps| then s.history + [Reaped(k, s.ps[k].pid)] else s.history)
  }

  function Step(s: State, e: Event): State
    requires Enabled(s, e)
  {
    match e
    case Alloc(i) => AllocStep(s, i)
    case ForkFails(i) =>
      var np := s.forking[i].i;
      s.(ps := s.ps[np := s.ps[np].(state := UNUSED)], forking := s.forking[i := Null],
         history := s.history + [Aborted(np, s.ps[np].pid)])
    case SetParent(i) =>
      var np := s.forking[i].i;
      SetProc(s, np, s.ps[np].(parent := At(i)))
    case Publish(i) =>
      var np := s.forking[i].i;
      s.(ps := s.ps[np := s.ps[np].(state := RUNNABLE)], forking := s.forking[i := Null])
    case Exit(i) =>
      s.(ps := ExitProcs(s.ps, i, s.initproc), history := s.history + [Exited(i, s.ps[i].pid)])
    case Wait(i) => WaitStep(s, i)
    case Sleep(i, n) => SetProc(s, i, s.ps[i].(state := SLEEPING, chan := OtherChan(n)))
    case Wakeup(c) => s.(ps := Wake(s.ps, c))
    case Kill(pid) => s.(ps := KillProcs(s.ps, pid))
    case Yield(i) => SetProc(s, i, s.ps[i].(state := RUNNABLE))
    case Schedule(i) => SetProc(s, i, s.ps[i].(state := RUNNING, chan := NoChan))
  }

  // ----- The invariant -----

  // Parents are live; every process but init has one; a free slot has none.
  ghost predicate Family(ps: seq<Proc>, init: nat) {
    && init < |ps| && Live(ps[init]) && ps[init].parent == Null
    && forall k :: 0 <= k < |ps| ==>
         && (ps[k].parent.At? ==> ps[k].parent.i < |ps| && ps[k].parent.i != k && Live(ps[ps[k].parent.i]))
         && (ps[k].state == UNUSED ==> ps[k].parent == Null)
         && ((Live(ps[k]) || ps[k].state == ZOMBIE) && k != init ==> ps[k].parent.At?)
  }

  // A slot being filled by fork is an EMBRYO that only one process works on.
  ghost predicate Forks(ps: seq<Proc>, forking: seq<Ptr>) {
    && |forking| == |ps|
    && (forall i :: 0 <= i < |ps| && forking[i].At? ==>
          && forking[i].i < |ps| && ps[forking[i].i].state == EMBRYO && Live(ps[i])
          && (ps[forking[i].i].parent == Null || ps[forking[i].i].parent == At(i)))
    && (forall i, j :: 0 <= i < |ps| && 0 <= j < |ps| && forking[i].At? && forking[i] == forking[j] ==> i == j)
  }

  predicate InWait(ps: seq<Proc>, i: nat) {
    i < |ps| && ps[i].state == SLEEPING && ps[i].chan == ProcChan(i)
  }

  // Nobody sleeps in wait beside an exited child.
  ghost predicate NoMissedExit(ps: seq<Proc>) {
    forall i, k :: InWait(ps, i) && 0 <= k < |ps| && ps[k].parent == At(i) ==> ps[k].state != ZOMBIE
  }

  // The last thing that happened to a slot.
  datatype Last = Never | Was(note: Note)

  function LastOf(h: seq<Note>, k: nat): Last {
    if h == [] then Never
    else if h[|h| - 1].slot == k then Was(h[|h| - 1])
    else LastOf(h[..|h| - 1], k)
  }

  predicate IsFree(l: Last) {
    l.Never? || l.note.Reaped? || l.note.Aborted?
  }

  ghost predicate SlotHistory(p: Proc, h: seq<Note>, k: nat) {
    match p.state
    case UNUSED => IsFree(LastOf(h, k)) && (p.pid == 0 || LastOf(h, k) == Was(Aborted(k, p.pid)))
    case ZOMBIE => LastOf(h, k) == Was(Exited(k, p.pid))
    case _ => LastOf(h, k) == Was(Born(k, p.pid))
  }

  // A birth in a free slot, an exit of the process born there, a reaping of the one that exited.
  predicate NoteOk(h: seq<Note>, n: Note) {
    match n
    case Born(k, _) => IsFree(LastOf(h, k))
    case Aborted(k, pid) => LastOf(h, k) == Was(Born(k, pid))
    case Exited(k, pid) => LastOf(h, k) == Was(Born(k, pid))
    case Reaped(k, pid) => LastOf(h, k) == Was(Exited(k, pid))
  }

  ghost predicate Ordered(h: seq<Note>) {
    forall j :: 0 <= j < |h| ==> NoteOk(h[..j], h[j])
  }

  ghost predicate Records(ps: seq<Proc>, h: seq<Note>) {
    && (forall k :: 0 <= k < |ps| ==> SlotHistory(ps[k], h, k))
    && Ordered(h)
  }

  ghost predicate Inv(s: State) {
    && Family(s.ps, s.initproc) && Forks(s.ps, s.forking) && NoMissedExit(s.ps)
    && Records(s.ps, s.history)
  }

  // ----- Every step keeps it -----

  // exit, slot by slot.
  ghost predicate ExitShape(ps: seq<Proc>, i: nat, init: nat, r: seq<Proc>) {
    && |r| == |ps| && i < |ps|
    && forall k :: 0 <= k < |ps| ==>
         && r[k].pid == ps[k].pid && r[k].chan == ps[k].chan && r[k].killed == ps[k].killed
         && r[k].parent == (if ps[k].parent == At(i) then At(init) else ps[k].parent)
         && r[k].state == (
              if k == i then ZOMBIE
              else if ps[k].state == SLEEPING
                && (ps[k].chan == ChanOf(ps[i].parent)
                    || (ps[k].chan == ProcChan(init) && FirstZombie(ps, i, 0) < |ps|))
              then RUNNABLE else ps[k].state)
  }

  lemma {:induction false} ExitHasShape(ps: seq<Proc>, i: nat, init: nat)
    requires i < |ps|
    ensures ExitShape(ps, i, init, ExitProcs(ps, i, init))
  {
    hide Wake, Adopt, FirstZombie;
    var woken := Wake(ps, ChanOf(ps[i].parent));
    var adopted := Adopt(woken, i, init);
    forall k | 0 <= k < |ps|
      ensures adopted[k].parent == (if ps[k].parent == At(i) then At(init) else ps[k].parent)
      ensures adopted[k] == WakeOne(ps[k], ChanOf(ps[i].parent)).(parent := adopted[k].parent)
    {
    }
  }

  // Writing one slot, as all other steps but wakeup do.
  lemma {:induction false} FamilySet(ps: seq<Proc>, init: nat, k: nat, p: Proc)
    requires Family(ps, init) && k < |ps| && FitsFamily(ps, init, k, p)
    ensures Family(ps[k := p], init)
  {
  }

  lemma {:induction false} FamilyExit(ps: seq<Proc>, init: nat, i: nat)
    requires Family(ps, init) && i < |ps| && Live(ps[i]) && i != init
    ensures Family(ExitProcs(ps, i, init), init)
  {
    hide ExitProcs;
    ExitHasShape(ps, i, init);
  }

  lemma {:induction false} FamilyWake(ps: seq<Proc>, init: nat, c: Chan)
    requires Family(ps, init)
    ensures Family(Wake(ps, c), init)
  {
    hide Wake;
  }

  lemma {:induction false} FamilyKept(s: State, e: Event)
    requires Inv(s) && Enabled(s, e)
    ensures Family(Step(s, e).ps, s.initproc)
  {
    hide Family, Forks, NoMissedExit, Records, ExitProcs, Wake, LastOf;
    RunningIsLive(s, e);
    match e {
      case Exit(i) => FamilyExit(s.ps, s.initproc, i);
      case Wakeup(c) => FamilyWake(s.ps, s.initproc, c);
      case _ =>
        OneSlot(s, e);
        var k := Target(s, e);
        if k < |s.ps| {
          FamilySet(s.ps, s.initproc, k, Step(s, e).ps[k]);
        }
    }
  }

  // The slot that a step writes, unless it is one that writes several; |ps| for none.
  function Target(s: State, e: Event): nat
    requires Enabled(s, e)
  {
    match e
    case Alloc(i) => FirstUnused(s.ps, 0)
    case ForkFails(i) => s.forking[i].i
    case SetParent(i) => s.forking[i].i
    case Publish(i) => s.forking[i].i
    case Wait(i) =>
      var k := FirstZombie(s.ps, i, 0);
      if k < |s.ps| then k else if HasChild(s.ps, i) && !s.ps[i].killed then i else |s.ps|
    case Sleep(i, _) => i
    case Kill(pid) => FirstPid(s.ps, pid, 0)
    case Yield(i) => i
    case Schedule(i) => i
    case Exit(_) => |s.ps|
    case Wakeup(_) => |s.ps|
  }

  lemma {:induction false} OneSlot(s: State, e: Event)
    requires Inv(s) && Enabled(s, e) && !e.Exit? && !e.Wakeup?
    ensures var (r, k) := (Step(s, e).ps, Target(s, e));
            && r == (if k < |s.ps| then s.ps[k := r[k]] else s.ps)
            && (k < |s.ps| ==> FitsFamily(s.ps, s.initproc, k, r[k]))
  {
    hide Inv, Enabled, Step, Target, FitsFamily;
    if e.ForkFails? || e.SetParent? || e.Publish? {
      OneSlotFork(s, e);
    } else if e.Sleep? || e.Yield? || e.Schedule? {
      OneSlotSelf(s, e);
    } else if e.Alloc? {
      OneSlotAlloc(s, e.i);
    } else if e.Wait? {
      OneSlotWait(s, e.i);
    } else {
      OneSlotKill(s, e.pid);
    }
  }

  lemma {:induction false} OneSlotFork(s: State, e: Event)
    requires Inv(s) && Enabled(s, e) && (e.ForkFails? || e.SetParent? || e.Publish?)
    ensures var (r, k) := (Step(s, e).ps, Target(s, e));
            && r == (if k < |s.ps| then s.ps[k := r[k]] else s.ps)
            && (k < |s.ps| ==> FitsFamily(s.ps, s.initproc, k, r[k]))
  {
    hide NoMissedExit, Records, LastOf, FirstUnused, FirstZombie, FirstPid, Forks, Family, ExitProcs, Wake, HasChild;
    RunningIsLive(s, e);
    FamilyAt(s.ps, s.initproc, s.forking[e.i].i);
    ForkingIsEmbryo(s.ps, s.forking, s.initproc, e.i);
  }

  lemma {:induction false} OneSlotAlloc(s: State, i: nat)
    requires Inv(s) && Enabled(s, Alloc(i))
    ensures var (r, k) := (Step(s, Alloc(i)).ps, Target(s, Alloc(i)));
            && r == (if k < |s.ps| then s.ps[k := r[k]] else s.ps)
            && (k < |s.ps| ==> FitsFamily(s.ps, s.initproc, k, r[k]))
  {
    hide NoMissedExit, Records, LastOf, FirstUnused, FirstZombie, FirstPid, Forks, Family, ExitProcs, Wake, HasChild, NextPid;
    RunningIsLive(s, Alloc(i));
    if Target(s, Alloc(i)) < |s.ps| {
      FamilyAt(s.ps, s.initproc, Target(s, Alloc(i)));
    }
  }

  lemma {:induction false} OneSlotWait(s: State, i: nat)
    requires Inv(s) && Enabled(s, Wait(i))
    ensures var (r, k) := (Step(s, Wait(i)).ps, Target(s, Wait(i)));
            && r == (if k < |s.ps| then s.ps[k := r[k]] else s.ps)
            && (k < |s.ps| ==> FitsFamily(s.ps, s.initproc, k, r[k]))
  {
    hide NoMissedExit, Records, LastOf, FirstUnused, FirstZombie, FirstPid, Forks, Family, ExitProcs, Wake, HasChild, NextPid;
    RunningIsLive(s, Wait(i));
    if Target(s, Wait(i)) < |s.ps| {
      FamilyAt(s.ps, s.initproc, Target(s, Wait(i)));
    }
  }

  lemma {:induction false} OneSlotKill(s: State, pid: int)
    requires Inv(s) && Enabled(s, Kill(pid))
    ensures var (r, k) := (Step(s, Kill(pid)).ps, Target(s, Kill(pid)));
            && r == (if k < |s.ps| then s.ps[k := r[k]] else s.ps)
            && (k < |s.ps| ==> FitsFamily(s.ps, s.initproc, k, r[k]))
  {
    hide NoMissedExit, Records, LastOf, FirstUnused, FirstZombie, FirstPid, Forks, Family, ExitProcs, Wake, HasChild, NextPid;
    RunningIsLive(s, Kill(pid));
    if Target(s, Kill(pid)) < |s.ps| {
      FamilyAt(s.ps, s.initproc, Target(s, Kill(pid)));
    }
  }

  lemma {:induction false} OneSlotSelf(s: State, e: Event)
    requires Inv(s) && Enabled(s, e) && (e.Sleep? || e.Yield? || e.Schedule?)
    ensures var (r, k) := (Step(s, e).ps, Target(s, e));
            && r == (if k < |s.ps| then s.ps[k := r[k]] else s.ps)
            && (k < |s.ps| ==> FitsFamily(s.ps, s.initproc, k, r[k]))
  {
    hide NoMissedExit, Records, LastOf, FirstUnused, FirstZombie, FirstPid, Forks, Family, ExitProcs, Wake, HasChild, NextPid;
    RunningIsLive(s, e);
    if Target(s, e) < |s.ps| {
      FamilyAt(s.ps, s.initproc, Target(s, e));
    }
  }

  // What may be written to slot k.
  ghost predicate FitsFamily(ps: seq<Proc>, init: nat, k: nat, p: Proc)
    requires k < |ps|
  {
    && (Live(ps[k]) ==> Live(p))
    && (k == init ==> p.parent == Null)
    && (p.parent.At? ==> p.parent.i < |ps| && p.parent.i != k && Live(ps[p.parent.i]))
    && (p.state == UNUSED ==> p.parent == Null)
    && ((Live(p) || p.state == ZOMBIE) && k != init ==> p.parent.At?)
  }

  lemma {:induction false} FamilyAt(ps: seq<Proc>, init: nat, k: nat)
    requires Family(ps, init) && k < |ps|
    ensures k == init ==> Live(ps[k]) && ps[k].parent == Null
    ensures FitsFamily(ps, init, k, ps[k])
  {
  }

  lemma {:induction false} ForkingIsEmbryo(ps: seq<Proc>, forking: seq<Ptr>, init: nat, i: nat)
    requires Family(ps, init) && Forks(ps, forking) && i < |ps| && forking[i].At?
    ensures forking[i].i < |ps| && ps[forking[i].i].state == EMBRYO && forking[i].i != init && Live(ps[i])
  {
  }

  lemma {:induction false} RunningIsLive(s: State, e: Event)
    requires Inv(s) && Enabled(s, e)
    ensures e.Exit? ==> Live(s.ps[e.i])
    ensures Family(s.ps, s.initproc) && Forks(s.ps, s.forking) && NoMissedExit(s.ps) && Records(s.ps, s.history)
  {
  }

  lemma {:induction false} ForksSet(ps: seq<Proc>, forking: seq<Ptr>, k: nat, p: Proc)
    requires Forks(ps, forking) && k < |ps|
    requires Live(ps[k]) ==> Live(p)
    requires ps[k].state == EMBRYO ==> p.state == EMBRYO && p.parent == ps[k].parent
    ensures Forks(ps[k := p], forking)
  {
  }

  lemma {:induction false} ForksExit(ps: seq<Proc>, forking: seq<Ptr>, i: nat, init: nat)
    requires Forks(ps, forking) && i < |ps| && Live(ps[i]) && forking[i] == Null
    ensures Forks(ExitProcs(ps, i, init), forking)
  {
    hide ExitProcs;
    ExitHasShape(ps, i, init);
  }


  lemma {:induction false} ForksKept(s: State, e: Event)
    requires Inv(s) && Enabled(s, e)
    ensures Forks(Step(s, e).ps, Step(s, e).forking)
  {
    hide NoMissedExit, Records, ExitProcs, Wake, Family, Forks, LastOf;
    RunningIsLive(s, e);
    match e {
      case Exit(i) => ForksExit(s.ps, s.forking, i, s.initproc);
      case Wakeup(c) => ForksWake(s.ps, s.forking, c);
      case Alloc(i) => ForksAlloc(s, i);
      case ForkFails(i) => ForksEnd(s.ps, s.forking, i, Step(s, e).ps[s.forking[i].i]);
      case Publish(i) => ForksEnd(s.ps, s.forking, i, Step(s, e).ps[s.forking[i].i]);
      case SetParent(i) => ForksParent(s.ps, s.forking, i);
      case _ =>
        OneSlot(s, e);
        var k := Target(s, e);
        if k < |s.ps| {
          ForksSet(s.ps, s.forking, k, Step(s, e).ps[k]);
        }
    }
  }

  lemma {:induction false} ForksWake(ps: seq<Proc>, forking: seq<Ptr>, c: Chan)
    requires Forks(ps, forking)
    ensures Forks(Wake(ps, c), forking)
  {
    hide Wake;
  }

  lemma {:induction false} ForksAlloc(s: State, i: nat)
    requires Forks(s.ps, s.forking) && IsRunning(s, i) && s.forking[i] == Null
    requires Family(s.ps, s.initproc)
    ensures Forks(AllocStep(s, i).ps, AllocStep(s, i).forking)
  {
    hide FirstUnused;
  }

  lemma {:induction false} ForksEnd(ps: seq<Proc>, forking: seq<Ptr>, i: nat, p: Proc)
    requires Forks(ps, forking) && i < |ps| && forking[i].At? && forking[i].i < |ps|
    ensures Forks(ps[forking[i].i := p], forking[i := Null])
  {
  }

  lemma {:induction false} ForksParent(ps: seq<Proc>, forking: seq<Ptr>, i: nat)
    requires Forks(ps, forking) && i < |ps| && forking[i].At? && forking[i].i < |ps|
    ensures Forks(ps[forking[i].i := ps[forking[i].i].(parent := At(i))], forking)
  {
  }

  lemma {:induction false} NoMissedExitSet(ps: seq<Proc>, k: nat, p: Proc)
    requires NoMissedExit(ps) && k < |ps|
    requires InWait(ps[k := p], k) ==> FirstZombie(ps, k, 0) == |ps| && p.parent != At(k)
    requires p.state == ZOMBIE ==> ps[k].state == ZOMBIE && p.parent == ps[k].parent
    ensures NoMissedExit(ps[k := p])
  {
    hide FirstZombie;
    var r := ps[k := p];
    forall i, c | InWait(r, i) && 0 <= c < |r| && r[c].parent == At(i)
      ensures r[c].state != ZOMBIE
    {
      assert i != k ==> InWait(ps, i);
    }
  }

  lemma {:induction false} NoMissedExitExit(ps: seq<Proc>, i: nat, init: nat)
    requires Family(ps, init) && NoMissedExit(ps) && i < |ps| && Live(ps[i]) && i != init
    ensures NoMissedExit(ExitProcs(ps, i, init))
  {
    hide ExitProcs, FirstZombie;
    ExitHasShape(ps, i, init);
    var r := ExitProcs(ps, i, init);
    forall j, c | InWait(r, j) && 0 <= c < |r| && r[c].parent == At(j)
      ensures r[c].state != ZOMBIE
    {
      assert InWait(ps, j);
    }
  }

  lemma {:induction false} NoMissedExitWake(ps: seq<Proc>, c: Chan)
    requires NoMissedExit(ps)
    ensures NoMissedExit(Wake(ps, c))
  {
    hide Wake;
    var r := Wake(ps, c);
    forall j, c | InWait(r, j) && 0 <= c < |r| && r[c].parent == At(j)
      ensures r[c].state != ZOMBIE
    {
      assert InWait(ps, j);
    }
  }

  lemma {:induction false} NoMissedExitKept(s: State, e: Event)
    requires Inv(s) && Enabled(s, e)
    ensures NoMissedExit(Step(s, e).ps)
  {
    hide NoMissedExit, Records, ExitProcs, Wake, Family, Forks, LastOf;
    RunningIsLive(s, e);
    match e {
      case Exit(i) => NoMissedExitExit(s.ps, i, s.initproc);
      case Wakeup(c) => NoMissedExitWake(s.ps, c);
      case _ =>
        OneSlot(s, e);
        NoMissedExitOther(s, e);
    }
  }

  lemma {:induction false} NoMissedExitOther(s: State, e: Event)
    requires Inv(s) && Enabled(s, e) && !e.Exit? && !e.Wakeup?
    ensures NoMissedExit(Step(s, e).ps)
  {
    hide NoMissedExit, Records, Family, Forks, LastOf, Step, Target;
    RunningIsLive(s, e);
    OneSlot(s, e);
    var r, k := Step(s, e).ps, Target(s, e);
    if k < |s.ps| {
      TargetWaits(s, e);
      NoMissedExitSet(s.ps, k, r[k]);
    }
  }

  // A process goes to sleep in wait only after looking at all its children; and only exit
  // makes a ZOMBIE.
  lemma {:induction false} TargetWaits(s: State, e: Event)
    requires Inv(s) && Enabled(s, e) && !e.Exit? && !e.Wakeup? && Target(s, e) < |s.ps|
    ensures var (r, k) := (Step(s, e).ps, Target(s, e));
            && |r| == |s.ps|
            && (InWait(r, k) ==> FirstZombie(s.ps, k, 0) == |s.ps| && r[k].parent != At(k))
            && (r[k].state == ZOMBIE ==> s.ps[k].state == ZOMBIE && r[k].parent == s.ps[k].parent)
  {
    hide NoMissedExit, Records, LastOf;
    assert Family(s.ps, s.initproc);
  }

  lemma {:induction false} LastAppend(h: seq<Note>, n: Note, k: nat)
    ensures LastOf(h + [n], k) == if n.slot == k then Was(n) else LastOf(h, k)
  {
    assert (h + [n])[..|h|] == h;
  }

  lemma {:induction false} OrderedAppend(h: seq<Note>, n: Note)
    requires Ordered(h) && NoteOk(h, n)
    ensures Ordered(h + [n])
  {
    hide NoteOk;
    forall j | 0 <= j < |h + [n]|
      ensures NoteOk((h + [n])[..j], (h + [n])[j])
    {
      if j < |h| {
        assert (h + [n])[..j] == h[..j];
      } else {
        assert (h + [n])[..j] == h;
      }
    }
  }

  // The slot a note is about is rewritten to match it.
  lemma {:induction false} RecordsNote(ps: seq<Proc>, h: seq<Note>, n: Note, r: seq<Proc>)
    requires Records(ps, h) && NoteOk(h, n) && n.slot < |ps| && |r| == |ps|
    requires SlotHistory(r[n.slot], h + [n], n.slot)
    requires forall k :: 0 <= k < |ps| && k != n.slot ==> SameRecord(ps[k], r[k])
    ensures Records(r, h + [n])
  {
    hide LastOf, NoteOk;
    OrderedAppend(h, n);
    forall k | 0 <= k < |r|
      ensures SlotHistory(r[k], h + [n], k)
    {
      LastAppend(h, n, k);
      assert SlotHistory(ps[k], h, k);
    }
  }

  ghost predicate SameRecord(p: Proc, q: Proc) {
    && p.pid == q.pid
    && (p.state == UNUSED <==> q.state == UNUSED) && (p.state == ZOMBIE <==> q.state == ZOMBIE)
  }

  lemma {:induction false} RecordsSame(ps: seq<Proc>, h: seq<Note>, r: seq<Proc>)
    requires Records(ps, h) && |r| == |ps| && forall k :: 0 <= k < |ps| ==> SameRecord(ps[k], r[k])
    ensures Records(r, h)
  {
    hide LastOf, Ordered;
    forall k | 0 <= k < |r|
      ensures SlotHistory(r[k], h, k)
    {
      assert SlotHistory(ps[k], h, k) && SameRecord(ps[k], r[k]);
    }
  }

  lemma {:induction false} RecordsKept(s: State, e: Event)
    requires Inv(s) && Enabled(s, e)
    ensures Records(Step(s, e).ps, Step(s, e).history)
  {
    hide NoMissedExit, ExitProcs, Wake, Family, LastOf, Ordered, NoteOk;
    RunningIsLive(s, e);
    var r := Step(s, e);
    if e.Exit? {
      RecordsExit(s, e.i);
    } else if e.Wakeup? {
      RecordsSame(s.ps, s.history, r.ps);
    } else {
      hide Forks;
      OneSlot(s, e);
      RecordsOther(s, e);
    }
  }

  lemma {:induction false} RecordsExit(s: State, i: nat)
    requires Inv(s) && Enabled(s, Exit(i))
    ensures Records(Step(s, Exit(i)).ps, Step(s, Exit(i)).history)
  {
    hide NoMissedExit, ExitProcs, Family, LastOf, Ordered;
    var n := Exited(i, s.ps[i].pid);
    ExitHasShape(s.ps, i, s.initproc);
    LastAppend(s.history, n, i);
    assert SlotHistory(s.ps[i], s.history, i);
    RecordsNote(s.ps, s.history, n, Step(s, Exit(i)).ps);
  }

  lemma {:induction false} RecordsOther(s: State, e: Event)
    requires Inv(s) && Enabled(s, e) && !e.Exit? && !e.Wakeup?
    ensures Records(Step(s, e).ps, Step(s, e).history)
  {
    hide NoMissedExit, Family, LastOf, Ordered, Forks, Records, SlotHistory, SameRecord, NoteOk, Step;
    RunningIsLive(s, e);
    OneSlot(s, e);
    var r, k := Step(s, e), Target(s, e);
    TargetNote(s, e);
    if r.history == s.history {
      forall j | 0 <= j < |s.ps| && j != k ensures SameRecord(s.ps[j], r.ps[j]) { Unchanged(s.ps[j]); }
      RecordsSame(s.ps, s.history, r.ps);
    } else {
      forall j | 0 <= j < |s.ps| && j != k ensures SameRecord(s.ps[j], r.ps[j]) { Unchanged(s.ps[j]); }
      RecordsNote(s.ps, s.history, r.history[|s.history|], r.ps);
    }
  }

  lemma {:induction false} Unchanged(p: Proc)
    ensures SameRecord(p, p)
  {
  }

  // The note that a step adds is about the slot that it writes, and fits.
  lemma {:induction false} TargetNote(s: State, e: Event)
    requires Inv(s) && Enabled(s, e) && !e.Exit? && !e.Wakeup?
    ensures var (r, k) := (Step(s, e), Target(s, e));
            if r.history == s.history then
              k < |s.ps| ==> k < |r.ps| && SameRecord(s.ps[k], r.ps[k])
            else
              && |r.history| == |s.history| + 1 && r.history == s.history + [r.history[|s.history|]]
              && k < |s.ps| && k < |r.ps| && r.history[|s.history|].slot == k
              && NoteOk(s.history, r.history[|s.history|]) && SlotHistory(r.ps[k], r.history, k)
  {
    hide NoMissedExit, Family, LastOf, Ordered;
    var r, k := Step(s, e), Target(s, e);
    if k < |s.ps| {
      assert SlotHistory(s.ps[k], s.history, k);
      if |r.history| > |s.history| {
        LastAppend(s.history, r.history[|s.history|], k);
      }
    }
  }

  lemma {:induction false} StepKeepsInv(s: State, e: Event)
    requires Inv(s) && Enabled(s, e)
    ensures Inv(Step(s, e))
  {
    hide NoMissedExit, Records, Family, Forks, LastOf, Enabled, ExitProcs, WaitProcs, KillProcs, Wake;
    FamilyKept(s, e);
    ForksKept(s, e);
    NoMissedExitKept(s, e);
    RecordsKept(s, e);
    assert Step(s, e).initproc == s.initproc;
  }

  // ----- Whole runs -----

  // After userinit: one process, which will run init.
  function Initial(nproc: nat): State
    requires nproc > 0
  {
    State(seq(nproc, k => if k == 0 then Proc(RUNNABLE, 1, Null, NoChan, false) else Proc(UNUSED, 0, Null, NoChan, false)),
          seq(nproc, _ => Null), 0, 2, [Born(0, 1)])
  }

  lemma {:induction false} InitialInv(nproc: nat)
    requires nproc > 0
    ensures Inv(Initial(nproc)) && PidInv(Initial(nproc))
  {
    var s := Initial(nproc);
    assert s.history[..0] == [];
    forall k | 0 <= k < nproc ensures SlotHistory(s.ps[k], s.history, k) {}
  }

  ghost predicate IsRun(nproc: nat, es: seq<Event>)
    requires nproc > 0
    decreases |es|, 0
  {
    es == [] || (IsRun(nproc, es[..|es| - 1]) && Enabled(After(nproc, es[..|es| - 1]), es[|es| - 1]))
  }

  ghost function After(nproc: nat, es: seq<Event>): (r: State)
    requires nproc > 0 && IsRun(nproc, es)
    decreases |es|, 1
  {
    if es == [] then Initial(nproc) else Step(After(nproc, es[..|es| - 1]), es[|es| - 1])
  }

  lemma {:induction false} RunKeepsInv(nproc: nat, es: seq<Event>)
    requires nproc > 0 && IsRun(nproc, es)
    ensures Inv(After(nproc, es)) && PidInv(After(nproc, es))
    decreases |es|
  {
    hide Inv, PidInv, Step, Enabled, Initial;
    if es == [] {
      InitialInv(nproc);
    } else {
      RunKeepsInv(nproc, es[..|es| - 1]);
      StepKeepsInv(After(nproc, es[..|es| - 1]), es[|es| - 1]);
      PidsKept(After(nproc, es[..|es| - 1]), es[|es| - 1]);
    }
  }

  // Whenever ptable.lock is free: a process that sleeps in wait has no ZOMBIE child, the parent
  // of a process is one that can still wait for it, and every exited process has such a parent.
  lemma {:induction false} ParentsCanWait(nproc: nat, es: seq<Event>)
    requires nproc > 0 && IsRun(nproc, es)
    ensures var ps := After(nproc, es).ps;
            && (forall i, k :: InWait(ps, i) && 0 <= k < |ps| && ps[k].parent == At(i) ==> ps[k].state != ZOMBIE)
            && (forall k :: 0 <= k < |ps| && ps[k].parent.At? ==>
                  && ps[k].parent.i < |ps|
                  && ps[ps[k].parent.i].state !in {UNUSED, EMBRYO, ZOMBIE})
            && (forall k :: 0 <= k < |ps| && ps[k].state == ZOMBIE ==>
                  ps[k].parent.At? && !InWait(ps, ps[k].parent.i))
  {
    hide Records, Forks, IsRun, After;
    RunKeepsInv(nproc, es);
  }

  // ----- Reaping -----

  lemma {:induction false} LastIndex(h: seq<Note>, k: nat) returns (j: nat)
    requires LastOf(h, k).Was?
    ensures j < |h| && LastOf(h, k) == Was(h[j]) && h[j].slot == k
    ensures forall q :: j < q < |h| ==> h[q].slot != k
    decreases |h|
  {
    if h[|h| - 1].slot == k {
      j := |h| - 1;
    } else {
      j := LastIndex(h[..|h| - 1], k);
    }
  }

  // Before a reaping, with nothing else about that slot in between: the exit, and the birth.
  lemma {:induction false} ReapedWasBorn(h: seq<Note>, m: nat) returns (b: nat, x: nat)
    requires Ordered(h) && m < |h| && h[m].Reaped?
    ensures b < x < m && h[x] == Exited(h[m].slot, h[m].pid) && h[b] == Born(h[m].slot, h[m].pid)
    ensures forall q :: b < q < m && q != x ==> h[q].slot != h[m].slot
  {
    hide LastOf;
    var k := h[m].slot;
    assert NoteOk(h[..m], h[m]);
    x := LastIndex(h[..m], k);
    assert h[..m][..x] == h[..x] && NoteOk(h[..x], h[x]);
    b := LastIndex(h[..x], k);
  }

  // An exited process is reaped at most once: between two reapings of a slot a new process was
  // born there and exited, and it is that process which the second one reports.
  lemma {:induction false} ReapedOnce(nproc: nat, es: seq<Event>, j: nat, m: nat)
    requires nproc > 0 && IsRun(nproc, es)
    requires var h := After(nproc, es).history;
             j < m < |h| && h[j].Reaped? && h[m].Reaped? && h[j].slot == h[m].slot
    ensures var h := After(nproc, es).history;
            exists b, x :: j < b < x < m && h[b] == Born(h[m].slot, h[m].pid) && h[x] == Exited(h[m].slot, h[m].pid)
  {
    RunKeepsInv(nproc, es);
    hide *;
    var h := After(nproc, es).history;
    var b, x := ReapedWasBorn(h, m);
  }

  // ----- Process ids -----

  function Births(h: seq<Note>): nat {
    if h == [] then 0 else Births(h[..|h| - 1]) + if h[|h| - 1].Born? then 1 else 0
  }

  // As long as nextpid has not wrapped around, ids count the births.
  ghost predicate PidInv(s: State) {
    Births(s.history) <= MAXINT ==>
      && (Births(s.history) < MAXINT ==> s.nextpid == Births(s.history) + 1)
      && forall j :: 0 <= j < |s.history| && s.history[j].Born? ==> s.history[j].pid == Births(s.history[..j]) + 1
  }

  lemma {:induction false} PidsKept(s: State, e: Event)
    requires Inv(s) && PidInv(s) && Enabled(s, e)
    ensures PidInv(Step(s, e))
  {
    hide Inv, ExitProcs, Wake, KillProcs, LastOf;
    var r := Step(s, e);
    assert r.history == s.history || (|r.history| == |s.history| + 1 && r.history[..|s.history|] == s.history);
    forall j | 0 <= j < |s.history| ensures r.history[..j] == s.history[..j] {}
  }

  lemma {:induction false} BirthsGrow(h: seq<Note>, j: nat, m: nat)
    requires j < m <= |h| && h[j].Born?
    ensures Births(h[..j]) < Births(h[..m]) <= Births(h)
    decreases |h|
  {
    BirthsPrefix(h, m);
    BirthsPrefix(h[..m], j + 1);
    assert h[..m][..j + 1] == h[..j + 1] && h[..j + 1][..j] == h[..j];
  }

  lemma {:induction false} BirthsPrefix(h: seq<Note>, m: nat)
    requires m <= |h|
    ensures Births(h[..m]) <= Births(h)
    decreases |h|
  {
    if m == |h| {
      assert h[..m] == h;
    } else {
      BirthsPrefix(h[..|h| - 1], m);
      assert h[..|h| - 1][..m] == h[..m];
    }
  }

  lemma {:induction false} BornOnce(s: State, j: nat, m: nat)
    requires PidInv(s) && Births(s.history) <= MAXINT
    requires j < |s.history| && m < |s.history| && s.history[j].Born? && s.history[m].Born?
    requires s.history[j].pid == s.history[m].pid
    ensures j == m
  {
    if j < m { BirthsGrow(s.history, j, m); }
    if m < j { BirthsGrow(s.history, m, j); }
  }

  // wait reports every process id at most once, until nextpid has wrapped around.
  lemma {:induction false} PidReportedOnce(nproc: nat, es: seq<Event>, j: nat, m: nat)
    requires nproc > 0 && IsRun(nproc, es) && Births(After(nproc, es).history) <= MAXINT
    requires var h := After(nproc, es).history;
             j < |h| && m < |h| && h[j].Reaped? && h[m].Reaped? && h[j].pid == h[m].pid
    ensures j == m
  {
    RunKeepsInv(nproc, es);
    hide *;
    var s := After(nproc, es);
    var h := s.history;
    var b, x := ReapedWasBorn(h, m);
    var b', x' := ReapedWasBorn(h, j);
    BornOnce(s, b, b');
  }

  // A slot keeps the id of the process born there last.
  lemma {:induction false} PidWasBorn(s: State, k: nat) returns (b: nat)
    requires Inv(s) && k < |s.ps| && (s.ps[k].state == UNUSED ==> s.ps[k].pid != 0)
    ensures b < |s.history| && s.history[b] == Born(k, s.ps[k].pid)
  {
    hide LastOf, Family, Forks, NoMissedExit;
    var h := s.history;
    assert SlotHistory(s.ps[k], h, k);
    b := LastIndex(h, k);
    if !h[b].Born? {
      assert NoteOk(h[..b], h[b]);
      var x := b;
      b := LastIndex(h[..x], k);
    }
  }

  // kill finds the process that has the id, in whatever slot, and no other.
  lemma {:induction false} KillHits(nproc: nat, es: seq<Event>, k: nat)
    requires nproc > 0 && IsRun(nproc, es) && Births(After(nproc, es).history) <= MAXINT
    requires k < |After(nproc, es).ps| && After(nproc, es).ps[k].state != UNUSED
    ensures var ps := After(nproc, es).ps;
            && FirstPid(ps, ps[k].pid, 0) == k
            && forall j :: 0 <= j < |ps| && ps[j].pid == ps[k].pid ==> j == k
    // and of all slots it changes this one alone: the process is marked, and if it slept it
    // will run
    ensures var s := After(nproc, es);
            var r := Step(s, Kill(s.ps[k].pid));
            && |r.ps| == |s.ps| && (forall j :: 0 <= j < |s.ps| && j != k ==> r.ps[j] == s.ps[j])
            && r.ps[k] == Proc(if s.ps[k].state == SLEEPING then RUNNABLE else s.ps[k].state,
                               s.ps[k].pid, s.ps[k].parent, s.ps[k].chan, true)
  {
    RunKeepsInv(nproc, es);
    KillEffect(After(nproc, es).ps, After(nproc, es).ps[k].pid);
    KillIsKill(After(nproc, es), After(nproc, es).ps[k].pid);
    hide *;
    var s := After(nproc, es);
    var b := PidWasBorn(s, k);
    PidIsPositive(s, b);
    forall j | 0 <= j < |s.ps| && s.ps[j].pid == s.ps[k].pid
      ensures j == k
    {
      var c := PidWasBorn(s, j);
      BornOnce(s, b, c);
    }
  }

  lemma {:induction false} KillEffect(ps: seq<Proc>, pid: int)
    ensures forall k: nat :: k < |ps| && FirstPid(ps, pid, 0) == k ==>
              && (forall j :: 0 <= j < |ps| && j != k ==> KillProcs(ps, pid)[j] == ps[j])
              && KillProcs(ps, pid)[k] == Proc(if ps[k].state == SLEEPING then RUNNABLE else ps[k].state,
                                               ps[k].pid, ps[k].parent, ps[k].chan, true)
  {
  }

  lemma {:induction false} KillIsKill(s: State, pid: int)
    ensures Step(s, Kill(pid)).ps == KillProcs(s.ps, pid)
  {
    hide KillProcs;
  }

  lemma {:induction false} PidIsPositive(s: State, b: nat)
    requires PidInv(s) && Births(s.history) <= MAXINT && b < |s.history| && s.history[b].Born?
    ensures s.history[b].pid > 0
  {
  }

  // ----- Sleeping and waking -----

  // What ends the sleep of process k: a wakeup of its channel, a kill of its id, or the exit of a
  // child when it waits for one; init also wakes when it inherits a ZOMBIE.
  ghost predicate Wakes(s: State, e: Event, k: nat)
    requires k < |s.ps| && Enabled(s, e)
  {
    match e
    case Wakeup(c) => c == s.ps[k].chan
    case Kill(pid) => s.ps[k].pid == pid && forall j :: 0 <= j < k ==> s.ps[j].pid != pid
    case Exit(i) =>
      || (s.ps[i].parent.At? && s.ps[k].chan == ProcChan(s.ps[i].parent.i))
      || (s.ps[k].chan == ProcChan(s.initproc)
          && exists z :: 0 <= z < |s.ps| && s.ps[z].state == ZOMBIE && s.ps[z].parent == At(i))
    case _ => false
  }

  // A sleeping process becomes RUNNABLE by exactly these steps, and no other step touches its
  // state or what it sleeps on: no wakeup is lost.
  lemma {:induction false} WakesExactly(s: State, e: Event, k: nat)
    requires Inv(s) && Enabled(s, e) && k < |s.ps| && s.ps[k].state == SLEEPING
    ensures k < |Step(s, e).ps|
    ensures Step(s, e).ps[k].state == if Wakes(s, e, k) then RUNNABLE else SLEEPING
    ensures Step(s, e).ps[k].pid == s.ps[k].pid && Step(s, e).ps[k].chan == s.ps[k].chan
  {
    hide Inv, Enabled, Step, Wakes, Family, Forks, NoMissedExit, Records, ExitProcs;
    RunningIsLive(s, e);
    if e.Exit? {
      WakesByExit(s, e.i, k);
    } else if e.Kill? {
      WakesByKill(s, e.pid, k);
    } else {
      WakesOtherwise(s, e, k);
    }
  }

  lemma {:induction false} WakesByExit(s: State, i: nat, k: nat)
    requires Family(s.ps, s.initproc) && Enabled(s, Exit(i)) && k < |s.ps| && s.ps[k].state == SLEEPING
    ensures k < |Step(s, Exit(i)).ps|
    ensures Step(s, Exit(i)).ps[k] == s.ps[k].(parent := Step(s, Exit(i)).ps[k].parent,
                                               state := if Wakes(s, Exit(i), k) then RUNNABLE else SLEEPING)
  {
    hide ExitProcs, Family;
    ExitHasShape(s.ps, i, s.initproc);
    var z := FirstZombie(s.ps, i, 0);
    HasParent(s, i);
    hide FirstZombie;
  }

  lemma {:induction false} WakesByKill(s: State, pid: int, k: nat)
    requires k < |s.ps| && s.ps[k].state == SLEEPING
    ensures k < |Step(s, Kill(pid)).ps|
    ensures Step(s, Kill(pid)).ps[k] == if Wakes(s, Kill(pid), k) then s.ps[k].(state := RUNNABLE, killed := true) else s.ps[k]
  {
    hide FirstPid;
    FirstPidIs(s.ps, pid, k);
  }

  lemma {:induction false} WakesOtherwise(s: State, e: Event, k: nat)
    requires Family(s.ps, s.initproc) && Forks(s.ps, s.forking) && Enabled(s, e) && !e.Exit? && !e.Kill?
    requires k < |s.ps| && s.ps[k].state == SLEEPING
    ensures k < |Step(s, e).ps|
    ensures Step(s, e).ps[k] == if Wakes(s, e, k) then s.ps[k].(state := RUNNABLE) else s.ps[k]
  {
    hide Forks, Family, NextPid, HasChild;
    if e.ForkFails? || e.SetParent? || e.Publish? {
      ForkingIsEmbryo(s.ps, s.forking, s.initproc, e.i);
    }
  }

  // A process that exits has a parent.
  lemma {:induction false} HasParent(s: State, i: nat)
    requires Family(s.ps, s.initproc) && i < |s.ps| && s.ps[i].state == RUNNING && i != s.initproc
    ensures s.ps[i].parent.At? && s.ps[i].parent.i < |s.ps|
  {
  }

  lemma {:induction false} FirstPidIs(ps: seq<Proc>, pid: int, k: nat)
    requires k < |ps|
    ensures FirstPid(ps, pid, 0) == k <==> ps[k].pid == pid && forall j :: 0 <= j < k ==> ps[j].pid != pid
  {
  }

  // A process in wait is not in the middle of a fork.
  lemma {:induction false} WaitersDoNotFork(nproc: nat, es: seq<Event>)
    requires nproc > 0 && IsRun(nproc, es)
    ensures var s := After(nproc, es); |s.forking| == |s.ps| && forall p: nat :: InWait(s.ps, p) ==> s.forking[p] == Null
    decreases |es|
  {
    hide Inv, Step, Enabled, Initial, InWait;
    if es == [] {
      NoneWait(nproc);
    } else {
      var n := |es| - 1;
      var t := After(nproc, es[..n]);
      WaitersDoNotFork(nproc, es[..n]);
      RunKeepsInv(nproc, es[..n]);
      WaitersStep(t, es[n]);
    }
  }

  lemma {:induction false} NoneWait(nproc: nat)
    requires nproc > 0
    ensures var s := Initial(nproc); |s.forking| == |s.ps| && forall p: nat :: !InWait(s.ps, p)
  {
  }

  lemma {:induction false} WaitersStep(t: State, e: Event)
    requires Inv(t) && Enabled(t, e) && |t.forking| == |t.ps|
    requires forall p: nat :: InWait(t.ps, p) ==> t.forking[p] == Null
    ensures var s := Step(t, e); |s.forking| == |s.ps| && forall p: nat :: InWait(s.ps, p) ==> s.forking[p] == Null
  {
    hide NoMissedExit, Records, Family, Forks, LastOf, ExitProcs, FirstUnused, FirstZombie, FirstPid, NextPid, HasChild;
    if e.Exit? {
      ExitHasShape(t.ps, e.i, t.initproc);
    } else if !e.Wakeup? {
      hide Step, Target, FitsFamily;
      OneSlot(t, e);
      TargetSleeps(t, e);
    }
  }

  // A step that writes one slot sends it to wait only if it is a wait, and moves no forks but its own.
  lemma {:induction false} TargetSleeps(t: State, e: Event)
    requires Inv(t) && Enabled(t, e) && !e.Exit? && !e.Wakeup? && |t.forking| == |t.ps|
    ensures var (s, k) := (Step(t, e), Target(t, e));
            && |s.forking| == |t.forking| && |s.ps| == |t.ps|
            && (InWait(s.ps, k) && k < |t.ps| ==> s.forking[k] == Null || InWait(t.ps, k))
            && (forall p :: 0 <= p < |t.forking| && s.forking[p] != t.forking[p] ==> s.forking[p] == Null || t.ps[p].state == RUNNING)
  {
    hide NoMissedExit, Records, LastOf, FirstUnused, FirstZombie, FirstPid, NextPid, HasChild, Forks;
    assert Family(t.ps, t.initproc);
  }

  // A child of p, or for init also one that the exit of i has passed on to it.
  predicate WasChildOf(s: State, z: nat, p: nat, i: nat) {
    z < |s.ps| && (s.ps[z].parent == At(p) || (p == s.initproc && s.ps[z].parent == At(i)))
  }

  // From s to r process i has exited and its parent p has reaped a ZOMBIE child, i or another one.
  predicate Reported(s: State, r: State, i: nat, p: nat)
    requires i < |s.ps|
  {
    && |r.history| == |s.history| + 2 && |r.ps| == |s.ps|
    && r.history[|s.history|] == Exited(i, s.ps[i].pid)
    && var n := r.history[|s.history| + 1];
       && n.Reaped? && n.slot < |r.ps| && r.ps[n.slot].state == UNUSED && r.ps[n.slot].pid == 0
       && WasChildOf(s, n.slot, p, i) && s.ps[n.slot].pid == n.pid
       && (n.slot == i || s.ps[n.slot].state == ZOMBIE)
       && p < |r.ps| && r.ps[p].state == RUNNING
  }

  // The exit of a process whose parent is in wait is reported: in any reachable state, once the
  // child has exited, the parent runs when it is scheduled, finds a ZOMBIE child of its own and
  // frees its slot.
  lemma {:induction false} ExitIsReported(nproc: nat, es: seq<Event>, i: nat)
    requires nproc > 0 && IsRun(nproc, es) && Enabled(After(nproc, es), Exit(i))
    requires After(nproc, es).ps[i].parent.At? && InWait(After(nproc, es).ps, After(nproc, es).ps[i].parent.i)
    ensures var p := After(nproc, es).ps[i].parent.i;
            var es' := es + [Exit(i), Schedule(p), Wait(p)];
            IsRun(nproc, es') && Reported(After(nproc, es), After(nproc, es'), i, p)
  {
    var s := After(nproc, es);
    var p := s.ps[i].parent.i;
    hide Step, Inv, Enabled, InWait, IsRun, After, Reported;
    RunKeepsInv(nproc, es);
    WaitersDoNotFork(nproc, es);
    ReportSteps(s, i, p);
    ExtendThree(nproc, es, Exit(i), Schedule(p), Wait(p));
  }

  lemma {:induction false} ReportSteps(s: State, i: nat, p: nat)
    requires Inv(s) && Enabled(s, Exit(i)) && s.ps[i].parent == At(p) && InWait(s.ps, p)
    requires |s.forking| == |s.ps| && s.forking[p] == Null && i < |s.ps|
    ensures Enabled(Step(s, Exit(i)), Schedule(p))
    ensures Enabled(Step(Step(s, Exit(i)), Schedule(p)), Wait(p))
    ensures Reported(s, Step(Step(Step(s, Exit(i)), Schedule(p)), Wait(p)), i, p)
  {
    hide Inv, Step, Enabled, WasChildOf;
    ExitWakesParent(s, i, p);
    var z := ParentReaps(Step(s, Exit(i)), p, i);
  }

  // A RUNNABLE parent of the ZOMBIE i runs and reaps a child.
  lemma {:induction false} ParentReaps(a: State, p: nat, i: nat) returns (z: nat)
    requires p < |a.ps| == |a.forking| && i < |a.ps| && a.ps[p].state == RUNNABLE && a.forking[p] == Null
    requires a.ps[i].state == ZOMBIE && a.ps[i].parent == At(p) && p != i
    ensures Enabled(a, Schedule(p)) && Enabled(Step(a, Schedule(p)), Wait(p))
    ensures var r := Step(Step(a, Schedule(p)), Wait(p));
            && z < |a.ps| == |r.ps| && a.ps[z].state == ZOMBIE && a.ps[z].parent == At(p)
            && r.history == a.history + [Reaped(z, a.ps[z].pid)]
            && r.ps[z].state == UNUSED && r.ps[z].pid == 0 && r.ps[p].state == RUNNING
  {
    var b := Step(a, Schedule(p));
    z := FirstZombie(b.ps, p, 0);
    assert z < |b.ps| by {
      assert b.ps[i].state == ZOMBIE && b.ps[i].parent == At(p);
    }
    hide FirstZombie, HasChild;
  }

  lemma {:induction false} ExitWakesParent(s: State, i: nat, p: nat)
    requires Inv(s) && Enabled(s, Exit(i)) && s.ps[i].parent == At(p) && InWait(s.ps, p)
    ensures var a := Step(s, Exit(i));
            && |a.ps| == |s.ps| && a.forking == s.forking && p != i && i < |s.ps|
            && a.history == s.history + [Exited(i, s.ps[i].pid)]
            && a.ps[p].state == RUNNABLE && a.ps[i].state == ZOMBIE && a.ps[i].parent == At(p)
            && forall k :: 0 <= k < |s.ps| ==>
                 && a.ps[k].pid == s.ps[k].pid
                 && (a.ps[k].parent == At(p) ==> WasChildOf(s, k, p, i))
                 && (a.ps[k].state == ZOMBIE ==> k == i || s.ps[k].state == ZOMBIE)
  {
    hide NoMissedExit, Records, Forks, Family, ExitProcs;
    ExitHasShape(s.ps, i, s.initproc);
  }

  // fork, when nobody comes in between: a free slot holds a new process that can run, with the
  // next id and the caller for its parent, and nothing else has changed.
  lemma {:induction false} ForkMakesChild(nproc: nat, es: seq<Event>, i: nat)
    requires nproc > 0 && IsRun(nproc, es) && Enabled(After(nproc, es), Alloc(i))
    requires exists k :: 0 <= k < |After(nproc, es).ps| && After(nproc, es).ps[k].state == UNUSED
    ensures var es' := es + [Alloc(i), SetParent(i), Publish(i)];
            && IsRun(nproc, es')
            && var (s, r) := (After(nproc, es), After(nproc, es'));
               && r.forking == s.forking && |r.ps| == |s.ps|
               && exists np :: 0 <= np < |s.ps| && s.ps[np].state == UNUSED
                    && r.ps == s.ps[np := Proc(RUNNABLE, s.nextpid, At(i), s.ps[np].chan, s.ps[np].killed)]
                    && r.history == s.history + [Born(np, s.nextpid)]
  {
    hide Step, Inv, Enabled, IsRun, After;
    RunKeepsInv(nproc, es);
    var s := After(nproc, es);
    var np := ForkSteps(s, i);
    ExtendThree(nproc, es, Alloc(i), SetParent(i), Publish(i));
  }

  // A fork that fails frees the slot again, though with the id that it had got.
  lemma {:induction false} FailedForkFrees(nproc: nat, es: seq<Event>, i: nat)
    requires nproc > 0 && IsRun(nproc, es) && Enabled(After(nproc, es), Alloc(i))
    requires exists k :: 0 <= k < |After(nproc, es).ps| && After(nproc, es).ps[k].state == UNUSED
    ensures var es' := es + [Alloc(i), ForkFails(i)];
            && IsRun(nproc, es')
            && var (s, r) := (After(nproc, es), After(nproc, es'));
               && r.forking == s.forking
               && exists np :: 0 <= np < |s.ps| && s.ps[np].state == UNUSED
                    && r.ps == s.ps[np := s.ps[np].(pid := s.nextpid)]
  {
    RunKeepsInv(nproc, es);
    var s := After(nproc, es);
    var np := FirstUnused(s.ps, 0);
    assert i < |s.forking| && np < |s.ps| && np != i && s.ps[np].parent == Null by { assert Family(s.ps, s.initproc); }
    hide Inv, IsRun, After, FirstUnused, NextPid;
    var a := Step(s, Alloc(i));
    assert a.forking[i := Null] == s.forking;
    assert Enabled(a, ForkFails(i));
    var r := Step(a, ForkFails(i));
    assert r.ps == s.ps[np := s.ps[np].(pid := s.nextpid)];
    hide Step, Enabled;
    Extend(nproc, es, Alloc(i));
    Extend(nproc, es + [Alloc(i)], ForkFails(i));
    assert es + [Alloc(i)] + [ForkFails(i)] == es + [Alloc(i), ForkFails(i)];
  }

  // A process that sleeps on n runs on as it was after a wakeup of n, and so does one that gives
  // up the processor.
  lemma {:induction false} SleeperRunsOn(nproc: nat, es: seq<Event>, i: nat, n: nat)
    requires nproc > 0 && IsRun(nproc, es) && Enabled(After(nproc, es), Sleep(i, n))
    ensures var s := After(nproc, es);
            var a, b := es + [Sleep(i, n), Wakeup(OtherChan(n)), Schedule(i)], es + [Yield(i), Schedule(i)];
            && IsRun(nproc, a) && |After(nproc, a).ps| == |s.ps| && After(nproc, a).ps[i] == s.ps[i].(chan := NoChan)
            && (forall k :: 0 <= k < |s.ps| && k != i ==>
                  After(nproc, a).ps[k] == (if s.ps[k].state == SLEEPING && s.ps[k].chan == OtherChan(n)
                                            then s.ps[k].(state := RUNNABLE) else s.ps[k]))
            && IsRun(nproc, b) && After(nproc, b).ps == s.ps[i := s.ps[i].(chan := NoChan)]
  {
    var s := After(nproc, es);
    var s1 := Step(s, Sleep(i, n));
    var s2 := Step(s1, Wakeup(OtherChan(n)));
    assert Enabled(s2, Schedule(i)) && Enabled(Step(s, Yield(i)), Schedule(i));
    hide IsRun, After, Enabled;
    ExtendThree(nproc, es, Sleep(i, n), Wakeup(OtherChan(n)), Schedule(i));
    Extend(nproc, es, Yield(i));
    Extend(nproc, es + [Yield(i)], Schedule(i));
    assert es + [Yield(i)] + [Schedule(i)] == es + [Yield(i), Schedule(i)];
  }

  lemma {:induction false} ForkSteps(s: State, i: nat) returns (np: nat)
    requires Inv(s) && Enabled(s, Alloc(i)) && exists k :: 0 <= k < |s.ps| && s.ps[k].state == UNUSED
    ensures Enabled(Step(s, Alloc(i)), SetParent(i))
    ensures Enabled(Step(Step(s, Alloc(i)), SetParent(i)), Publish(i))
    ensures var r := Step(Step(Step(s, Alloc(i)), SetParent(i)), Publish(i));
            && r.forking == s.forking && np < |s.ps| && s.ps[np].state == UNUSED
            && r.ps == s.ps[np := Proc(RUNNABLE, s.nextpid, At(i), s.ps[np].chan, s.ps[np].killed)]
            && r.history == s.history + [Born(np, s.nextpid)]
  {
    np := FirstUnused(s.ps, 0);
    assert i < |s.forking| && s.forking[i] == Null && s.ps[i].state == RUNNING && np < |s.ps| && np != i;
    hide Inv, NextPid, FirstUnused;
    var a := Step(s, Alloc(i));
    assert a.ps == s.ps[np := s.ps[np].(state := EMBRYO, pid := s.nextpid)] && a.forking == s.forking[i := At(np)];
    var b := Step(a, SetParent(i));
    assert b.ps == a.ps[np := a.ps[np].(parent := At(i))];
    assert s.forking == a.forking[i := Null];
  }

  // allocproc does not clear the flag killed of the slot it takes: a process is born killed
  // when the flag of its slot is set. This is when a free slot gets it set: kill(0) finds a
  // free slot (or kill a stale id), or a fork fails after its child was killed.
  ghost predicate CleanSlots(ps: seq<Proc>) {
    forall k :: 0 <= k < |ps| && ps[k].state == UNUSED ==> !ps[k].killed
  }

  ghost predicate Soils(s: State, e: Event)
    requires Enabled(s, e)
  {
    || (e.Kill? && FirstPid(s.ps, e.pid, 0) < |s.ps| && s.ps[FirstPid(s.ps, e.pid, 0)].state == UNUSED)
    || (e.ForkFails? && s.ps[s.forking[e.i].i].killed)
  }

  lemma {:induction false} CleanSlotsKept(s: State, e: Event)
    requires Inv(s) && Enabled(s, e) && CleanSlots(s.ps)
    ensures CleanSlots(Step(s, e).ps) <==> !Soils(s, e)
    ensures e.Alloc? && FirstUnused(s.ps, 0) < |s.ps| ==> !Step(s, e).ps[FirstUnused(s.ps, 0)].killed
  {
    hide LastOf, Family, Forks, NoMissedExit, Records, FirstPid, FirstUnused, FirstZombie, HasChild, ExitProcs, Wake, FitsFamily, NextPid;
    RunningIsLive(s, e);
    var r := Step(s, e);
    match e {
      case Exit(i) => ExitHasShape(s.ps, i, s.initproc);
      case Wakeup(c) =>
      case Kill(pid) =>
        OneSlot(s, e);
        var k := Target(s, e);
        if Soils(s, e) {
          assert r.ps[k].state == UNUSED && r.ps[k].killed;
        }
      case ForkFails(i) =>
        OneSlot(s, e);
        var k := Target(s, e);
        if Soils(s, e) {
          assert r.ps[k].state == UNUSED && r.ps[k].killed;
        }
      case _ =>
        OneSlot(s, e);
    }
  }

  // Right after boot, a kill(0) by the first process succeeds, and its first child is born killed.
  lemma {:induction false} KillZeroKillsNextChild(nproc: nat)
    requires nproc > 1
    ensures var es := [Schedule(0), Kill(0), Alloc(0), SetParent(0), Publish(0)];
            && IsRun(nproc, es)
            && |After(nproc, es).ps| == nproc
            && After(nproc, es).ps[1] == Proc(RUNNABLE, 2, At(0), NoChan, true)
  {
    hide IsRun, After, ExitProcs, LastOf, FirstZombie, Wake;
    EmptyRun(nproc);
    var es := [Schedule(0), Kill(0), Alloc(0), SetParent(0), Publish(0)];
    Extend(nproc, [], Schedule(0));
    assert [] + [Schedule(0)] == es[..1];
    assert FirstPid(After(nproc, es[..1]).ps, 0, 0) == 1;
    Extend(nproc, es[..1], Kill(0));
    assert es[..1] + [Kill(0)] == es[..2];
    assert FirstUnused(After(nproc, es[..2]).ps, 0) == 1;
    Extend(nproc, es[..2], Alloc(0));
    assert es[..2] + [Alloc(0)] == es[..3];
    Extend(nproc, es[..3], SetParent(0));
    assert es[..3] + [SetParent(0)] == es[..4];
    Extend(nproc, es[..4], Publish(0));
    assert es[..4] + [Publish(0)] == es;
  }

  lemma {:induction false} EmptyRun(nproc: nat)
    requires nproc > 0
    ensures IsRun(nproc, []) && After(nproc, []) == Initial(nproc)
  {
  }

  lemma {:induction false} Extend(nproc: nat, es: seq<Event>, e: Event)
    requires nproc > 0 && IsRun(nproc, es) && Enabled(After(nproc, es), e)
    ensures IsRun(nproc, es + [e]) && After(nproc, es + [e]) == Step(After(nproc, es), e)
  {
    assert (es + [e])[..|es|] == es;
  }

  lemma {:induction false} ExtendThree(nproc: nat, es: seq<Event>, a: Event, b: Event, c: Event)
    requires nproc > 0 && IsRun(nproc, es) && Enabled(After(nproc, es), a)
    requires Enabled(Step(After(nproc, es), a), b) && Enabled(Step(Step(After(nproc, es), a), b), c)
    ensures IsRun(nproc, es + [a, b, c])
    ensures After(nproc, es + [a, b, c]) == Step(Step(Step(After(nproc, es), a), b), c)
  {
    hide Step, Enabled, IsRun, After;
    Extend(nproc, es, a);
    Extend(nproc, es + [a], b);
    Extend(nproc, es + [a] + [b], c);
    assert es + [a] + [b] + [c] == es + [a, b, c];
  }
}
