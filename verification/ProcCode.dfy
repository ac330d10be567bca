// proc.c as it runs: the loops over ptable.proc with ptable.lock held.
module ProcCode {
  import opened Proc

  class Table {
    const proc: array<Proc>
    var nextpid: int
    var initproc: nat

    // pinit and userinit: the first process is ready to run.
    constructor (nproc: nat)
      requires nproc > 0
      ensures proc[..] == Initial(nproc).ps && nextpid == Initial(nproc).nextpid
      ensures initproc == Initial(nproc).initproc && fresh(proc)
    {
      proc := new Proc[nproc](_ => Proc(UNUSED, 0, Null, NoChan, false));
      nextpid, initproc := 1, 0;
      new;
      var np := AllocProc();
      proc[np] := proc[np].(state := RUNNABLE);
      assert proc[..] == Initial(nproc).ps;
    }

    // allocproc; the length of the table for none. Only the step that holds the lock.
    method AllocProc() returns (np: nat)
      modifies proc, this`nextpid
      ensures np == FirstUnused(old(proc[..]), 0)
      ensures np == proc.Length ==> proc[..] == old(proc[..]) && nextpid == old(nextpid)
      ensures np < proc.Length ==>
                && proc[..] == old(proc[..])[np := old(proc[np]).(state := EMBRYO, pid := old(nextpid))]
                && nextpid == NextPid(old(nextpid))
                && nextpid == if old(nextpid) == 0x7FFF_FFFF then -0x8000_0000 else old(nextpid) + 1
    {
      ghost var ps := proc[..];
      np := 0;
      while np < proc.Length && proc[np].state != UNUSED
        invariant np <= proc.Length && FirstUnused(ps, np) == FirstUnused(ps, 0)
      {
        np := np + 1;
      }
      if np < proc.Length {
        proc[np] := proc[np].(state := EMBRYO);
        proc[np] := proc[np].(pid := nextpid);
        nextpid := NextPid(nextpid);
      }
    }

    method Wakeup1(chan: Chan)
      modifies proc
      ensures proc[..] == Wake(old(proc[..]), chan)
      ensures forall k :: 0 <= k < proc.Length ==>
                proc[k] == (if old(proc[k]).state == SLEEPING && old(proc[k]).chan == chan
                            then old(proc[k]).(state := RUNNABLE) else old(proc[k]))
    {
      ghost var ps := proc[..];
      for k := 0 to proc.Length
        invariant forall j :: 0 <= j < proc.Length ==> proc[j] == if j < k then WakeOne(ps[j], chan) else ps[j]
      {
        if proc[k].state == SLEEPING && proc[k].chan == chan {
          proc[k] := proc[k].(state := RUNNABLE);
        }
      }
    }

    // exit, from taking the lock to the scheduler. cur is the exiting process.
    method Exit(cur: nat)
      requires cur < proc.Length && cur != initproc
      modifies proc
      ensures proc[..] == ExitProcs(old(proc[..]), cur, initproc)
      // a ZOMBIE whose children have passed to init; awake are its parent and, for a ZOMBIE
      // among the children, init
      ensures forall k :: 0 <= k < proc.Length ==>
                && proc[k].pid == old(proc[k]).pid && proc[k].chan == old(proc[k]).chan && proc[k].killed == old(proc[k]).killed
                && proc[k].parent == (if old(proc[k]).parent == At(cur) then At(initproc) else old(proc[k]).parent)
                && proc[k].state == (
                     if k == cur then ZOMBIE
                     else if old(proc[k]).state == SLEEPING
                       && (old(proc[k]).chan == (if old(proc[cur]).parent.At? then ProcChan(old(proc[cur]).parent.i) else NoChan)
                           || (old(proc[k]).chan == ProcChan(initproc)
                               && exists j :: 0 <= j < proc.Length && IsZombieChild(old(proc[..]), cur, j)))
                     then RUNNABLE else old(proc[k]).state)
    {
      ghost var ps := proc[..];
      // wait sleeps on the parent's own channel
      Wakeup1(ChanOf(proc[cur].parent));
      ghost var woken := proc[..];
      // reparent, and wake init for a ZOMBIE among them
      for k := 0 to proc.Length
        invariant |woken| == proc.Length && HalfAdopted(woken, cur, initproc, k, proc[..])
      {
        HalfAdoptedNext(woken, cur, initproc, k, proc[..]);
        if proc[k].parent == At(cur) {
          proc[k] := proc[k].(parent := At(initproc));
          if proc[k].state == ZOMBIE {
            Wakeup1(ProcChan(initproc));
          }
        }
      }
      AdoptedIsExit(ps, cur, initproc, proc[..]);
      proc[cur] := proc[cur].(state := ZOMBIE);
      ExitHasShape(ps, cur, initproc);
      ghost var z := FirstZombie(ps, cur, 0);
      assert z < |ps| ==> IsZombieChild(ps, cur, z);
      assert forall k :: 0 <= k < proc.Length ==> proc[k] == proc[..][k] && old(proc[k]) == ps[k];
      hide ExitProcs, FirstZombie;
    }

    // wait, from the lock (or from waking) to the return or the sleep.
    method Wait(cur: nat) returns (slept: bool, pid: int)
      requires cur < proc.Length
      modifies proc
      ensures proc[..] == WaitProcs(old(proc[..]), cur)
      ensures var k := FirstZombie(old(proc[..]), cur, 0);
              if k < proc.Length then !slept && pid == old(proc[..])[k].pid
              else if !HasChild(old(proc[..]), cur) || old(proc[..])[cur].killed then !slept && pid == -1
              else slept
      // the first ZOMBIE child is reaped and its id returned
      ensures forall k ::
                0 <= k < proc.Length && IsZombieChild(old(proc[..]), cur, k)
                && (forall j :: 0 <= j < k ==> !IsZombieChild(old(proc[..]), cur, j))
                ==>
                && !slept && pid == old(proc[k]).pid
                && proc[..] == old(proc[..])[k := old(proc[k]).(state := UNUSED, pid := 0, parent := Null, killed := false)]
      ensures (forall k :: 0 <= k < proc.Length ==> !IsZombieChild(old(proc[..]), cur, k)) ==>
                if old(proc[cur]).killed || forall k :: 0 <= k < proc.Length ==> old(proc[k]).parent != At(cur) then
                  !slept && pid == -1 && proc[..] == old(proc[..])
                else
                  slept && proc[..] == old(proc[..])[cur := old(proc[cur]).(state := SLEEPING, chan := ProcChan(cur))]
    {
      ghost var ps := proc[..];
      var havekids := false;
      for k := 0 to proc.Length
        invariant proc[..] == ps && FirstZombie(ps, cur, k) == FirstZombie(ps, cur, 0)
        invariant havekids <==> exists j :: 0 <= j < k && ps[j].parent == At(cur)
        invariant forall j :: 0 <= j < k ==> !IsZombieChild(ps, cur, j)
      {
        if proc[k].parent != At(cur) {
          continue;
        }
        havekids := true;
        if proc[k].state == ZOMBIE {
          assert IsZombieChild(ps, cur, k);
          pid := proc[k].pid;
          proc[k] := Reap(proc[k]);
          return false, pid;
        }
      }
      // no point waiting without children
      if !havekids || proc[cur].killed {
        return false, -1;
      }
      proc[cur] := proc[cur].(chan := ProcChan(cur));
      proc[cur] := proc[cur].(state := SLEEPING);
      return true, 0;
    }

    method Kill(pid: int) returns (r: int)
      modifies proc
      ensures proc[..] == KillProcs(old(proc[..]), pid)
      ensures r == if exists k :: 0 <= k < proc.Length && old(proc[..])[k].pid == pid then 0 else -1
      // the first slot with the id is marked, and made RUNNABLE if its process was asleep
      ensures forall k ::
                0 <= k < proc.Length && old(proc[k]).pid == pid && (forall j :: 0 <= j < k ==> old(proc[j]).pid != pid)
                ==>
                && proc[k].killed && proc[k].pid == pid
                && proc[k].state == (if old(proc[k]).state == SLEEPING then RUNNABLE else old(proc[k]).state)
                && proc[k].parent == old(proc[k]).parent && proc[k].chan == old(proc[k]).chan
                && forall j :: 0 <= j < proc.Length && j != k ==> proc[j] == old(proc[j])
      ensures r == -1 ==> proc[..] == old(proc[..])
    {
      ghost var ps := proc[..];
      for k := 0 to proc.Length
        invariant proc[..] == ps && FirstPid(ps, pid, k) == FirstPid(ps, pid, 0)
        invariant forall j :: 0 <= j < k ==> ps[j].pid != pid
      {
        if proc[k].pid == pid {
          proc[k] := proc[k].(killed := true);
          if proc[k].state == SLEEPING {
            proc[k] := proc[k].(state := RUNNABLE);
          }
          return 0;
        }
      }
      return -1;
    }
  }

  // The first k slots have been passed on, and init woken if there was a ZOMBIE among them.
  ghost predicate HalfAdopted(ps: seq<Proc>, i: nat, init: nat, k: nat, r: seq<Proc>) {
    && |r| == |ps| && k <= |ps|
    && var z := exists j :: 0 <= j < k && IsZombieChild(ps, i, j);
       forall j :: 0 <= j < |ps| ==>
         && r[j] == (if z then WakeOne(ps[j], ProcChan(init)) else ps[j]).(
                      parent := if j < k && ps[j].parent == At(i) then At(init) else ps[j].parent)
  }

  predicate IsZombieChild(ps: seq<Proc>, i: nat, j: nat) {
    j < |ps| && ps[j].state == ZOMBIE && ps[j].parent == At(i)
  }

  lemma {:induction false} HalfAdoptedNext(ps: seq<Proc>, i: nat, init: nat, k: nat, r: seq<Proc>)
    requires HalfAdopted(ps, i, init, k, r) && k < |ps|
    ensures var r' := if r[k].parent == At(i) then r[k := r[k].(parent := At(init))] else r;
            HalfAdopted(ps, i, init, k + 1,
                        if r[k].parent == At(i) && r[k].state == ZOMBIE then Wake(r', ProcChan(init)) else r')
  {
    hide Wake;
    var z := exists j :: 0 <= j < k && IsZombieChild(ps, i, j);
    var z' := exists j :: 0 <= j < k + 1 && IsZombieChild(ps, i, j);
    assert r[k].parent == ps[k].parent && (r[k].state == ZOMBIE <==> ps[k].state == ZOMBIE);
    assert z' <==> z || IsZombieChild(ps, i, k);
  }

  lemma {:induction false} AdoptedIsExit(ps: seq<Proc>, i: nat, init: nat, r: seq<Proc>)
    requires i < |ps| && HalfAdopted(Wake(ps, ChanOf(ps[i].parent)), i, init, |ps|, r)
    ensures r[i := r[i].(state := ZOMBIE)] == ExitProcs(ps, i, init)
  {
    hide Wake, Adopt;
    var woken := Wake(ps, ChanOf(ps[i].parent));
    var k := FirstZombie(ps, i, 0);
    if k < |ps| {
      assert IsZombieChild(woken, i, k);
    } else {
      forall j | 0 <= j < |ps| ensures !IsZombieChild(woken, i, j) {}
    }
    var adopted := Adopt(woken, i, init);
    assert r == if k < |ps| then Wake(adopted, ProcChan(init)) else adopted;
  }
}
