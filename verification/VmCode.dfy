// kalloc.c and vm.c as they run, on one memory of frames.
module VmCode {
  import opened Vm
  import opened VmCount
  import opened VmSpaces

  // The free list runs through the first words of the free frames; 0 is the null pointer.
  ghost predicate IsFreeList(mem: Memory, head: nat, pool: seq<nat>) {
    && head == Next(pool, 0)
    && forall k :: 0 <= k < |pool| ==> Word(mem, pool[k], 0) == Next(pool, k + 1)
  }

  function Next(pool: seq<nat>, k: nat): nat {
    if k < |pool| then pool[k] else 0
  }

  lemma {:induction false} FreeListKept(mem: Memory, mem': Memory, head: nat, pool: seq<nat>)
    requires IsFreeList(mem, head, pool) && PoolOk(mem, pool) && |mem'| == |mem|
    requires forall f: nat :: f in pool ==> mem'[f] == mem[f]
    ensures IsFreeList(mem', head, pool)
  {
    forall k | 0 <= k < |pool| ensures Word(mem', pool[k], 0) == Word(mem, pool[k], 0) {
      assert pool[k] in pool;
    }
  }

  // memset(v, 1, PGSIZE), and then the link.
  function Junk(next: nat): (r: Frame)
    ensures |r| == ENTRIES && r[0] == next
  {
    seq(ENTRIES, i => if i == 0 then next else 0x0101_0101)
  }

  lemma {:induction false} FreeListTake(mem: Memory, head: nat, pool: seq<nat>)
    requires IsFreeList(mem, head, pool) && pool != [] && PoolOk(mem, pool) && Frames(mem)
    ensures head == pool[0] && IsFreeList(mem, mem[head][0], pool[1..]) && PoolOk(mem, pool[1..])
  {
    assert Word(mem, pool[0], 0) == mem[head][0];
    forall k | 0 <= k < |pool[1..]|
      ensures Word(mem, pool[1..][k], 0) == Next(pool[1..], k + 1)
    {
      assert pool[1..][k] == pool[k + 1];
    }
  }

  lemma {:induction false} FreeListGive(mem: Memory, head: nat, pool: seq<nat>, f: nat)
    requires IsFreeList(mem, head, pool) && PoolOk(mem, pool) && 0 < f < |mem| && f !in pool
    ensures IsFreeList(mem[f := Junk(head)], f, [f] + pool) && PoolOk(mem, [f] + pool)
  {
    var r := mem[f := Junk(head)];
    forall k | 0 <= k < |[f] + pool|
      ensures Word(r, ([f] + pool)[k], 0) == Next([f] + pool, k + 1)
    {
      if k > 0 {
        assert ([f] + pool)[k] == pool[k - 1] && pool[k - 1] in pool;
        assert Word(r, pool[k - 1], 0) == Word(mem, pool[k - 1], 0);
      }
    }
  }

  datatype Outcome = Done | NoMemory | Remap

  class Machine {
    const mem: array<Frame>
    var freelist: nat
    ghost var pool: seq<nat>

    ghost predicate Valid()
      reads this, mem
    {
      Frames(mem[..]) && PoolOk(mem[..], pool) && IsFreeList(mem[..], freelist, pool)
    }

    constructor (n: nat)
      ensures Valid() && pool == [] && mem.Length == n && fresh(mem)
    {
      mem := new Frame[n](_ => Zeros());
      freelist, pool := 0, [];
    }

    // 0 when there is no free frame.
    method Kalloc() returns (r: nat)
      requires Valid()
      modifies this`freelist, this`pool
      ensures Valid() && r == (if old(pool) == [] then 0 else old(pool)[0])
      ensures pool == if old(pool) == [] then [] else old(pool)[1..]
      ensures r == 0 <==> old(pool) == []
    {
      r := freelist;
      if r != 0 {
        FreeListTake(mem[..], freelist, pool);
        freelist := mem[r][0];
        pool := pool[1..];
      }
    }

    method Kfree(v: nat)
      requires Valid() && 0 < v < mem.Length && v !in pool
      modifies mem, this`freelist, this`pool
      ensures Valid() && pool == [v] + old(pool)
      ensures mem[..] == old(mem[..])[v := Junk(old(freelist))]
    {
      ghost var m: Memory := mem[..];
      FreeListGive(m, freelist, pool, v);
      mem[v] := Junk(freelist);
      assert mem[..] == m[v := Junk(freelist)];
      freelist := v;
      pool := [v] + pool;
    }

    // Free the frames from lo up to hi.
    method FreeRange(lo: nat, hi: nat)
      requires Valid() && 0 < lo && hi <= mem.Length && forall f :: lo <= f < hi ==> f !in pool
      modifies mem, this`freelist, this`pool
      ensures Valid()
      ensures forall f :: f in pool <==> f in old(pool) || lo <= f < hi
      ensures forall f :: 0 <= f < mem.Length && !(lo <= f < hi) ==> mem[f] == old(mem[f])
    {
      hide IsFreeList, PoolOk, Frames, Junk;
      ghost var m0: Memory, p0 := mem[..], pool;
      var p := lo;
      while p < hi
        invariant Valid() && lo <= p && (p <= hi || p == lo)
        invariant forall f :: f in pool <==> f in p0 || lo <= f < p
        invariant |m0| == mem.Length && forall f :: 0 <= f < |m0| && !(lo <= f < hi) ==> mem[..][f] == m0[f]
      {
        Kfree(p);
        p := p + 1;
      }
      assert forall f :: 0 <= f < mem.Length ==> mem[f] == mem[..][f];
    }

    // Store a word of a table.
    method Store(f: nat, i: nat, w: nat)
      requires Valid() && f < mem.Length && i < ENTRIES && f !in pool
      modifies mem
      ensures Valid() && f < |old(mem[..])| && i < |old(mem[..])[f]| && mem[..] == SetWord(old(mem[..]), f, i, w)
    {
      ghost var m: Memory := mem[..];
      mem[f] := mem[f][i := w];
      assert mem[..] == SetWord(m, f, i, w);
      FreeListKept(m, mem[..], freelist, pool);
    }

    // memset or memmove of a whole frame.
    method Fill(f: nat, data: Frame)
      requires Valid() && f < mem.Length && |data| == ENTRIES && f !in pool
      modifies mem
      ensures Valid() && mem[..] == old(mem[..])[f := data]
    {
      ghost var m: Memory := mem[..];
      mem[f] := data;
      assert mem[..] == m[f := data];
      FreeListKept(m, mem[..], freelist, pool);
    }

    // walkpgdir; the table that holds the entry of page v, 0 for none.
    method WalkPgDir(d: nat, v: nat, alloc: bool) returns (t: nat)
      requires Valid() && TabsOk(mem[..], d, pool) && v < NPAGES
      modifies mem, this`freelist, this`pool
      ensures Valid() && Kept(old(mem[..]), old(pool), mem[..], pool, d)
      ensures forall u: nat :: Pte(mem[..], d, u) == Pte(old(mem[..]), d, u)
      ensures HasTable(old(mem[..]), d, Dir(v)) || !alloc || t == 0 ==> mem[..] == old(mem[..]) && pool == old(pool)
      ensures t == 0 <==> !HasTable(mem[..], d, Dir(v))
      ensures t != 0 ==> t == Table(mem[..], d, Dir(v)) && t < mem.Length && t !in pool && |mem[t]| == ENTRIES
      ensures t == 0 <==> !HasTable(old(mem[..]), d, Dir(v)) && (!alloc || old(pool) == [])
      ensures forall i: nat :: HasTable(mem[..], d, i) <==> HasTable(old(mem[..]), d, i) || (t != 0 && i == Dir(v))
      ensures |pool| == |old(pool)| - if t != 0 && !HasTable(old(mem[..]), d, Dir(v)) then 1 else 0
    {
      hide Pte, IsTab, IsFreeList, Present, FrameOf, Pack, Dir;
      ghost var m0: Memory, p0 := mem[..], pool;
      var pde := mem[d][Dir(v)];
      assert pde == Word(m0, d, Dir(v));
      if Present(pde) {
        t := FrameOf(pde);
        TableNotFree(m0, d, p0, Dir(v));
        KeptSelf(m0, p0, d);
      } else {
        if alloc && pool != [] { AddTable(m0, d, p0, Dir(v)); }
        if alloc {
          t := Kalloc();
        }
        if !alloc || t == 0 {
          KeptSelf(m0, p0, d);
          return 0;
        }
        // a cleared table maps nothing
        Fill(t, Zeros());
        DirNotFree(m0, d, p0);
        Store(d, Dir(v), Pack(t, 7));
        TableNotFree(mem[..], d, pool, Dir(v));
      }
    }

    // mappages; k pages were mapped. Each takes a frame exactly if it is the first in a table
    // that was missing.
    method MapPages(d: nat, va: nat, size: nat, pa: nat, perm: nat) returns (o: Outcome, k: nat)
      requires Valid() && TabsOk(mem[..], d, pool)
      requires 0 < size && va + size <= NPAGES * PGSIZE && pa % PGSIZE == 0 && perm < PGSIZE
      modifies mem, this`freelist, this`pool
      ensures Valid() && MapsRange(old(mem[..]), old(pool), mem[..], pool, d, va / PGSIZE, k, pa / PGSIZE, perm)
      ensures Tabled(old(mem[..]), mem[..], d, va / PGSIZE, va / PGSIZE + k)
      ensures |pool| == |old(pool)| - NewTabs(old(mem[..]), d, va / PGSIZE, va / PGSIZE + k)
      ensures o == Done ==> va / PGSIZE + k == (va + size - 1) / PGSIZE + 1
      ensures o != Done ==> va / PGSIZE + k <= (va + size - 1) / PGSIZE
      ensures o == Remap ==> Present(Pte(old(mem[..]), d, va / PGSIZE + k))
      ensures o == NoMemory ==> pool == [] && NewTab(old(mem[..]), d, va / PGSIZE, va / PGSIZE + k)
    {
      hide Pte, IsTab, IsFreeList, Pack, Dir, Idx, TabsOk, Kept, HasTable, Table, PoolOk, Frames, Tabled, NewTab;
      ghost var m0: Memory, p0 := mem[..], pool;
      var first, last := va / PGSIZE, (va + size - 1) / PGSIZE;
      assert last < NPAGES;
      k := 0;
      MapsNone(m0, p0, d, first, pa / PGSIZE, perm);
      TabledNone(m0, d, first);
      while true
        invariant Valid() && first + k <= last < NPAGES && MapsRange(m0, p0, mem[..], pool, d, first, k, pa / PGSIZE, perm)
        invariant Tabled(m0, mem[..], d, first, first + k)
        invariant |pool| == |p0| - NewTabs(m0, d, first, first + k)
        decreases last - k
      {
        ghost var m1: Memory, p1 := mem[..], pool;
        KeptOk(m0, p0, m1, p1, d);
        TabledAt(m0, m1, d, first, first + k);
        var pte := WalkPgDir(d, first + k, true);
        if pte == 0 {
          return NoMemory, k;
        }
        ghost var m2: Memory, p2 := mem[..], pool;
        PteAt(m2, d, first + k, pte);
        if Present(mem[pte][Idx(first + k)]) {
          KeptTransitive(m0, p0, m1, p1, m2, p2, d);
          PresentHasTable(m1, d, first + k);
          TabledSame(m0, m1, m2, d, first, first + k);
          return Remap, k;
        }
        KeptOk(m1, p1, m2, p2, d);
        SetPte(m2, d, p2, first + k, Pack(pa / PGSIZE + k, perm));
        MapsOneMore(m0, p0, m1, p1, m2, p2, d, first, k, pa / PGSIZE, perm);
        Store(pte, Idx(first + k), Pack(pa / PGSIZE + k, perm));
        TabledStep(m0, m1, m2, mem[..], d, first, first + k);
        k := k + 1;
        if first + k - 1 == last {
          return Done, k;
        }
      }
    }

    // deallocuvm, below KERNBASE
    method DeallocUvm(d: nat, oldsz: nat, newsz: nat) returns (sz: nat)
      requires Valid() && SpaceOk(mem[..], d, pool) && oldsz <= UPAGES * PGSIZE
      modifies mem, this`freelist, this`pool
      ensures Valid() && sz == if newsz >= oldsz then oldsz else newsz
      ensures newsz >= oldsz ==> mem[..] == old(mem[..]) && pool == old(pool)
      ensures newsz < oldsz ==> Shrunk(old(mem[..]), old(pool), mem[..], pool, d, RoundUp(newsz), RoundUp(oldsz))
    {
      hide Pte, IsTab, IsFreeList, Dir, Idx, SpaceOk, HasTable, Table, PoolOk, Frames, Shrunk, UserPage, InStep, Jumping, Missed;
      if newsz >= oldsz {
        return oldsz;
      }
      ghost var m0: Memory, p0 := mem[..], pool;
      var lo, hi := RoundUp(newsz), RoundUp(oldsz);
      var a := lo;
      RoundUpOrder(newsz, oldsz);
      ShrunkNothing(m0, p0, d, lo);
      StartJumping(m0, d, lo);
      while a * PGSIZE < oldsz
        invariant Valid() && lo <= a && |m0| == mem.Length
        invariant Shrunk(m0, p0, mem[..], pool, d, lo, Min(a, hi))
        invariant InStep(m0, d, lo, a) || Jumping(m0, d, lo, a)
      {
        assert a < hi <= UPAGES by { BelowRoundUp(a, oldsz); }
        ghost var m1: Memory, p1 := mem[..], pool;
        ShrunkFacts(m0, p0, m1, p1, d, lo, a);
        var pte := WalkPgDir(d, a, false);
        assert mem[..] == m1;
        if pte == 0 {
          NextTable(m0, d, lo, a);
          SkipTable(m0, p0, m1, p1, d, lo, a, Min(a + ENTRIES, hi));
          a := a + (ENTRIES - 1);
        } else {
          NextPage(m0, d, lo, a);
          PteAt(m1, d, a, pte);
          if Present(mem[pte][Idx(a)]) {
            var pa := FrameOf(mem[pte][Idx(a)]);
            UserPageIs(m1, d, a);
            ShrinkStep(m0, p0, m1, p1, d, lo, a, Junk(freelist));
            PageInHand(m1, d, p1, a);
            ghost var junk := Junk(freelist);
            Kfree(pa);
            Store(pte, Idx(a), 0);
            assert mem[..] == SetWord(m1, pte, Idx(a), 0)[pa := junk];
          } else {
            SkipPage(m0, p0, m1, p1, d, lo, a);
          }
        }
        a := a + 1;
      }
      return newsz;
    }

    // allocuvm. grown tells whether it came to its end; lost holds the frame of a page that
    // mappages had no memory to map, which the code does not notice. Both are decided by the
    // number of free frames at the call.
    method AllocUvm(d: nat, oldsz: nat, newsz: nat) returns (sz: nat, ghost grown: bool, ghost lost: set<nat>)
      requires Valid() && SpaceOk(mem[..], d, pool)
      requires forall u: nat :: RoundUp(oldsz) <= u < RoundUp(newsz) && u < UPAGES ==> !UserPage(mem[..], d, u)
      modifies mem, this`freelist, this`pool
      ensures Valid()
      ensures newsz >= UPAGES * PGSIZE ==> sz == 0 && mem[..] == old(mem[..]) && pool == old(pool)
      ensures newsz < oldsz && newsz < UPAGES * PGSIZE ==> sz == oldsz && mem[..] == old(mem[..]) && pool == old(pool)
      ensures oldsz <= newsz < UPAGES * PGSIZE ==>
                var m0, p0, lo, hi := old(mem[..]), old(pool), RoundUp(oldsz), RoundUp(newsz);
                && lo <= hi && |lost| <= 1
                && (grown && lost == {} <==> |p0| >= Need(m0, d, lo, hi))
                && (lost != {} <==> exists a: nat :: a < hi && LosesAt(m0, d, lo, a, |p0|))
                && (grown && lost == {} ==>
                      && sz == newsz && Grew(m0, p0, mem[..], pool, d, lo, hi, {})
                      && Tabled(m0, mem[..], d, lo, hi) && |pool| == |p0| - Need(m0, d, lo, hi))
                && (grown && lost != {} ==>
                      && sz == newsz && pool == [] && lo < hi && LosesAt(m0, d, lo, hi - 1, |p0|)
                      && Grew(m0, p0, mem[..], pool, d, lo, hi - 1, lost) && Tabled(m0, mem[..], d, lo, hi - 1))
                && (!grown ==>
                      && sz == 0 && Undone(m0, p0, mem[..], pool, d, lost)
                      && exists at: nat :: at < hi && StopsAt(m0, d, lo, at, |p0|, lost == {}) && Tabled(m0, mem[..], d, lo, at))
    {
      hide Pte, IsTab, IsFreeList, Dir, Idx, SpaceOk, HasTable, Table, PoolOk, Frames, Shrunk, Grew, Undone, MapsRange, UserPage, TabsOk, Tabled, NewTab, NewTabs, Word;
      grown, lost := true, {};
      if newsz >= UPAGES * PGSIZE {
        return 0, true, {};
      }
      if newsz < oldsz {
        return oldsz, true, {};
      }
      ghost var m0: Memory, p0 := mem[..], pool;
      var lo, hi := RoundUp(oldsz), RoundUp(newsz);
      var a := lo;
      ghost var at := lo;
      BelowRoundUp(0, newsz);
      RoundUpMonotone(oldsz, newsz);
      GrewNothing(m0, p0, d, lo);
      TabledNone(m0, d, lo);
      NeedNothing(m0, d, lo);
      while a * PGSIZE < newsz
        invariant Valid() && lo <= a <= hi && |m0| == mem.Length
        invariant lo <= at <= a && Grew(m0, p0, mem[..], pool, d, lo, at, lost) && Tabled(m0, mem[..], d, lo, at)
        invariant |lost| <= 1 && if lost == {} then at == a && |pool| == |p0| - Need(m0, d, lo, at)
                                else at + 1 == a && pool == [] && LosesAt(m0, d, lo, at, |p0|)
      {
        BelowRoundUp(a, newsz);
        ghost var m1: Memory, p1 := mem[..], pool;
        GrewFacts(m0, p0, m1, p1, d, lo, at, lost);
        var frame := Kalloc();
        if frame == 0 {
          ghost var s := DeallocUvm(d, newsz, oldsz);
          AllocStopped(m0, p0, m1, p1, mem[..], pool, d, lo, at, hi, lost);
          NeedDecides(m0, d, lo, at, hi, |p0|, lost != {});
          assert StopsAt(m0, d, lo, at, |p0|, lost == {});
          return 0, false, lost;
        }
        FrameTaken(m1, d, p1, Zeros());
        Fill(frame, Zeros());
        ghost var m: Memory := mem[..];
        TabledWords(m0, m1, m, d, lo, a);
        var o, k := MapPages(d, a * PGSIZE, PGSIZE, frame * PGSIZE, 6);
        OnePage(a, frame);
        assert !UserPage(m1, d, a) && !Present(Pte(m, d, a)) by { StillUnmapped(m0, p0, m1, p1, m, d, lo, at, a, lost); }
        assert o != Remap && k == if o == Done then 1 else 0;
        GrowStep(m0, p0, m1, p1, mem[..], pool, d, lo, a, k);
        TabledExtend(m0, m, mem[..], d, lo, a, k);
        a := a + 1;
        if o == Done {
          at := a;
        } else {
          lost := {frame};
        }
      }
      BelowRoundUp(a, newsz);
      NeedDecides(m0, d, lo, at, hi, |p0|, lost != {});
      return newsz, true, lost;
    }

    method FreeVm(d: nat)
      requires Valid() && SpaceOk(mem[..], d, pool)
      modifies mem, this`freelist, this`pool
      ensures Valid() && Freed(old(mem[..]), old(pool), mem[..], pool, d)
    {
      hide Pte, IsTab, IsFreeList, Dir, Idx, SpaceOk, HasTable, Table, PoolOk, Frames, Shrunk, UserPage, TabsOk, HalfFreed, Freed;
      ghost var m0: Memory, p0 := mem[..], pool;
      BelowRoundUp(0, UPAGES * PGSIZE);
      assert RoundUp(UPAGES * PGSIZE) == UPAGES && RoundUp(0) == 0;
      var s := DeallocUvm(d, UPAGES * PGSIZE, 0);
      ghost var m1: Memory, p1 := mem[..], pool;
      ShrunkFacts(m0, p0, m1, p1, d, 0, UPAGES);
      HalfFreedStart(m1, p1, d);
      for i := 0 to ENTRIES
        invariant Valid() && |m1| == mem.Length && HalfFreed(m1, p1, mem[..], pool, d, i)
      {
        HalfFreedStep(m1, p1, mem[..], pool, d, i, Junk(freelist));
        HalfFreedDir(m1, p1, mem[..], pool, d, i);
        if Present(mem[d][i]) {
          var v := FrameOf(mem[d][i]);
          Kfree(v);
        }
      }
      AllFreed(m0, p0, m1, p1, mem[..], pool, d, Junk(freelist));
      DirInHand(m1, p1, mem[..], pool, d, ENTRIES);
      Kfree(d);
    }

    // setupkvm; 0 exactly if there are too few frames, and then all of them are lost.
    method SetupKvm(data: nat) returns (d: nat)
      requires Valid() && IsData(data)
      modifies mem, this`freelist, this`pool
      ensures Valid()
      ensures d != 0 <==> |old(pool)| >= KERNELFRAMES
      ensures d != 0 ==>
                && FromPool(old(mem[..]), old(pool), mem[..], pool, d) && HasKernel(mem[..], d, data, 4)
                && |pool| == |old(pool)| - KERNELFRAMES
                && forall i: nat :: HasTable(mem[..], d, i) <==> KernelTab(data, 4, i)
      ensures d == 0 ==> pool == []
      ensures forall f: nat :: f in pool ==> f in old(pool)
      ensures forall f: nat :: f < mem.Length && f !in old(pool) ==> mem[..][f] == old(mem[..])[f]
    {
      hide Pte, IsTab, IsFreeList, SpaceOk, HasTable, Table, PoolOk, Frames, MapsRange, TabsOk, FromPool, HasKernel, IsData, KernelMap, SizeOf, FirstPage, PagesOf, KernelPte, KernelTab, TabCount, NewTabs, NewTab, Tabled;
      ghost var m0: Memory, p0 := mem[..], pool;
      d := Kalloc();
      if d == 0 {
        return;
      }
      EmptyDirectory(m0, p0, data);
      FrameFree(m0, p0);
      Fill(d, Zeros());
      NoKernelTab(mem[..], d, data);
      var k := 0;
      while k < 4
        invariant 0 <= k <= 4 && Valid() && d != 0 && |m0| == mem.Length
        invariant FromPool(m0, p0, mem[..], pool, d) && HasKernel(mem[..], d, data, k)
        invariant forall i: nat :: HasTable(mem[..], d, i) <==> KernelTab(data, k, i)
        invariant |pool| == |p0| - 1 - TabCount(data, k)
        decreases 4 - k
      {
        ghost var m1: Memory, p1 := mem[..], pool;
        FromPoolFacts(m0, p0, m1, p1, d);
        var line := KernelMap(data)[k];
        KernelMapOk(data, k);
        var o, n := MapPages(d, line.virt, SizeOf(line), line.start, line.perm);
        assert FirstPage(line) == line.virt / PGSIZE by { FirstPageIs(line); }
        NoRemap(m1, d, data, k, n);
        KernelStep(m0, p0, m1, p1, mem[..], pool, d, data, k, n);
        FromPoolFacts(m0, p0, mem[..], pool, d);
        if o != Done {
          KernelLineShort(m1, d, data, k, n);
          TabCountsAll(data, k + 1);
          return 0;
        }
        KernelLineTabs(m1, mem[..], d, data, k);
        k := k + 1;
      }
      TabCountsAll(data, 4);
      FromPoolFacts(m0, p0, mem[..], pool, d);
    }

    // copyuvm; 0 exactly if there are too few frames for the whole child. All frames come back
    // then, save the one that mappages had no memory to map, or all that setupkvm took. The
    // source has a panic for a page that is not there.
    method CopyUvm(p: nat, sz: nat, data: nat) returns (d: nat, ghost lost: set<nat>)
      requires Valid() && SpaceOk(mem[..], p, pool) && IsData(data) && sz <= UPAGES * PGSIZE
      requires forall u: nat :: u < RoundUp(sz) ==> UserPage(mem[..], p, u)
      modifies mem, this`freelist, this`pool
      ensures Valid()
      ensures d != 0 <==> |old(pool)| >= CopyNeed(RoundUp(sz))
      ensures d != 0 ==>
                && Copied(old(mem[..]), old(pool), mem[..], pool, p, d, data, RoundUp(sz))
                && |pool| == |old(pool)| - CopyNeed(RoundUp(sz))
      ensures d == 0 ==> forall f: nat :: f in pool <==> f in old(pool) && f !in lost
      ensures forall f: nat :: f in lost ==> f in old(pool)
      ensures |old(pool)| < KERNELFRAMES ==> forall f: nat :: f in old(pool) ==> f in lost
      ensures |old(pool)| >= KERNELFRAMES ==>
                && |lost| <= 1
                && (lost != {} <==> exists i: nat :: i < RoundUp(sz) && CopyLosesAt(i, |old(pool)|))
      ensures forall f: nat :: f < mem.Length && f !in old(pool) ==> mem[..][f] == old(mem[..])[f]
    {
      hide Pte, IsTab, IsFreeList, Dir, Idx, SpaceOk, HasTable, Table, PoolOk, Frames, MapsRange, TabsOk, FromPool, HasKernel, Copied, Mine, UserPage, IsData, KernelPte, KernelTab, CopyLosesAt, CopyNeed, NewTabs, NewTab, Tabled, Freed, Word;
      ghost var m0: Memory, p0 := mem[..], pool;
      lost := {};
      CopyNeedLeast(RoundUp(sz));
      d := SetupKvm(data);
      if d == 0 {
        lost := set f | f in p0;
        return;
      }
      ghost var mk: Memory := mem[..];
      CopiedNothing(m0, p0, mk, pool, p, d, data);
      TabledNone(mk, d, 0);
      ChildTabs(mk, d, data, 0);
      var i := 0;
      while i * PGSIZE < sz
        invariant Valid() && d != 0 && |m0| == mem.Length && i <= RoundUp(sz) && Copied(m0, p0, mem[..], pool, p, d, data, i)
        invariant Tabled(mk, mem[..], d, 0, i) && |pool| == |p0| - CopyNeed(i) && lost == {}
        decreases RoundUp(sz) - i
      {
        BelowRoundUp(i, sz);
        ghost var m1: Memory, p1 := mem[..], pool;
        CopiedFacts(m0, p0, m1, p1, p, d, data, i);
        ParentPage(m0, p0, m1, p1, p, i);
        var pte := WalkPgDir(p, i, false);
        assert mem[..] == m1;
        PteAt(m1, p, i, pte);
        var entry := mem[pte][Idx(i)];
        var pa, flags := FrameOf(entry), FlagsOf(entry);
        var frame := Kalloc();
        if frame == 0 {
          FreeVm(d);
          CopyDropped(m0, p0, m1, p1, mem[..], pool, d, {});
          CopyDecides(i, RoundUp(sz), |p0|, false);
          return 0, {};
        }
        FrameTaken(m1, d, p1, m0[pa]);
        Fill(frame, mem[pa]);
        ghost var m: Memory := mem[..];
        TabledWords(mk, m1, m, d, 0, i);
        var o, n := MapPages(d, i * PGSIZE, PGSIZE, frame * PGSIZE, flags);
        OnePage(i, frame);
        ChildUnmapped(m0, p0, m1, p1, m, p, d, data, i);
        assert o != Remap && n == if o == Done then 1 else 0;
        CopyStep(m0, p0, m1, p1, mem[..], pool, p, d, data, i, n);
        TabledExtend(mk, m, mem[..], d, 0, i, n);
        ChildTabs(mk, d, data, i);
        if o != Done {
          ghost var m2: Memory, p2 := mem[..], pool;
          FreeVm(d);
          CopyDropped(m0, p0, m2, p2, mem[..], pool, d, {frame});
          LosesThere(i, |p0|);
          CopyDecides(i, RoundUp(sz), |p0|, true);
          return 0, {frame};
        }
        ChildTabs(mk, d, data, i + 1);
        i := i + 1;
      }
      BelowRoundUp(i, sz);
      CopiedFacts(m0, p0, mem[..], pool, p, d, data, i);
      CopyDecides(i, RoundUp(sz), |p0|, false);
    }
  }

  lemma {:induction false} NoKernelTab(mem: Memory, d: nat, data: nat)
    requires IsData(data) && d < |mem| && mem[d] == Zeros()
    ensures forall i: nat :: HasTable(mem, d, i) <==> KernelTab(data, 0, i)
    ensures TabCount(data, 0) == 0
  {
  }

  lemma {:induction false} TabCountsAll(data: nat, k: nat)
    requires IsData(data) && k <= 4
    ensures TabCount(data, k) <= KERNELTABS && TabCount(data, 4) == KERNELTABS
  {
    if k < 4 {
      TabCounts(data, k);
    }
  }

  lemma {:induction false} CopyNeedLeast(n: nat)
    ensures CopyNeed(n) >= KERNELFRAMES == CopyNeed(0)
  {
  }

  lemma {:induction false} LosesThere(i: nat, free: nat)
    requires Idx(i) == 0 && free == CopyNeed(i) + 1
    ensures CopyLosesAt(i, free)
  {
  }

  lemma {:induction false} FrameFree(mem: Memory, pool: seq<nat>)
    requires PoolOk(mem, pool) && pool != []
    ensures pool[0] < |mem| && pool[0] !in pool[1..]
  {
  }

  lemma {:induction false} FirstPageIs(m: Kmap)
    ensures FirstPage(m) == m.virt / PGSIZE
  {
  }

  lemma {:induction false} FromPoolFacts(m0: Memory, p0: seq<nat>, mem: Memory, pool: seq<nat>, d: nat)
    requires FromPool(m0, p0, mem, pool, d)
    ensures TabsOk(mem, d, pool) && SpaceOk(mem, d, pool) && |mem| == |m0|
    ensures forall f: nat :: f in pool ==> f in p0
    ensures forall f: nat :: Mine(mem, d, pool, f) <==> f in p0
    ensures forall f: nat :: f < |mem| && f !in p0 ==> mem[f] == m0[f]
  {
    hide IsTab, IsUser, TabsOk, UserOk;
    forall f: nat | f in pool ensures f in p0 {
      assert Mine(mem, d, pool, f);
    }
  }

  // The lines of kmap do not overlap.
  lemma {:induction false} NoRemap(mem: Memory, d: nat, data: nat, k: nat, n: nat)
    requires IsData(data) && k < 4 && HasKernel(mem, d, data, k)
    ensures !Present(Pte(mem, d, FirstPage(KernelMap(data)[k]) + n))
  {
    hide Pte;
    KernelMapOk(data, k);
    var u := FirstPage(KernelMap(data)[k]) + n;
    if k > 0 {
      KernelPteAbove(data, k, u);
    }
    assert Pte(mem, d, u) == 0;
  }

  lemma {:induction false} CopiedFacts(m0: Memory, p0: seq<nat>, mem: Memory, pool: seq<nat>, p: nat, d: nat, data: nat, k: nat)
    requires IsData(data) && Copied(m0, p0, mem, pool, p, d, data, k)
    ensures TabsOk(mem, d, pool) && SpaceOk(mem, d, pool) && |mem| == |m0|
    ensures forall f: nat :: f in pool ==> f in p0
    ensures forall f: nat :: Mine(mem, d, pool, f) <==> f in p0
    ensures forall f: nat :: f < |mem| && f !in p0 ==> mem[f] == m0[f]
    ensures k < UPAGES ==> !UserPage(mem, d, k)
  {
    hide FromPool, SpaceOk, TabsOk, Mine, UserPage;
    FromPoolFacts(m0, p0, mem, pool, d);
  }

  // The parent's page i can be read where it was.
  lemma {:induction false} ParentPage(m0: Memory, p0: seq<nat>, m1: Memory, p1: seq<nat>, p: nat, i: nat)
    requires SpaceOk(m0, p, p0) && |m1| == |m0| && Frames(m1) && PoolOk(m1, p1) && UserPage(m0, p, i)
    requires forall f: nat :: f in p1 ==> f in p0
    requires forall f: nat :: f < |m0| && f !in p0 ==> m1[f] == m0[f]
    ensures TabsOk(m1, p, p1) && HasTable(m1, p, Dir(i)) && Pte(m1, p, i) == Pte(m0, p, i) && Present(Pte(m0, p, i)) && i < UPAGES
    ensures Page(m0, p, i) == FrameOf(Pte(m0, p, i)) < |m0| && m1[Page(m0, p, i)] == m0[Page(m0, p, i)]
    ensures |m0[Page(m0, p, i)]| == ENTRIES && FlagsOf(Pte(m0, p, i)) < PGSIZE
  {
    hide Word;
    ParentKept(m0, p0, m1, p1, p);
    assert UserPage(m1, p, i);
  }

  lemma {:induction false} ChildUnmapped(
    m0: Memory, p0: seq<nat>, m1: Memory, p1: seq<nat>, m: Memory, p: nat, d: nat, data: nat, i: nat)
    requires IsData(data) && Copied(m0, p0, m1, p1, p, d, data, i) && i < UPAGES
    requires forall v: nat :: Pte(m, d, v) == Pte(m1, d, v)
    ensures !UserPage(m1, d, i) && !Present(Pte(m, d, i))
  {
    hide FromPool, Pte;
  }

  // A child that could not be finished goes away.
  lemma {:induction false} CopyDropped(
    m0: Memory, p0: seq<nat>, m1: Memory, p1: seq<nat>, m2: Memory, p2: seq<nat>, d: nat, lost: set<nat>)
    requires Freed(m1, p1, m2, p2, d) && |m1| == |m0|
    requires forall f: nat :: Mine(m1, d, p1, f) <==> f in p0 && f !in lost
    requires forall f: nat :: f < |m0| && f !in p0 ==> m1[f] == m0[f]
    ensures forall f: nat :: f in p2 <==> f in p0 && f !in lost
    ensures forall f: nat :: f < |m0| && f !in p0 ==> m2[f] == m0[f]
  {
    hide Mine;
  }

  lemma {:induction false} HalfFreedDir(m1: Memory, p1: seq<nat>, mem: Memory, pool: seq<nat>, d: nat, k: nat)
    requires TabsOk(m1, d, p1) && HalfFreed(m1, p1, mem, pool, d, k) && k < ENTRIES
    ensures 0 < d < |mem| && |mem[d]| == ENTRIES && d !in pool
    ensures HasTable(m1, d, k) == Present(mem[d][k]) && Table(m1, d, k) == FrameOf(mem[d][k])
  {
  }

  lemma {:induction false} DirInHand(m1: Memory, p1: seq<nat>, mem: Memory, pool: seq<nat>, d: nat, k: nat)
    requires TabsOk(m1, d, p1) && HalfFreed(m1, p1, mem, pool, d, k)
    ensures 0 < d < |mem| && d !in pool
  {
  }

  lemma {:induction false} RoundUpMonotone(a: nat, b: nat)
    requires a <= b
    ensures RoundUp(a) <= RoundUp(b)
  {
  }

  lemma {:induction false} OnePage(a: nat, frame: nat)
    ensures (a * PGSIZE) / PGSIZE == a && (a * PGSIZE + PGSIZE - 1) / PGSIZE == a
    ensures (frame * PGSIZE) / PGSIZE == frame && (frame * PGSIZE) % PGSIZE == 0
  {
  }

  lemma {:induction false} GrewFacts(m0: Memory, p0: seq<nat>, m1: Memory, p1: seq<nat>, d: nat, lo: nat, at: nat, lost: set<nat>)
    requires Grew(m0, p0, m1, p1, d, lo, at, lost)
    ensures SpaceOk(m1, d, p1) && |m1| == |m0|
  {
  }

  // The first free frame, once taken, can be filled and given to mappages.
  lemma {:induction false} FrameTaken(mem: Memory, d: nat, pool: seq<nat>, data: Frame)
    requires SpaceOk(mem, d, pool) && pool != [] && |data| == ENTRIES
    ensures 0 < pool[0] < |mem| && pool[0] !in pool[1..]
    ensures TabsOk(mem[pool[0] := data], d, pool[1..])
    ensures forall v: nat :: Pte(mem[pool[0] := data], d, v) == Pte(mem, d, v)
    ensures forall i: nat :: Word(mem[pool[0] := data], d, i) == Word(mem, d, i)
  {
    hide Pte, IsTab, HasTable, Table, Word;
    TakeFrame(mem, d, pool);
    NotTable(mem, d, pool, pool[0]);
    WriteFrame(mem, d, pool[1..], pool[0], data);
  }

  lemma {:induction false} StillUnmapped(m0: Memory, p0: seq<nat>, m1: Memory, p1: seq<nat>, m: Memory, d: nat, lo: nat, at: nat, a: nat, lost: set<nat>)
    requires Grew(m0, p0, m1, p1, d, lo, at, lost) && at <= a < UPAGES && !UserPage(m0, d, a)
    requires forall v: nat :: Pte(m, d, v) == Pte(m1, d, v)
    ensures !UserPage(m1, d, a) && !Present(Pte(m, d, a))
  {
    hide Pte, SpaceOk, Mine, IsTab, HasTable, Table;
    assert Pte(m1, d, a) == Pte(m0, d, a);
  }

  lemma {:induction false} AllocStopped(
    m0: Memory, p0: seq<nat>, m1: Memory, p1: seq<nat>, m2: Memory, p2: seq<nat>, d: nat, lo: nat, at: nat, hi: nat, lost: set<nat>)
    requires SpaceOk(m0, d, p0) && Grew(m0, p0, m1, p1, d, lo, at, lost) && lo <= at <= hi <= UPAGES
    requires Shrunk(m1, p1, m2, p2, d, lo, hi)
    requires forall u: nat :: lo <= u < hi ==> !UserPage(m0, d, u)
    requires Tabled(m0, m1, d, lo, at)
    ensures Undone(m0, p0, m2, p2, d, lost) && Tabled(m0, m2, d, lo, at)
  {
    TabledWords(m0, m1, m2, d, lo, at);
    ShrinkUndoesGrow(m0, p0, m1, p1, m2, p2, d, lo, at, hi, lost);
  }

  // PGROUNDUP(size) / PGSIZE
  function RoundUp(size: nat): nat {
    (size + PGSIZE - 1) / PGSIZE
  }

  lemma {:induction false} RoundUpOrder(a: nat, b: nat)
    requires a < b <= UPAGES * PGSIZE
    ensures RoundUp(a) <= RoundUp(b) <= UPAGES
  {
  }

  lemma {:induction false} BelowRoundUp(a: nat, size: nat)
    requires size <= UPAGES * PGSIZE
    ensures a * PGSIZE < size <==> a < RoundUp(size)
    ensures RoundUp(size) <= UPAGES
  {
  }

  function Min(a: nat, b: nat): nat {
    if a < b then a else b
  }

  lemma {:induction false} StartJumping(mem: Memory, d: nat, lo: nat)
    ensures Jumping(mem, d, lo, lo)
  {
  }

  lemma {:induction false} ShrunkFacts(m0: Memory, p0: seq<nat>, m1: Memory, p1: seq<nat>, d: nat, lo: nat, v: nat)
    requires Shrunk(m0, p0, m1, p1, d, lo, v)
    ensures TabsOk(m1, d, p1) && SpaceOk(m1, d, p1)
    ensures HasTable(m1, d, Dir(v)) == HasTable(m0, d, Dir(v)) && Table(m1, d, Dir(v)) == Table(m0, d, Dir(v))
  {
  }

  lemma {:induction false} UserPageIs(mem: Memory, d: nat, v: nat)
    ensures UserPage(mem, d, v) <==> v < UPAGES && Present(Pte(mem, d, v))
  {
  }

  lemma {:induction false} SkipPage(m0: Memory, p0: seq<nat>, m1: Memory, p1: seq<nat>, d: nat, lo: nat, v: nat)
    requires Shrunk(m0, p0, m1, p1, d, lo, v) && lo <= v && !Present(Pte(m1, d, v))
    ensures Shrunk(m0, p0, m1, p1, d, lo, v + 1)
  {
    hide Shrunk, Pte;
    SkipStep(m0, p0, m1, p1, d, lo, v, v + 1);
  }

  lemma {:induction false} SkipTable(m0: Memory, p0: seq<nat>, m1: Memory, p1: seq<nat>, d: nat, lo: nat, v: nat, w: nat)
    requires Shrunk(m0, p0, m1, p1, d, lo, v) && lo <= v <= w <= v + ENTRIES && !HasTable(m1, d, Dir(v))
    requires forall u: nat :: v <= u < v + ENTRIES ==> Dir(u) == Dir(v) || Missed(m0, d, lo, u)
    ensures Shrunk(m0, p0, m1, p1, d, lo, w)
  {
    hide Shrunk, HasTable, Dir, Missed;
    SkipStep(m0, p0, m1, p1, d, lo, v, w);
  }

  lemma {:induction false} PageInHand(mem: Memory, d: nat, pool: seq<nat>, v: nat)
    requires SpaceOk(mem, d, pool) && UserPage(mem, d, v)
    ensures 0 < Page(mem, d, v) < |mem| && Page(mem, d, v) !in pool
    ensures HasTable(mem, d, Dir(v)) && Page(mem, d, v) != Table(mem, d, Dir(v))
  {
    assert IsTab(mem, d, Table(mem, d, Dir(v)));
  }

  lemma {:induction false} PteAt(mem: Memory, d: nat, v: nat, t: nat)
    requires HasTable(mem, d, Dir(v)) && t == Table(mem, d, Dir(v)) < |mem| && |mem[t]| == ENTRIES
    ensures Pte(mem, d, v) == mem[t][Idx(v)]
  {
  }

  lemma {:induction false} TableNotFree(mem: Memory, d: nat, pool: seq<nat>, i: nat)
    requires TabsOk(mem, d, pool) && HasTable(mem, d, i)
    ensures 0 < Table(mem, d, i) < |mem| && Table(mem, d, i) !in pool && IsTab(mem, d, Table(mem, d, i))
  {
  }

  lemma {:induction false} DirNotFree(mem: Memory, d: nat, pool: seq<nat>)
    requires TabsOk(mem, d, pool)
    ensures d < |mem| && d !in pool
  {
    assert IsTab(mem, d, d);
  }

  lemma {:induction false} KeptSelf(mem: Memory, pool: seq<nat>, d: nat)
    requires TabsOk(mem, d, pool)
    ensures Kept(mem, pool, mem, pool, d)
  {
  }
}
