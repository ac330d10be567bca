// What allocuvm, deallocuvm, copyuvm and freevm do to an address space, and what they undo.
module VmSpaces {
  import opened Vm
  import opened VmCount

  // ----- deallocuvm -----

  // deallocuvm steps over a missing table from the middle of it to the middle of the next one:
  // these are the pages at the start of a table which it never looks at.
  ghost predicate Missed(mem: Memory, d: nat, lo: nat, u: nat) {
    && Dir(lo) < Dir(u) && Idx(u) < Idx(lo)
    && forall i: nat :: Dir(lo) <= i < Dir(u) ==> !HasTable(mem, d, i)
  }

  // The user pages from lo up to hi are gone, their frames free, and nothing else changed.
  ghost predicate Shrunk(mem: Memory, pool: seq<nat>, mem': Memory, pool': seq<nat>, d: nat, lo: nat, hi: nat) {
    && SpaceOk(mem', d, pool') && |mem'| == |mem|
    && (forall i: nat :: Word(mem', d, i) == Word(mem, d, i))
    && (forall u: nat :: Pte(mem', d, u) ==
          if lo <= u < hi && UserPage(mem, d, u) && !Missed(mem, d, lo, u) then 0 else Pte(mem, d, u))
    && SameMine(mem, pool, mem', pool', d)
    && (forall f: nat :: f in pool ==> f in pool')
    && (forall f: nat :: f < |mem| && !IsTab(mem, d, f) && f !in pool' ==> mem'[f] == mem[f])
    && (forall f: nat :: IsTab(mem', d, f) <==> IsTab(mem, d, f))
  }

  lemma {:induction false} ShrunkNothing(mem: Memory, pool: seq<nat>, d: nat, lo: nat)
    requires SpaceOk(mem, d, pool)
    ensures Shrunk(mem, pool, mem, pool, d, lo, lo)
  {
    hide SpaceOk, Pte, IsTab, IsUser, UserPage, Missed;
  }

  // Page v is freed: its frame f gets the contents junk.
  lemma {:induction false} ShrinkStep(m0: Memory, p0: seq<nat>, m1: Memory, p1: seq<nat>, d: nat, lo: nat, v: nat, junk: Frame)
    requires Shrunk(m0, p0, m1, p1, d, lo, v) && lo <= v && UserPage(m1, d, v) && !Missed(m0, d, lo, v) && |junk| == ENTRIES
    ensures HasTable(m1, d, Dir(v)) && Table(m1, d, Dir(v)) < |m1| && Idx(v) < |m1[Table(m1, d, Dir(v))]|
    ensures InHand(SetWord(m1, Table(m1, d, Dir(v)), Idx(v), 0), d, p1, Page(m1, d, v))
    ensures Shrunk(m0, p0, SetWord(m1, Table(m1, d, Dir(v)), Idx(v), 0)[Page(m1, d, v) := junk], [Page(m1, d, v)] + p1, d, lo, v + 1)
  {
    hide SpaceOk, Pte, IsTab, IsUser, Missed, Table, HasTable, Word, SetWord;
    UserAfterUnmap(m1, d, p1, v);
    var r, f := SetWord(m1, Table(m1, d, Dir(v)), Idx(v), 0), Page(m1, d, v);
    WriteFrame(r, d, p1, f, junk);
    GiveFrame(r[f := junk], d, p1, f);
  }

  // Pages without an entry, or missed, are not touched.
  lemma {:induction false} SkipStep(m0: Memory, p0: seq<nat>, m1: Memory, p1: seq<nat>, d: nat, lo: nat, v: nat, w: nat)
    requires Shrunk(m0, p0, m1, p1, d, lo, v) && lo <= v <= w
    requires forall u: nat :: v <= u < w && UserPage(m1, d, u) ==> Missed(m0, d, lo, u)
    ensures Shrunk(m0, p0, m1, p1, d, lo, w)
  {
    hide SpaceOk, IsTab, IsUser, Missed, Table, HasTable, Word, Pte;
    forall u: nat | v <= u < w && UserPage(m0, d, u)
      ensures Missed(m0, d, lo, u)
    {
      assert UserPage(m1, d, u);
    }
  }

  // The loop is on its way through a table, or enters one at its start ...
  ghost predicate InStep(mem: Memory, d: nat, lo: nat, v: nat) {
    && (Idx(v) == 0 || HasTable(mem, d, Dir(v)))
    && forall u: nat :: v <= u ==> !Missed(mem, d, lo, u)
  }

  // ... or has met no table since it began.
  ghost predicate Jumping(mem: Memory, d: nat, lo: nat, v: nat) {
    Idx(v) == Idx(lo) && forall i: nat :: Dir(lo) <= i < Dir(v) ==> !HasTable(mem, d, i)
  }

  lemma {:induction false} NextPage(mem: Memory, d: nat, lo: nat, v: nat)
    requires lo <= v && (InStep(mem, d, lo, v) || Jumping(mem, d, lo, v)) && HasTable(mem, d, Dir(v))
    ensures InStep(mem, d, lo, v + 1) && !Missed(mem, d, lo, v)
  {
    hide HasTable;
  }

  // Over a missing table, to the same place in the next one.
  lemma {:induction false} NextTable(mem: Memory, d: nat, lo: nat, v: nat)
    requires lo <= v && (InStep(mem, d, lo, v) || Jumping(mem, d, lo, v)) && !HasTable(mem, d, Dir(v))
    ensures InStep(mem, d, lo, v + ENTRIES) || Jumping(mem, d, lo, v + ENTRIES)
    ensures forall u: nat :: v <= u < v + ENTRIES ==> Dir(u) == Dir(v) || Missed(mem, d, lo, u)
  {
    hide HasTable;
    assert Dir(v + ENTRIES) == Dir(v) + 1 && Idx(v + ENTRIES) == Idx(v);
  }

  // Exactly when no page is missed, deallocuvm leaves none in its range: it is enough that the
  // range begins at a table, or in one that is there.
  lemma {:induction false} ShrunkClears(mem: Memory, pool: seq<nat>, mem': Memory, pool': seq<nat>, d: nat, lo: nat, hi: nat)
    requires Shrunk(mem, pool, mem', pool', d, lo, hi)
    ensures (forall u: nat :: lo <= u < hi ==> !UserPage(mem', d, u))
       <==> (forall u: nat :: lo <= u < hi && UserPage(mem, d, u) ==> !Missed(mem, d, lo, u))
    ensures Idx(lo) == 0 || HasTable(mem, d, Dir(lo)) ==> forall u: nat :: !Missed(mem, d, lo, u)
  {
    hide SpaceOk, IsTab, IsUser, Word, Pte;
    if forall u: nat :: lo <= u < hi ==> !UserPage(mem', d, u) {
      forall u: nat | lo <= u < hi && UserPage(mem, d, u) ensures !Missed(mem, d, lo, u) {
        assert !UserPage(mem', d, u);
      }
    }
  }

  // The maps of processes have no holes: all pages below their size are mapped. There
  // deallocuvm clears its whole range.
  lemma {:induction false} WholeMapClears(mem: Memory, pool: seq<nat>, mem': Memory, pool': seq<nat>, d: nat, lo: nat, hi: nat)
    requires Shrunk(mem, pool, mem', pool', d, lo, hi) && forall u: nat :: u < hi ==> UserPage(mem, d, u)
    ensures forall u: nat :: u < hi ==> (UserPage(mem', d, u) <==> u < lo)
  {
    hide SpaceOk, IsTab, IsUser, Word, Pte;
    ShrunkClears(mem, pool, mem', pool', d, lo, hi);
    if lo < hi {
      MappedHasTable(mem, d, lo);
    }
    forall u: nat | u < lo && u < hi ensures UserPage(mem', d, u) {
      assert UserPage(mem, d, u);
    }
  }

  // ----- freevm -----

  // Every frame of the space is free, and no other frame was written.
  ghost predicate Freed(mem: Memory, pool: seq<nat>, mem': Memory, pool': seq<nat>, d: nat) {
    && |mem'| == |mem|
    && (forall f: nat :: f in pool' <==> Mine(mem, d, pool, f))
    && (forall f: nat :: f < |mem| && !Mine(mem, d, pool, f) ==> mem'[f] == mem[f])
  }

  // After deallocuvm of everything, the tables before directory entry k are free, too.
  ghost predicate HalfFreed(m1: Memory, p1: seq<nat>, mem: Memory, pool: seq<nat>, d: nat, k: nat) {
    && |mem| == |m1| && d < |m1| && mem[d] == m1[d] && d !in pool && Frames(mem)
    && (forall f: nat :: f in pool <==> f in p1 || exists i: nat :: i < k && HasTable(m1, d, i) && Table(m1, d, i) == f)
    && (forall f: nat :: f < |m1| && f !in pool ==> mem[f] == m1[f])
  }

  lemma {:induction false} HalfFreedStart(m1: Memory, p1: seq<nat>, d: nat)
    requires TabsOk(m1, d, p1)
    ensures HalfFreed(m1, p1, m1, p1, d, 0)
  {
    assert IsTab(m1, d, d);
  }

  lemma {:induction false} HalfFreedStep(m1: Memory, p1: seq<nat>, mem: Memory, pool: seq<nat>, d: nat, k: nat, junk: Frame)
    requires TabsOk(m1, d, p1) && HalfFreed(m1, p1, mem, pool, d, k) && |junk| == ENTRIES
    ensures !HasTable(m1, d, k) ==> HalfFreed(m1, p1, mem, pool, d, k + 1)
    ensures HasTable(m1, d, k) ==>
              && 0 < Table(m1, d, k) < |mem| && Table(m1, d, k) !in pool
              && HalfFreed(m1, p1, mem[Table(m1, d, k) := junk], [Table(m1, d, k)] + pool, d, k + 1)
  {
    hide Table, HasTable;
    if HasTable(m1, d, k) {
      var t := Table(m1, d, k);
      assert IsTab(m1, d, t);
      assert forall i: nat :: i < k && HasTable(m1, d, i) ==> Table(m1, d, i) != t;
      var pool' := [t] + pool;
      forall f: nat
        ensures f in pool' <==> f in p1 || exists i: nat :: i < k + 1 && HasTable(m1, d, i) && Table(m1, d, i) == f
      {
        if f in pool && f !in p1 {
          var i: nat :| i < k && HasTable(m1, d, i) && Table(m1, d, i) == f;
          assert i < k + 1 && HasTable(m1, d, i);
        }
        assert k < k + 1 && HasTable(m1, d, k);
      }
    }
  }

  // Finally the directory itself.
  lemma {:induction false} AllFreed(
    m0: Memory, p0: seq<nat>, m1: Memory, p1: seq<nat>, m2: Memory, p2: seq<nat>, d: nat, junk: Frame)
    requires SpaceOk(m0, d, p0) && Shrunk(m0, p0, m1, p1, d, 0, UPAGES) && HalfFreed(m1, p1, m2, p2, d, ENTRIES)
    ensures Freed(m0, p0, m2[d := junk], [d] + p2, d)
  {
    hide Table, HasTable, Pte, Missed, Word, Frames;
    ShrunkClears(m0, p0, m1, p1, d, 0, UPAGES);
    forall u: nat ensures !UserPage(m1, d, u) {
      if UserPage(m1, d, u) {
        UserPageBelow(m1, d, u);
      }
    }
    var pool := [d] + p2;
    forall f: nat ensures f in pool <==> Mine(m0, d, p0, f) {
      assert Mine(m1, d, p1, f) <==> Mine(m0, d, p0, f);
      if IsTab(m1, d, f) && f != d {
        var i: nat :| HasTable(m1, d, i) && Table(m1, d, i) == f;
        TableBelow(m1, d, i);
      }
      if f in p2 && f !in p1 {
        var i: nat :| i < ENTRIES && HasTable(m1, d, i) && Table(m1, d, i) == f;
        assert IsTab(m1, d, f);
      }
      assert IsTab(m1, d, d);
    }
    forall f: nat | f < |m0| && !Mine(m0, d, p0, f) ensures m2[d := junk][f] == m0[f] {
      assert f !in pool && f !in p1;
      assert IsTab(m1, d, f) <==> IsTab(m0, d, f);
    }
  }

  lemma {:induction false} TableBelow(mem: Memory, d: nat, i: nat)
    requires HasTable(mem, d, i)
    ensures i < ENTRIES
  {
  }

  // ----- allocuvm -----

  // The pages from lo up to hi are mapped to cleared frames from the pool. The frames lost are
  // those of pages that could not be mapped.
  ghost predicate Grew(mem: Memory, pool: seq<nat>, mem': Memory, pool': seq<nat>, d: nat, lo: nat, hi: nat, lost: set<nat>) {
    && SpaceOk(mem', d, pool') && |mem'| == |mem|
    && (forall i: nat :: HasTable(mem, d, i) ==> HasTable(mem', d, i) && Table(mem', d, i) == Table(mem, d, i))
    && (forall u: nat :: !(lo <= u < hi) ==> Pte(mem', d, u) == Pte(mem, d, u))
    && (forall u: nat :: lo <= u < hi ==>
          && UserPage(mem', d, u) && FlagsOf(Pte(mem', d, u)) == 7 // PTE_P | PTE_W | PTE_U
          && Page(mem', d, u) in pool && Page(mem', d, u) < |mem'| && mem'[Page(mem', d, u)] == Zeros())
    && (forall f: nat :: Mine(mem, d, pool, f) <==> Mine(mem', d, pool', f) || f in lost)
    && (forall f: nat :: f in lost ==> !Mine(mem', d, pool', f))
    && (forall f: nat :: f in pool' ==> f in pool)
    && (forall f: nat :: IsTab(mem', d, f) ==> IsTab(mem, d, f) || f in pool)
    && (forall f: nat :: f < |mem| && !IsTab(mem, d, f) && f !in pool ==> mem'[f] == mem[f])
  }

  lemma {:induction false} GrewNothing(mem: Memory, pool: seq<nat>, d: nat, lo: nat)
    requires SpaceOk(mem, d, pool)
    ensures Grew(mem, pool, mem, pool, d, lo, lo, {})
  {
    hide SpaceOk, Pte, IsTab, IsUser, UserPage, HasTable, Table;
  }

  // A free frame is cleared and mapped at v, or lost when mappages has no memory for a table.
  lemma {:induction false} GrowStep(
    m0: Memory, p0: seq<nat>, m1: Memory, p1: seq<nat>, m2: Memory, p2: seq<nat>, d: nat, lo: nat, v: nat, k: nat)
    requires Grew(m0, p0, m1, p1, d, lo, v, {}) && lo <= v < UPAGES && p1 != [] && !UserPage(m1, d, v) && k <= 1
    requires p1[0] < |m1| && MapsRange(m1[p1[0] := Zeros()], p1[1..], m2, p2, d, v, k, p1[0], 6)
    ensures Grew(m0, p0, m2, p2, d, lo, v + k, if k == 1 then {} else {p1[0]})
  {
    hide SpaceOk, Pte, IsTab, IsUser, HasTable, Table, Word, Pack, Kept, Zeros;
    var f := p1[0];
    TakeFrame(m1, d, p1);
    NotTable(m1, d, p1, f);
    WriteFrame(m1, d, p1[1..], f, Zeros());
    var m := m1[f := Zeros()];
    assert !UserPage(m, d, v);
    assert InHand(m, d, p1[1..], f);
    assert p1 == [f] + p1[1..];
    if k == 1 {
      UserAfterUserMap(m, p1[1..], m2, p2, d, v, f, 6);
      MapsFacts(m, p1[1..], m2, p2, d, v, k, f, 6);
    } else {
      UserAfterNoMap(m, p1[1..], m2, p2, d, v, f, 6);
      MapsFacts(m, p1[1..], m2, p2, d, v, k, f, 6);
    }
    assert Pte(m2, d, v) == if k == 1 then Pack(f, 6) else Pte(m1, d, v);
    GrowPages(m0, p0, m1, p1, m, m2, p2, d, lo, v, k);
    forall g: nat ensures Mine(m0, d, p0, g) <==> Mine(m2, d, p2, g) || (k == 0 && g == f) {
      assert Mine(m1, d, p1, g) <==> Mine(m1, d, p1[1..], g) || g == f;
      assert Mine(m, d, p1[1..], g) <==> Mine(m1, d, p1[1..], g);
    }
    forall u: nat | !(lo <= u < v + k) ensures Pte(m2, d, u) == Pte(m0, d, u) {
      assert Pte(m, d, u) == Pte(m1, d, u);
    }
    forall i: nat | HasTable(m0, d, i) ensures HasTable(m2, d, i) && Table(m2, d, i) == Table(m0, d, i) {
      TableFollows(m1, m, d, i);
    }
    forall g: nat | IsTab(m2, d, g) ensures IsTab(m0, d, g) || g in p0 {
      assert IsTab(m, d, g) <==> IsTab(m1, d, g);
    }
    forall g: nat | g < |m0| && !IsTab(m0, d, g) && g !in p0 ensures m2[g] == m0[g] {
      assert IsTab(m, d, g) <==> IsTab(m1, d, g);
      assert m2[g] == m[g];
    }
  }

  lemma {:induction false} TableFollows(mem: Memory, mem': Memory, d: nat, i: nat)
    requires Word(mem', d, i) == Word(mem, d, i)
    ensures HasTable(mem', d, i) == HasTable(mem, d, i) && Table(mem', d, i) == Table(mem, d, i)
  {
  }

  lemma {:induction false} NotTable(mem: Memory, d: nat, pool: seq<nat>, f: nat)
    requires SpaceOk(mem, d, pool) && f in pool
    ensures !IsTab(mem, d, f)
  {
  }

  lemma {:induction false} UserAfterNoMap(mem: Memory, pool: seq<nat>, mem': Memory, pool': seq<nat>, d: nat, v: nat, f: nat, perm: nat)
    requires SpaceOk(mem, d, pool) && MapsRange(mem, pool, mem', pool', d, v, 0, f, perm)
    ensures SpaceOk(mem', d, pool') && SameMine(mem, pool, mem', pool', d)
  {
    hide Pte, IsTab, Table, HasTable, TabsOk;
    UserKept(mem, pool, mem', pool', d);
    forall g: nat ensures Mine(mem', d, pool', g) <==> Mine(mem, d, pool, g) {
      UserSame(mem, mem', d, g);
      if IsTab(mem, d, g) { KeptIsTab(mem, pool, mem', pool', d, g); }
    }
  }

  lemma {:induction false} MapsFacts(mem: Memory, pool: seq<nat>, mem': Memory, pool': seq<nat>, d: nat, v: nat, k: nat, f: nat, perm: nat)
    requires MapsRange(mem, pool, mem', pool', d, v, k, f, perm)
    ensures |mem'| == |mem|
    ensures forall i: nat :: HasTable(mem, d, i) ==> HasTable(mem', d, i) && Table(mem', d, i) == Table(mem, d, i)
    ensures forall g: nat :: g in pool' ==> g in pool
    ensures forall g: nat :: IsTab(mem', d, g) ==> IsTab(mem, d, g) || g in pool
    ensures forall g: nat :: g < |mem| && !IsTab(mem, d, g) && g !in pool ==> mem'[g] == mem[g]
  {
    hide Pte, Table, HasTable, TabsOk;
    forall g: nat | IsTab(mem', d, g) ensures IsTab(mem, d, g) || g in pool {
      assert g in pool <==> g in pool' || (IsTab(mem', d, g) && !IsTab(mem, d, g));
    }
  }

  // The pages mapped before keep their entries and their contents.
  lemma {:induction false} GrowPages(
    m0: Memory, p0: seq<nat>, m1: Memory, p1: seq<nat>, m: Memory, m2: Memory, p2: seq<nat>, d: nat, lo: nat, v: nat, k: nat)
    requires Grew(m0, p0, m1, p1, d, lo, v, {}) && lo <= v < UPAGES && p1 != [] && k <= 1
    requires p1[0] < |m1| && m == m1[p1[0] := Zeros()] && MapsRange(m, p1[1..], m2, p2, d, v, k, p1[0], 6)
    requires forall u: nat :: Pte(m, d, u) == Pte(m1, d, u)
    requires forall g: nat :: IsTab(m, d, g) <==> IsTab(m1, d, g)
    requires SpaceOk(m1, d, p1) && !IsTab(m1, d, p1[0])
    ensures forall u: nat :: lo <= u < v + k ==>
              && UserPage(m2, d, u) && FlagsOf(Pte(m2, d, u)) == 7
              && Page(m2, d, u) in p0 && Page(m2, d, u) < |m2| && m2[Page(m2, d, u)] == Zeros()
  {
    hide Pte, IsTab, IsUser, HasTable, Table, Word, Kept, Zeros, Mine, TabsOk, TablesOk, PoolOk, Pack;
    MapsFacts(m, p1[1..], m2, p2, d, v, k, p1[0], 6);
    forall u: nat | lo <= u < v + k
      ensures && UserPage(m2, d, u) && FlagsOf(Pte(m2, d, u)) == 7
              && Page(m2, d, u) in p0 && Page(m2, d, u) < |m2| && m2[Page(m2, d, u)] == Zeros()
    {
      if u < v {
        assert UserPage(m1, d, u);
        var g := Page(m1, d, u);
        assert g !in p1 && !IsTab(m1, d, g);
        assert p1 == [p1[0]] + p1[1..];
        assert m2[g] == m[g] == m1[g];
      } else {
        assert Pte(m2, d, u) == Pack(p1[0], 6);
        assert p1[0] in p1 && p1[0] !in p1[1..] by { HeadOnce(m1, p1, d); }
        assert m2[p1[0]] == m[p1[0]];
      }
    }
  }

  lemma {:induction false} HeadOnce(mem: Memory, pool: seq<nat>, d: nat)
    requires SpaceOk(mem, d, pool) && pool != []
    ensures pool[0] !in pool[1..]
  {
  }

  // ----- What deallocuvm undoes -----

  ghost predicate SameUserMap(mem: Memory, mem': Memory, d: nat) {
    forall u: nat ::
      && (UserPage(mem', d, u) <==> UserPage(mem, d, u))
      && (UserPage(mem, d, u) ==> Pte(mem', d, u) == Pte(mem, d, u))
  }

  // deallocuvm after allocuvm, even one that stopped in the middle (at page `at`), restores the
  // user's map and contents, and gives all frames back except those of new tables.
  lemma {:induction false} ShrinkUndoesGrow(
    m0: Memory, p0: seq<nat>, m1: Memory, p1: seq<nat>, m2: Memory, p2: seq<nat>, d: nat, lo: nat, at: nat, hi: nat, lost: set<nat>)
    requires SpaceOk(m0, d, p0) && Grew(m0, p0, m1, p1, d, lo, at, lost) && Shrunk(m1, p1, m2, p2, d, lo, hi)
    requires lo <= at <= hi && forall u: nat :: lo <= u < hi ==> !UserPage(m0, d, u)
    ensures Undone(m0, p0, m2, p2, d, lost)
  {
    hide Pte, IsTab, HasTable, Table, Word, Zeros, TabsOk, Missed;
    ShrunkClears(m1, p1, m2, p2, d, lo, hi);
    if lo < at {
      MappedHasTable(m1, d, lo);
    }
    assert SameUserMap(m0, m2, d);
    forall f: nat ensures IsUser(m2, d, f) <==> IsUser(m0, d, f) {
      if IsUser(m2, d, f) {
        var u: nat :| UserPage(m2, d, u) && Page(m2, d, u) == f;
        assert UserPage(m0, d, u) && Page(m0, d, u) == f;
      }
      if IsUser(m0, d, f) {
        var u: nat :| UserPage(m0, d, u) && Page(m0, d, u) == f;
        assert UserPage(m2, d, u) && Page(m2, d, u) == f;
      }
    }
    forall u: nat | UserPage(m0, d, u)
      ensures Page(m0, d, u) < |m0| && m2[Page(m0, d, u)] == m0[Page(m0, d, u)]
    {
      var f := Page(m0, d, u);
      assert UserPage(m1, d, u) && Page(m1, d, u) == f;
      assert UserPage(m2, d, u) && Page(m2, d, u) == f;
      assert f !in p0 && !IsTab(m0, d, f) && !IsTab(m1, d, f) && f !in p2;
    }
    forall f: nat
      ensures f in p2 <==> f in p0 && f !in lost && (IsTab(m0, d, f) || !IsTab(m2, d, f))
      ensures f in lost ==> f in p0
      ensures f < |m0| && !IsTab(m0, d, f) && f !in p0 ==> m2[f] == m0[f]
    {
      assert IsTab(m0, d, f) ==> IsTab(m1, d, f) by { if IsTab(m0, d, f) { GrewKeepsTab(m0, p0, m1, p1, d, lo, at, lost, f); } }
      assert IsTab(m1, d, f) <==> IsTab(m2, d, f);
      assert Mine(m2, d, p2, f) <==> Mine(m1, d, p1, f);
      assert Mine(m0, d, p0, f) <==> Mine(m1, d, p1, f) || f in lost;
      if f in p2 { NotTable(m2, d, p2, f); NotUserFree(m2, d, p2, f); }
      if f in p0 { NotTable(m0, d, p0, f); NotUserFree(m0, d, p0, f); }
    }
  }

  // What a failed allocuvm leaves: the user's map and contents as before, and in the pool exactly
  // the frames that were there, save those lost and those of new tables.
  ghost predicate Undone(mem: Memory, pool: seq<nat>, mem': Memory, pool': seq<nat>, d: nat, lost: set<nat>) {
    && SpaceOk(mem', d, pool') && |mem'| == |mem| && SameUserMap(mem, mem', d)
    && (forall u: nat :: UserPage(mem, d, u) ==> Page(mem, d, u) < |mem| && mem'[Page(mem, d, u)] == mem[Page(mem, d, u)])
    && (forall f: nat :: f in pool' <==> f in pool && f !in lost && (IsTab(mem, d, f) || !IsTab(mem', d, f)))
    && (forall f: nat :: f in lost ==> f in pool)
    && (forall f: nat :: f < |mem| && !IsTab(mem, d, f) && f !in pool ==> mem'[f] == mem[f])
  }

  lemma {:induction false} NotUserFree(mem: Memory, d: nat, pool: seq<nat>, f: nat)
    requires SpaceOk(mem, d, pool) && f in pool
    ensures !IsUser(mem, d, f)
  {
    PoolNotUser(mem, d, pool, f);
  }

  lemma {:induction false} GrewKeepsTab(m0: Memory, p0: seq<nat>, m1: Memory, p1: seq<nat>, d: nat, lo: nat, hi: nat, lost: set<nat>, f: nat)
    requires Grew(m0, p0, m1, p1, d, lo, hi, lost) && IsTab(m0, d, f)
    ensures IsTab(m1, d, f)
  {
    hide Pte, HasTable, Table, SpaceOk, UserPage, Page, Mine;
    if f != d {
      var i: nat :| HasTable(m0, d, i) && Table(m0, d, i) == f;
      assert HasTable(m1, d, i);
    }
  }

  lemma {:induction false} MappedHasTable(mem: Memory, d: nat, v: nat)
    requires UserPage(mem, d, v)
    ensures HasTable(mem, d, Dir(v))
  {
  }

  // ----- setupkvm -----

  datatype Kmap = Kmap(virt: nat, start: nat, end: nat, perm: nat)

  const KERNBASE: nat := 0x8000_0000
  const KERNLINK: nat := 0x8010_0000
  const EXTMEM: nat := 0x10_0000
  const PHYSTOP: nat := 0xE00_0000
  const DEVSPACE: nat := 0xFE00_0000

  // data is the address where the linker put the kernel's data: past its text, on a page.
  predicate IsData(data: nat) {
    KERNLINK < data < KERNBASE + PHYSTOP && data % PGSIZE == 0
  }

  // kmap
  function KernelMap(data: nat): (r: seq<Kmap>)
    requires IsData(data)
    ensures |r| == 4
  {
    [ Kmap(KERNBASE, 0, EXTMEM, 2),
      Kmap(KERNLINK, KERNLINK - KERNBASE, data - KERNBASE, 0),
      Kmap(data, data - KERNBASE, PHYSTOP, 2),
      Kmap(DEVSPACE, DEVSPACE, 0, 2) ]
  }

  // phys_end - phys_start, of 32 bits
  function SizeOf(m: Kmap): nat {
    (m.end - m.start) % 0x1_0000_0000
  }

  function FirstPage(m: Kmap): nat {
    m.virt / PGSIZE
  }

  function PagesOf(m: Kmap): nat {
    SizeOf(m) / PGSIZE
  }

  lemma {:induction false} KernelMapOk(data: nat, k: nat)
    requires IsData(data) && k < 4
    ensures var m := KernelMap(data)[k];
            && SizeOf(m) > 0 && m.virt + SizeOf(m) <= NPAGES * PGSIZE && m.start % PGSIZE == 0 && m.perm < PGSIZE
            && UPAGES <= FirstPage(m) && (m.virt + SizeOf(m) - 1) / PGSIZE + 1 == FirstPage(m) + PagesOf(m)
            && (k > 0 ==> FirstPage(KernelMap(data)[k - 1]) + PagesOf(KernelMap(data)[k - 1]) <= FirstPage(m))
  {
  }

  // The entry of page u after the first k lines of the table.
  function KernelPte(data: nat, k: nat, u: nat): nat
    requires IsData(data) && k <= 4
  {
    if k == 0 then 0
    else
      var m := KernelMap(data)[k - 1];
      if FirstPage(m) <= u < FirstPage(m) + PagesOf(m) && m.perm < PGSIZE
      then Pack(m.start / PGSIZE + (u - FirstPage(m)), m.perm)
      else KernelPte(data, k - 1, u)
  }

  // The kernel's part of every space, page by page: the first megabyte and, from data on, the
  // physical memory up to PHYSTOP writable, the text read-only, the devices at their own
  // addresses, and nothing else.
  function KernelEntry(data: nat, u: nat): nat
    requires IsData(data)
  {
    if 0x8_0000 <= u < 0x8_0100 then (u - 0x8_0000) * 4096 + 3 // PTE_P | PTE_W
    else if 0x8_0100 <= u < data / 4096 then (u - 0x8_0000) * 4096 + 1 // PTE_P
    else if data / 4096 <= u < 0x8_E000 then (u - 0x8_0000) * 4096 + 3
    else if 0xF_E000 <= u < 0x10_0000 then u * 4096 + 3
    else 0
  }

  lemma {:induction false} KernelPteIs(data: nat, u: nat)
    requires IsData(data)
    ensures KernelPte(data, 4, u) == KernelEntry(data, u)
  {
    var ms := KernelMap(data);
    assert data / PGSIZE > 0x8_0100 && data % PGSIZE == 0;
    assert FirstPage(ms[0]) == 0x8_0000 && PagesOf(ms[0]) == 0x100;
    assert FirstPage(ms[1]) == 0x8_0100 && PagesOf(ms[1]) == data / PGSIZE - 0x8_0100;
    assert FirstPage(ms[2]) == data / PGSIZE && PagesOf(ms[2]) == 0x8_E000 - data / PGSIZE;
    assert FirstPage(ms[3]) == 0xF_E000 && PagesOf(ms[3]) == 0x2000;
    hide FirstPage, PagesOf, Pack;
    assert forall k :: 0 <= k < 4 ==> ms[k].perm < PGSIZE;
    if 0x8_0000 <= u < 0x8_E000 {
      PackIs(u - 0x8_0000, 2);
      PackIs(u - 0x8_0000, 0);
    } else if 0xF_E000 <= u < 0x10_0000 {
      PackIs(u, 2);
    }
    KernelLines(data, u);
  }

  // The four lines, the last one first.
  lemma {:induction false} KernelLines(data: nat, u: nat)
    requires IsData(data)
    ensures var ms := KernelMap(data);
            KernelPte(data, 4, u) ==
              if InLine(ms[3], u) then Pack(ms[3].start / PGSIZE + (u - FirstPage(ms[3])), 2)
              else if InLine(ms[2], u) then Pack(ms[2].start / PGSIZE + (u - FirstPage(ms[2])), 2)
              else if InLine(ms[1], u) then Pack(ms[1].start / PGSIZE + (u - FirstPage(ms[1])), 0)
              else if InLine(ms[0], u) then Pack(ms[0].start / PGSIZE + (u - FirstPage(ms[0])), 2)
              else 0
  {
    hide FirstPage, PagesOf, Pack;
    assert KernelPte(data, 0, u) == 0;
    var p1, p2, p3 := KernelPte(data, 1, u), KernelPte(data, 2, u), KernelPte(data, 3, u);
  }

  predicate InLine(m: Kmap, u: nat) {
    FirstPage(m) <= u < FirstPage(m) + PagesOf(m)
  }

  // The lines do not overlap, so no page is mapped twice.
  lemma {:induction false} KernelPteAbove(data: nat, k: nat, u: nat)
    requires IsData(data) && k <= 4
    requires u < UPAGES || (0 < k && u >= FirstPage(KernelMap(data)[k - 1]) + PagesOf(KernelMap(data)[k - 1]))
    ensures KernelPte(data, k, u) == 0
  {
    if k > 0 {
      KernelMapOk(data, k - 1);
      if k > 1 || u < UPAGES {
        KernelPteAbove(data, k - 1, u);
      }
    }
  }

  // A directory made from the frames of the pool p0 alone.
  ghost predicate FromPool(m0: Memory, p0: seq<nat>, mem: Memory, pool: seq<nat>, d: nat) {
    && SpaceOk(mem, d, pool) && |mem| == |m0|
    && (forall f: nat :: Mine(mem, d, pool, f) <==> f in p0)
    && (forall f: nat :: f < |m0| && f !in p0 ==> mem[f] == m0[f])
  }

  ghost predicate HasKernel(mem: Memory, d: nat, data: nat, k: nat)
    requires IsData(data) && k <= 4
  {
    forall u: nat :: Pte(mem, d, u) == KernelPte(data, k, u)
  }

  lemma {:induction false} EmptyDirectory(m0: Memory, p0: seq<nat>, data: nat)
    requires Frames(m0) && PoolOk(m0, p0) && p0 != [] && IsData(data)
    ensures 0 < p0[0] < |m0|
    ensures FromPool(m0, p0, m0[p0[0] := Zeros()], p0[1..], p0[0])
    ensures HasKernel(m0[p0[0] := Zeros()], p0[0], data, 0)
  {
    hide Pack, FrameOf, Dir, Idx;
    var d := p0[0];
    var mem := m0[d := Zeros()];
    forall i: nat ensures Word(mem, d, i) == 0 && !HasTable(mem, d, i) {}
    forall u: nat ensures Pte(mem, d, u) == 0 && !UserPage(mem, d, u) {}
    forall f: nat ensures !IsUser(mem, d, f) {}
    assert p0 == [d] + p0[1..];
  }

  lemma {:induction false} KernelStep(
    m0: Memory, p0: seq<nat>, m1: Memory, p1: seq<nat>, m2: Memory, p2: seq<nat>, d: nat, data: nat, k: nat, n: nat)
    requires IsData(data) && k < 4 && FromPool(m0, p0, m1, p1, d) && HasKernel(m1, d, data, k)
    requires var m := KernelMap(data)[k]; MapsRange(m1, p1, m2, p2, d, FirstPage(m), n, m.start / PGSIZE, m.perm)
    ensures FromPool(m0, p0, m2, p2, d)
    ensures n == PagesOf(KernelMap(data)[k]) ==> HasKernel(m2, d, data, k + 1)
  {
    hide Pack, Pte, IsTab, IsUser, SpaceOk, HasTable, Table, Word, Kept, KernelMap, IsData, FirstPage, SizeOf, PagesOf;
    var m := KernelMap(data)[k];
    KernelMapOk(data, k);
    UserAfterKernelMap(m1, p1, m2, p2, d, FirstPage(m), n, m.start / PGSIZE, m.perm);
    MapsFacts(m1, p1, m2, p2, d, FirstPage(m), n, m.start / PGSIZE, m.perm);
    forall f: nat | f < |m0| && f !in p0 ensures m2[f] == m0[f] {
      assert !Mine(m1, d, p1, f);
    }
    if n == PagesOf(m) {
      forall u: nat ensures Pte(m2, d, u) == KernelPte(data, k + 1, u) {
        assert Pte(m1, d, u) == KernelPte(data, k, u);
      }
    }
  }

  // ----- Two small memories -----

  // A memory of n cleared frames, none of them free but those of the pool.
  function Cleared(n: nat): (r: Memory)
    ensures |r| == n && Frames(r) && forall f :: 0 <= f < n ==> r[f] == Zeros()
  {
    seq(n, _ => Zeros())
  }

  // An empty directory on frame 1.
  lemma {:induction false} EmptySpace(n: nat, rest: seq<nat>)
    requires n > 1 && PoolOk(Cleared(n), [1] + rest)
    ensures SpaceOk(Cleared(n), 1, rest)
    ensures forall v: nat :: Pte(Cleared(n), 1, v) == 0
    ensures forall i: nat :: !HasTable(Cleared(n), 1, i)
  {
    var data := KERNLINK + PGSIZE;
    EmptyDirectory(Cleared(n), [1] + rest, data);
    assert ([1] + rest)[1..] == rest;
    assert Cleared(n)[1 := Zeros()] == Cleared(n);
    forall v: nat ensures Pte(Cleared(n), 1, v) == 0 {
      assert Pte(Cleared(n), 1, v) == KernelPte(data, 0, v);
    }
    forall i: nat ensures !HasTable(Cleared(n), 1, i) {}
  }

  // With one free frame, allocuvm of the first page of an empty space loses it.
  lemma {:induction false} OneFrameIsLost()
    ensures SpaceOk(Cleared(3), 1, [2]) && forall u: nat :: !UserPage(Cleared(3), 1, u)
    ensures LosesAt(Cleared(3), 1, 0, 0, 1) && 1 < Need(Cleared(3), 1, 0, 1)
  {
    EmptySpace(3, [2]);
    NeedGrows(Cleared(3), 1, 0, 0, 1);
    forall u: nat ensures !UserPage(Cleared(3), 1, u) {}
  }

  // With page 1024 mapped and no table for the pages before it, deallocuvm from page 1 on, as
  // far as it may go, leaves page 1024 mapped.
  lemma {:induction false} MissedPage() returns (mem: Memory)
    ensures SpaceOk(mem, 1, []) && UserPage(mem, 1, 1024)
    ensures forall mem': Memory, pool': seq<nat>, hi: nat ::
              Shrunk(mem, [], mem', pool', 1, 1, hi) ==> UserPage(mem', 1, 1024)
  {
    hide SpaceOk, Pte, IsTab, IsUser, Table, Word, Pack, Kept, TabsOk, Zeros;
    var m0: Memory := Cleared(4);
    EmptySpace(4, [3, 2]);
    TakeFrame(m0, 1, [3, 2]);
    assert [3, 2][1..] == [2];
    SpaceTabs(m0, 1, [2]);
    AddTable(m0, 1, [2], 1);
    assert [2][1..] == [];
    var m1 := SetWord(m0[2 := Zeros()], 1, 1, Pack(2, 7));
    assert Dir(1024) == 1 && Idx(1024) == 0;
    MapsNone(m0, [2], 1, 1024, 3, 6);
    MapsOneMore(m0, [2], m0, [2], m1, [], 1, 1024, 0, 3, 6);
    KeptOk(m0, [2], m1, [], 1);
    SetPte(m1, 1, [], 1024, Pack(3, 6));
    mem := SetWord(m1, Table(m1, 1, 1), 0, Pack(3, 6));
    assert !UserPage(m0, 1, 1024);
    UserAfterUserMap(m0, [2], mem, [], 1, 1024, 3, 6);
    assert UserPage(mem, 1, 1024);
    TableFollows(m1, mem, 1, 0);
    assert Missed(mem, 1, 1, 1024);
    forall mem': Memory, pool': seq<nat>, hi: nat | Shrunk(mem, [], mem', pool', 1, 1, hi)
      ensures UserPage(mem', 1, 1024)
    {
      assert Pte(mem', 1, 1024) == Pte(mem, 1, 1024);
    }
  }

  lemma {:induction false} SpaceTabs(mem: Memory, d: nat, pool: seq<nat>)
    requires SpaceOk(mem, d, pool)
    ensures TabsOk(mem, d, pool)
  {
  }

  // ----- The frames that setupkvm takes -----

  // The directory entries of the first k lines: 56 tables for KERNBASE to PHYSTOP, 8 for the
  // devices.
  predicate KernelTab(data: nat, k: nat, i: nat)
    requires IsData(data) && k <= 4
  {
    || (0 < k && 512 <= i <= LastDir(data, if k < 3 then k - 1 else 2))
    || (k == 4 && 1016 <= i < ENTRIES)
  }

  // The directory entry of the last page of line k.
  function LastDir(data: nat, k: nat): nat
    requires IsData(data) && k < 4
  {
    var m := KernelMap(data)[k];
    if FirstPage(m) + PagesOf(m) == 0 then 0 else Dir(FirstPage(m) + PagesOf(m) - 1)
  }

  const KERNELTABS: nat := 64
  const KERNELFRAMES: nat := 65 // and the directory

  function TabCount(data: nat, k: nat): nat
    requires IsData(data) && k <= 4
  {
    if k == 0 then 0
    else if k == 4 then KERNELTABS
    else if LastDir(data, k - 1) >= 512 then LastDir(data, k - 1) - 511 else 0
  }

  lemma {:induction false} LastDirs(data: nat)
    requires IsData(data)
    ensures LastDir(data, 0) == 512 <= LastDir(data, 1) <= LastDir(data, 2) == 567
    ensures Dir(FirstPage(KernelMap(data)[0])) == 512 && Dir(FirstPage(KernelMap(data)[3])) == 1016
    ensures LastDir(data, 3) == 1023 && LastDir(data, 0) == Dir(FirstPage(KernelMap(data)[1]))
    ensures LastDir(data, 1) <= Dir(FirstPage(KernelMap(data)[2])) <= LastDir(data, 1) + 1
    ensures forall k :: 0 <= k < 4 ==> PagesOf(KernelMap(data)[k]) > 0
    ensures KernelMap(data)[2].virt == data
  {
    assert FirstPage(KernelMap(data)[1]) + PagesOf(KernelMap(data)[1]) == data / PGSIZE;
    assert Dir(data / PGSIZE) == Dir(data / PGSIZE - 1) || Dir(data / PGSIZE) == Dir(data / PGSIZE - 1) + 1;
    assert FirstPage(KernelMap(data)[2]) + PagesOf(KernelMap(data)[2]) == 0x8_E000;
  }

  lemma {:induction false} TabCounts(data: nat, k: nat)
    requires IsData(data) && k < 4
    ensures TabCount(data, k) <= TabCount(data, k + 1) <= KERNELTABS
  {
    hide LastDir;
    LastDirs(data);
  }

  // Line k of kmap needs exactly the tables that the lines before it have not added.
  lemma {:induction false} KernelLineTabs(mem: Memory, mem': Memory, d: nat, data: nat, k: nat)
    requires IsData(data) && k < 4 && forall i: nat :: HasTable(mem, d, i) <==> KernelTab(data, k, i)
    ensures var m := KernelMap(data)[k]; var lo, hi := FirstPage(m), FirstPage(m) + PagesOf(m);
            && NewTabs(mem, d, lo, hi) == TabCount(data, k + 1) - TabCount(data, k)
            && (Tabled(mem, mem', d, lo, hi) ==> forall i: nat :: HasTable(mem', d, i) <==> KernelTab(data, k + 1, i))
  {
    hide HasTable, Dir, KernelMap, FirstPage, PagesOf, IsData, NewTabs;
    var m := KernelMap(data)[k];
    var lo, hi := FirstPage(m), FirstPage(m) + PagesOf(m);
    LastDirs(data);
    assert Dir(hi - 1) == LastDir(data, k);
    NewTabsFresh(mem, d, lo, hi);
  }

  // A line that was not finished took more frames than there were.
  lemma {:induction false} KernelLineShort(mem: Memory, d: nat, data: nat, k: nat, n: nat)
    requires IsData(data) && k < 4 && forall i: nat :: HasTable(mem, d, i) <==> KernelTab(data, k, i)
    requires n < PagesOf(KernelMap(data)[k])
    requires NewTab(mem, d, FirstPage(KernelMap(data)[k]), FirstPage(KernelMap(data)[k]) + n)
    ensures NewTabs(mem, d, FirstPage(KernelMap(data)[k]), FirstPage(KernelMap(data)[k]) + n)
          < TabCount(data, k + 1) - TabCount(data, k)
  {
    hide HasTable, NewTab, NewTabs, KernelMap, FirstPage, PagesOf, IsData, KernelTab, TabCount;
    var lo, hi := FirstPage(KernelMap(data)[k]), FirstPage(KernelMap(data)[k]) + PagesOf(KernelMap(data)[k]);
    KernelLineTabs(mem, mem, d, data, k);
    NewTabsGrow(mem, d, lo, lo + n, hi);
  }

  // ----- copyuvm -----

  // Pages 0 to k of the parent p have been copied to the child d: the same flags and contents,
  // on frames of the pool, while no frame outside the pool has been written.
  ghost predicate Copied(m0: Memory, p0: seq<nat>, mem: Memory, pool: seq<nat>, p: nat, d: nat, data: nat, k: nat)
    requires IsData(data)
  {
    && FromPool(m0, p0, mem, pool, d)
    && (forall u: nat :: u < UPAGES ==> (UserPage(mem, d, u) <==> u < k))
    && (forall u: nat :: u < k ==>
          && FlagsOf(Pte(mem, d, u)) == FlagsOf(Pte(m0, p, u))
          && Page(mem, d, u) in p0 && Page(mem, d, u) < |mem| && Page(m0, p, u) < |m0|
          && mem[Page(mem, d, u)] == m0[Page(m0, p, u)])
    && (forall u: nat :: UPAGES <= u ==> Pte(mem, d, u) == KernelPte(data, 4, u))
  }

  lemma {:induction false} CopiedNothing(m0: Memory, p0: seq<nat>, mem: Memory, pool: seq<nat>, p: nat, d: nat, data: nat)
    requires IsData(data) && FromPool(m0, p0, mem, pool, d) && HasKernel(mem, d, data, 4)
    ensures Copied(m0, p0, mem, pool, p, d, data, 0)
  {
    hide FromPool, Pte, KernelMap, IsData;
    forall u: nat | u < UPAGES ensures !UserPage(mem, d, u) {
      KernelPteAbove(data, 4, u);
      assert Pte(mem, d, u) == 0;
    }
  }

  // Nothing that happens to the child changes the parent.
  lemma {:induction false} ParentKept(m0: Memory, p0: seq<nat>, mem: Memory, pool: seq<nat>, p: nat)
    requires SpaceOk(m0, p, p0) && |mem| == |m0| && Frames(mem) && PoolOk(mem, pool)
    requires forall f: nat :: f in pool ==> f in p0
    requires forall f: nat :: f < |m0| && f !in p0 ==> mem[f] == m0[f]
    ensures SpaceOk(mem, p, pool)
    ensures forall u: nat :: Pte(mem, p, u) == Pte(m0, p, u)
    ensures forall u: nat :: UserPage(m0, p, u) ==> Page(m0, p, u) < |m0| && mem[Page(m0, p, u)] == m0[Page(m0, p, u)]
  {
    hide Pte, IsTab, HasTable, Table, Word;
    SameTables(m0, mem, p);
    forall u: nat ensures UserPage(mem, p, u) == UserPage(m0, p, u) && Page(mem, p, u) == Page(m0, p, u) {}
  }

  lemma {:induction false} CopyStep(
    m0: Memory, p0: seq<nat>, m1: Memory, p1: seq<nat>, m2: Memory, p2: seq<nat>, p: nat, d: nat, data: nat, v: nat, n: nat)
    requires IsData(data) && SpaceOk(m0, p, p0) && Copied(m0, p0, m1, p1, p, d, data, v) && v < UPAGES && UserPage(m0, p, v)
    requires p1 != [] && p1[0] < |m1| && n <= 1 && Page(m0, p, v) < |m0| && |m0[Page(m0, p, v)]| == ENTRIES
    requires MapsRange(m1[p1[0] := m0[Page(m0, p, v)]], p1[1..], m2, p2, d, v, n, p1[0], FlagsOf(Pte(m0, p, v)))
    ensures n == 1 ==> Copied(m0, p0, m2, p2, p, d, data, v + 1)
    ensures SpaceOk(m2, d, p2) && |m2| == |m0|
    ensures forall f: nat :: Mine(m2, d, p2, f) <==> f in p0 && (n == 1 || f != p1[0])
    ensures forall f: nat :: f < |m0| && f !in p0 ==> m2[f] == m0[f]
  {
    hide SpaceOk, Pte, IsTab, IsUser, HasTable, Table, Word, Pack, Kept, KernelPte, IsData;
    var f, content, flags := p1[0], m0[Page(m0, p, v)], FlagsOf(Pte(m0, p, v));
    TakeFrame(m1, d, p1);
    NotTable(m1, d, p1, f);
    WriteFrame(m1, d, p1[1..], f, content);
    var m := m1[f := content];
    assert !UserPage(m1, d, v);
    assert !UserPage(m, d, v);
    assert p1 == [f] + p1[1..];
    MapsFacts(m, p1[1..], m2, p2, d, v, n, f, flags);
    if n == 1 {
      UserAfterUserMap(m, p1[1..], m2, p2, d, v, f, flags);
    } else {
      UserAfterNoMap(m, p1[1..], m2, p2, d, v, f, flags);
    }
    forall g: nat
      ensures Mine(m2, d, p2, g) <==> g in p0 && (n == 1 || g != f)
      ensures g < |m0| && g !in p0 ==> m2[g] == m0[g]
    {
      assert Mine(m1, d, p1, g) <==> g in p0;
      assert Mine(m1, d, p1, g) <==> Mine(m1, d, p1[1..], g) || g == f;
      assert Mine(m, d, p1[1..], g) <==> Mine(m1, d, p1[1..], g);
    }
    if n == 1 {
      CopyPages(m0, p0, m1, p1, m, m2, p2, p, d, data, v);
    }
  }

  lemma {:induction false} CopyPages(
    m0: Memory, p0: seq<nat>, m1: Memory, p1: seq<nat>, m: Memory, m2: Memory, p2: seq<nat>, p: nat, d: nat, data: nat, v: nat)
    requires IsData(data) && Copied(m0, p0, m1, p1, p, d, data, v) && v < UPAGES && UserPage(m0, p, v)
    requires p1 != [] && p1[0] < |m1| && Page(m0, p, v) < |m0| && m == m1[p1[0] := m0[Page(m0, p, v)]]
    requires MapsRange(m, p1[1..], m2, p2, d, v, 1, p1[0], FlagsOf(Pte(m0, p, v)))
    requires forall u: nat :: Pte(m, d, u) == Pte(m1, d, u)
    requires forall g: nat :: IsTab(m, d, g) <==> IsTab(m1, d, g)
    requires !IsTab(m1, d, p1[0])
    ensures forall u: nat :: u < UPAGES ==> (UserPage(m2, d, u) <==> u < v + 1)
    ensures forall u: nat :: u < v + 1 ==>
              && FlagsOf(Pte(m2, d, u)) == FlagsOf(Pte(m0, p, u))
              && Page(m2, d, u) in p0 && Page(m2, d, u) < |m2| && Page(m0, p, u) < |m0|
              && m2[Page(m2, d, u)] == m0[Page(m0, p, u)]
    ensures forall u: nat :: UPAGES <= u ==> Pte(m2, d, u) == KernelPte(data, 4, u)
  {
    hide Pte, IsTab, IsUser, HasTable, Table, Word, Kept, TablesOk, PoolOk, Pack, KernelPte, IsData;
    var f, flags := p1[0], FlagsOf(Pte(m0, p, v));
    MapsFacts(m, p1[1..], m2, p2, d, v, 1, f, flags);
    HeadOnce(m1, p1, d);
    assert flags % 2 == 1 by { PresentFlags(Pte(m0, p, v)); }
    assert p1 == [f] + p1[1..];
    assert Mine(m1, d, p1, f);
    forall u: nat | u < UPAGES ensures UserPage(m2, d, u) <==> u < v + 1 {
      assert UserPage(m1, d, u) <==> u < v;
      assert Pte(m2, d, u) == if u == v then Pack(f, flags) else Pte(m, d, u);
    }
    forall u: nat | UPAGES <= u ensures Pte(m2, d, u) == KernelPte(data, 4, u) {
      assert Pte(m2, d, u) == Pte(m, d, u) == Pte(m1, d, u);
    }
    forall u: nat | u < v + 1
      ensures FlagsOf(Pte(m2, d, u)) == FlagsOf(Pte(m0, p, u))
              && Page(m2, d, u) in p0 && Page(m2, d, u) < |m2| && Page(m0, p, u) < |m0|
              && m2[Page(m2, d, u)] == m0[Page(m0, p, u)]
    {
      if u < v {
        assert UserPage(m1, d, u);
        var g := Page(m1, d, u);
        assert g !in p1 && !IsTab(m1, d, g);
        assert m2[g] == m[g] == m1[g];
      } else {
        assert Pte(m2, d, u) == Pack(f, flags);
        assert m2[f] == m[f];
      }
    }
  }

  lemma {:induction false} PresentFlags(w: nat)
    requires Present(w)
    ensures FlagsOf(w) % 2 == 1 && FlagsOf(w) < PGSIZE
  {
  }

  // ----- The frames that copyuvm takes -----

  // A directory and the kernel's tables, n pages, and a table for each 1024 of them.
  function CopyNeed(n: nat): nat {
    KERNELFRAMES + n + (n + ENTRIES - 1) / ENTRIES
  }

  // With that many free frames, the one taken for page i is the last, and its table is missing.
  predicate CopyLosesAt(i: nat, free: nat) {
    Idx(i) == 0 && free == CopyNeed(i) + 1
  }

  lemma {:induction false} CopyNeedGrows(i: nat, n: nat)
    requires i < n
    ensures CopyNeed(n) >= CopyNeed(i + 1) == CopyNeed(i) + if Idx(i) == 0 then 2 else 1
  {
  }

  // What the number of free frames decides when the copy has come to page i of n.
  lemma {:induction false} CopyDecides(i: nat, n: nat, free: nat, lost: bool)
    requires i <= n && if i == n then free >= CopyNeed(n) && !lost
                       else if lost then CopyLosesAt(i, free) else free == CopyNeed(i)
    ensures i == n <==> free >= CopyNeed(n)
    ensures lost <==> exists j: nat :: j < n && CopyLosesAt(j, free)
  {
    hide CopyNeed, Idx;
    if i < n {
      CopyNeedGrows(i, n);
    }
    forall j: nat | j < n && CopyLosesAt(j, free) ensures lost {
      CopyNeedGrows(j, n);
      if j < i {
        CopyNeedGrows(j, i);
      } else if i < j {
        CopyNeedGrows(i, j);
      }
    }
  }

  // The child's first n pages needed a table for each 1024, since setupkvm made none of these.
  lemma {:induction false} ChildTabs(mem: Memory, d: nat, data: nat, n: nat)
    requires IsData(data) && n <= UPAGES && forall i: nat :: HasTable(mem, d, i) <==> KernelTab(data, 4, i)
    ensures CopyNeed(n) == KERNELFRAMES + n + NewTabs(mem, d, 0, n)
    ensures NewTab(mem, d, 0, n) ==> Idx(n) == 0
  {
    hide HasTable, KernelMap, LastDir, IsData;
    if n > 0 {
      forall i: nat | i <= Dir(n - 1) ensures !HasTable(mem, d, i) {}
      NewTabsFresh(mem, d, 0, n);
      assert Dir(n - 1) + 1 == (n + ENTRIES - 1) / ENTRIES;
    }
  }

  // fork and exit: copyuvm takes the child's frames from the pool; freevm returns exactly those,
  // after the child has run (m to m3) on frames that are its own or free; and the parent's map
  // and contents are untouched.
  lemma {:induction false} FreeUndoesCopy(
    m0: Memory, p0: seq<nat>, m1: Memory, p1: seq<nat>, m2: Memory, p2: seq<nat>, m3: Memory, p3: seq<nat>,
    p: nat, d: nat, data: nat, n: nat)
    requires IsData(data) && SpaceOk(m0, p, p0) && Copied(m0, p0, m1, p1, p, d, data, n)
    requires |m2| == |m1| && SameMine(m1, p1, m2, p2, d)
    requires forall f: nat :: f < |m1| && !Mine(m1, d, p1, f) ==> m2[f] == m1[f]
    requires Freed(m2, p2, m3, p3, d) && Frames(m3) && PoolOk(m3, p3)
    ensures multiset(p3) == multiset(p0)
    ensures SpaceOk(m3, p, p3) && forall u: nat :: Pte(m3, p, u) == Pte(m0, p, u)
    ensures forall u: nat :: UserPage(m0, p, u) ==> Page(m0, p, u) < |m0| && m3[Page(m0, p, u)] == m0[Page(m0, p, u)]
    ensures forall u: nat :: UserPage(m1, d, u) ==> Page(m1, d, u) in p0 && Page(m1, d, u) in p3
  {
    hide Pte, IsTab, HasTable, Table, Word, KernelPte;
    forall f: nat ensures (f in p3 <==> f in p0) && (f < |m0| && f !in p0 ==> m3[f] == m0[f]) {
      assert Mine(m1, d, p1, f) <==> f in p0;
      assert Mine(m2, d, p2, f) <==> Mine(m1, d, p1, f);
    }
    SameContents(p0, p3);
    ParentKept(m0, p0, m3, p3, p);
    forall u: nat | UserPage(m1, d, u) ensures Page(m1, d, u) in p0 && Page(m1, d, u) in p3 {
      assert IsUser(m1, d, Page(m1, d, u));
      assert Mine(m1, d, p1, Page(m1, d, u));
    }
  }

  // Lists without repetition that hold the same elements are the same up to their order.
  lemma {:induction false} SameContents(a: seq<nat>, b: seq<nat>)
    requires forall j, k :: 0 <= j < k < |a| ==> a[j] != a[k]
    requires forall j, k :: 0 <= j < k < |b| ==> b[j] != b[k]
    requires forall x: nat :: x in a <==> x in b
    ensures multiset(a) == multiset(b)
  {
    forall x: nat ensures multiset(a)[x] == multiset(b)[x] {
      OnceIn(a, x);
      OnceIn(b, x);
    }
  }

  lemma {:induction false} OnceIn(a: seq<nat>, x: nat)
    requires forall j, k :: 0 <= j < k < |a| ==> a[j] != a[k]
    ensures multiset(a)[x] == if x in a then 1 else 0
  {
    if a != [] {
      var init := a[..|a| - 1];
      assert a == init + [a[|a| - 1]];
      OnceIn(init, x);
    }
  }
}
