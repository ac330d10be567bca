// How many frames mappages, allocuvm, setupkvm and copyuvm take for tables.
module VmCount {
  import opened Vm

  // Mapping the pages from lo on, page v is the first one in a table that is missing.
  predicate NewTab(mem: Memory, d: nat, lo: nat, v: nat) {
    !HasTable(mem, d, Dir(v)) && (v == lo || Idx(v) == 0)
  }

  // The tables that the pages from lo up to a need and that are missing.
  function NewTabs(mem: Memory, d: nat, lo: nat, a: nat): nat {
    if a <= lo then 0 else NewTabs(mem, d, lo, a - 1) + if NewTab(mem, d, lo, a - 1) then 1 else 0
  }

  // Since m0, the tables of the pages from lo up to a have been added, and no others.
  ghost predicate Tabled(m0: Memory, m: Memory, d: nat, lo: nat, a: nat) {
    forall i: nat :: HasTable(m, d, i) <==> HasTable(m0, d, i) || (lo < a && Dir(lo) <= i <= Dir(a - 1))
  }

  lemma {:induction false} TabledNone(m: Memory, d: nat, lo: nat)
    ensures Tabled(m, m, d, lo, lo)
  {
  }

  // Whether page v finds its table is known from the start.
  lemma {:induction false} TabledAt(m0: Memory, m: Memory, d: nat, lo: nat, v: nat)
    requires Tabled(m0, m, d, lo, v) && lo <= v
    ensures HasTable(m, d, Dir(v)) <==> !NewTab(m0, d, lo, v)
  {
    hide HasTable;
    if lo < v {
      assert Dir(v) <= Dir(v - 1) <==> Idx(v) != 0;
    }
  }

  lemma {:induction false} PresentHasTable(mem: Memory, d: nat, v: nat)
    ensures Present(Pte(mem, d, v)) ==> HasTable(mem, d, Dir(v))
  {
  }

  lemma {:induction false} TabledSame(m0: Memory, m1: Memory, m2: Memory, d: nat, lo: nat, v: nat)
    requires Tabled(m0, m1, d, lo, v) && forall i: nat :: HasTable(m2, d, i) <==> HasTable(m1, d, i)
    ensures Tabled(m0, m2, d, lo, v)
  {
    hide HasTable;
  }

  lemma {:induction false} TabledWords(m0: Memory, m1: Memory, m2: Memory, d: nat, lo: nat, v: nat)
    requires forall i: nat :: Word(m2, d, i) == Word(m1, d, i)
    ensures Tabled(m0, m1, d, lo, v) ==> Tabled(m0, m2, d, lo, v)
  {
    forall i: nat ensures HasTable(m2, d, i) == HasTable(m1, d, i) {}
    hide HasTable;
  }

  // The walk to page v adds its table; writing the entry adds none.
  lemma {:induction false} TabledStep(m0: Memory, m1: Memory, m2: Memory, m3: Memory, d: nat, lo: nat, v: nat)
    requires Tabled(m0, m1, d, lo, v) && lo <= v
    requires forall i: nat :: HasTable(m2, d, i) <==> HasTable(m1, d, i) || i == Dir(v)
    requires forall i: nat :: Word(m3, d, i) == Word(m2, d, i)
    ensures Tabled(m0, m3, d, lo, v + 1)
  {
    forall i: nat ensures HasTable(m3, d, i) == HasTable(m2, d, i) {}
    hide HasTable;
    if lo < v {
      assert Dir(v) == Dir(v - 1) || Dir(v) == Dir(v - 1) + 1;
    }
  }

  // ----- allocuvm -----

  // The frames that the pages from lo up to a take, tables included.
  function Need(mem: Memory, d: nat, lo: nat, a: nat): nat
    requires lo <= a
  {
    a - lo + NewTabs(mem, d, lo, a)
  }

  // With n free frames the one taken for page a is the last, and none is left for its table.
  predicate LosesAt(mem: Memory, d: nat, lo: nat, a: nat, n: nat) {
    lo <= a && NewTab(mem, d, lo, a) && n == Need(mem, d, lo, a) + 1
  }

  // allocuvm stops at page a: its frame is lost, or there is none for it.
  predicate StopsAt(mem: Memory, d: nat, lo: nat, a: nat, n: nat, clean: bool) {
    lo <= a && if clean then n == Need(mem, d, lo, a) else LosesAt(mem, d, lo, a, n)
  }

  lemma {:induction false} NeedNothing(mem: Memory, d: nat, lo: nat)
    ensures Need(mem, d, lo, lo) == 0
  {
  }

  lemma {:induction false} NeedGrows(mem: Memory, d: nat, lo: nat, a: nat, b: nat)
    requires lo <= a < b
    ensures Need(mem, d, lo, b) >= Need(mem, d, lo, a + 1) == Need(mem, d, lo, a) + if NewTab(mem, d, lo, a) then 2 else 1
    decreases b - a
  {
    hide NewTab;
    if a + 1 < b {
      NeedGrows(mem, d, lo, a, b - 1);
    }
  }

  // What the number of free frames decides: whether all pages from lo up to hi are mapped, and
  // whether a frame is lost.
  lemma {:induction false} NeedDecides(mem: Memory, d: nat, lo: nat, at: nat, hi: nat, n: nat, lost: bool)
    requires lo <= at <= hi
    requires if at == hi then n >= Need(mem, d, lo, hi) && !lost
             else if lost then LosesAt(mem, d, lo, at, n) else n == Need(mem, d, lo, at)
    ensures at == hi <==> n >= Need(mem, d, lo, hi)
    ensures lost <==> exists a: nat :: a < hi && LosesAt(mem, d, lo, a, n)
  {
    hide NewTab;
    if at < hi {
      NeedGrows(mem, d, lo, at, hi);
    }
    forall a: nat | a < hi && LosesAt(mem, d, lo, a, n) ensures lost {
      NeedGrows(mem, d, lo, a, hi);
      if a < at {
        NeedGrows(mem, d, lo, a, at);
      } else if at < a {
        NeedGrows(mem, d, lo, at, a);
      }
    }
  }

  // Page a, mapped (k == 1) or not (k == 0) in a memory with the tables that it has by now.
  lemma {:induction false} TabledExtend(m0: Memory, m: Memory, m2: Memory, d: nat, lo: nat, a: nat, k: nat)
    requires Tabled(m0, m, d, lo, a) && Tabled(m, m2, d, a, a + k) && lo <= a && k <= 1
    ensures Tabled(m0, m2, d, lo, a + k)
    ensures NewTab(m, d, a, a) <==> NewTab(m0, d, lo, a)
    ensures NewTabs(m, d, a, a + k) == NewTabs(m0, d, lo, a + k) - NewTabs(m0, d, lo, a)
  {
    TabledAt(m0, m, d, lo, a);
    hide HasTable;
    if lo < a {
      assert Dir(a) == Dir(a - 1) || Dir(a) == Dir(a - 1) + 1;
    }
    assert NewTabs(m, d, a, a) == 0;
  }

  // ----- Runs of missing tables -----

  // Where no table is there past the first one, every further one is needed.
  lemma {:induction false} NewTabsFresh(mem: Memory, d: nat, lo: nat, a: nat)
    requires lo < a && forall i: nat :: Dir(lo) < i <= Dir(a - 1) ==> !HasTable(mem, d, i)
    ensures NewTabs(mem, d, lo, a) == Dir(a - 1) - Dir(lo) + if HasTable(mem, d, Dir(lo)) then 0 else 1
  {
    hide HasTable;
    if lo + 1 < a {
      NewTabsFresh(mem, d, lo, a - 1);
      assert Dir(a - 1) == Dir(a - 2) + if Idx(a - 1) == 0 then 1 else 0;
    } else {
      assert NewTabs(mem, d, lo, lo) == 0;
    }
  }

  lemma {:induction false} NewTabsGrow(mem: Memory, d: nat, lo: nat, a: nat, b: nat)
    requires lo <= a < b
    ensures NewTabs(mem, d, lo, b) >= NewTabs(mem, d, lo, a) + if NewTab(mem, d, lo, a) then 1 else 0
    decreases b - a
  {
    hide NewTab;
    if a + 1 < b {
      NewTabsGrow(mem, d, lo, a, b - 1);
    }
  }
}
