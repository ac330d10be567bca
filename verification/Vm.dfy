// Two-level page tables in a memory of frames (vm.c), and the flat map that they stand for.
module Vm {
  const ENTRIES: nat := 1024 // words in a frame, entries in a table
  const PGSIZE: nat := 4096
  const NPAGES: nat := 0x10_0000
  const UPAGES: nat := 0x8_0000 // KERNBASE / PGSIZE

  // Words of 32 bits. Frame 0 stands for the null pointer.
  type Frame = seq<nat>
  type Memory = seq<Frame>

  // ----- Entries -----

  // PTE_P is bit 0.
  predicate Present(w: nat) {
    w % 2 == 1
  }

  // PTE_ADDR, as a frame number, and PTE_FLAGS.
  function FrameOf(w: nat): nat {
    w / PGSIZE
  }

  function FlagsOf(w: nat): nat {
    w % PGSIZE
  }

  // pa | perm | PTE_P, for the aligned address pa of a frame.
  function Pack(f: nat, perm: nat): (r: nat)
    requires perm < PGSIZE
    ensures Present(r) && FrameOf(r) == f && FlagsOf(r) == if perm % 2 == 1 then perm else perm + 1
  {
    PackHasParts(f, if perm % 2 == 1 then perm else perm + 1);
    f * PGSIZE + if perm % 2 == 1 then perm else perm + 1
  }

  lemma {:induction false} PackHasParts(f: nat, flags: nat)
    requires flags < PGSIZE
    ensures (f * PGSIZE + flags) / PGSIZE == f && (f * PGSIZE + flags) % PGSIZE == flags
    ensures (f * PGSIZE + flags) % 2 == flags % 2
  {
    assert (f * PGSIZE + flags) - f * PGSIZE == flags;
    assert f * PGSIZE + flags == 2 * (f * 2048) + flags;
  }

  // The frame in the upper twenty bits, and PTE_P set.
  lemma {:induction false} PackIs(f: nat, perm: nat)
    requires perm < 4096
    ensures Pack(f, perm) == f * 4096 + if perm % 2 == 1 then perm else perm + 1
  {
  }

  // PDX and PTX of a page number.
  function Dir(v: nat): (r: nat)
    ensures v < NPAGES ==> r < ENTRIES
  {
    v / ENTRIES
  }

  function Idx(v: nat): (r: nat)
    ensures r < ENTRIES
  {
    v % ENTRIES
  }

  lemma {:induction false} SameSlot(u: nat, v: nat)
    requires Dir(u) == Dir(v) && Idx(u) == Idx(v)
    ensures u == v
  {
  }

  // ----- The table in memory -----

  function Word(mem: Memory, f: nat, i: nat): nat {
    if f < |mem| && i < |mem[f]| then mem[f][i] else 0
  }

  predicate HasTable(mem: Memory, d: nat, i: nat) {
    i < ENTRIES && Present(Word(mem, d, i))
  }

  function Table(mem: Memory, d: nat, i: nat): nat {
    FrameOf(Word(mem, d, i))
  }

  // The entry of page v, 0 when its table is missing.
  function Pte(mem: Memory, d: nat, v: nat): nat {
    if HasTable(mem, d, Dir(v)) then Word(mem, Table(mem, d, Dir(v)), Idx(v)) else 0
  }

  // What the processor finds for page v: the upper ten bits of the page number choose the word of
  // the directory, the lower ten that of the table; bit 0 of a word says that it is there, and
  // its upper twenty bits are the frame.
  lemma {:induction false} PteIs(mem: Memory, d: nat, v: nat)
    requires d < |mem| && |mem[d]| == 1024 && v < 0x10_0000
    ensures var pde := mem[d][v / 1024];
            if pde % 2 == 1 && pde / 4096 < |mem| && v % 1024 < |mem[pde / 4096]| then
              Pte(mem, d, v) == mem[pde / 4096][v % 1024]
            else Pte(mem, d, v) == 0
    ensures UserPage(mem, d, v) <==> v < 0x8_0000 && Pte(mem, d, v) % 2 == 1
    ensures Page(mem, d, v) == Pte(mem, d, v) / 4096
  {
  }

  predicate UserPage(mem: Memory, d: nat, v: nat) {
    v < UPAGES && Present(Pte(mem, d, v))
  }

  function Page(mem: Memory, d: nat, v: nat): nat {
    FrameOf(Pte(mem, d, v))
  }

  // The frames of the directory and its tables.
  ghost predicate IsTab(mem: Memory, d: nat, f: nat) {
    f == d || exists i: nat :: HasTable(mem, d, i) && Table(mem, d, i) == f
  }

  // The frames of the user's pages.
  ghost predicate IsUser(mem: Memory, d: nat, f: nat) {
    exists v: nat :: UserPage(mem, d, v) && Page(mem, d, v) == f
  }

  ghost predicate Frames(mem: Memory) {
    forall f :: 0 <= f < |mem| ==> |mem[f]| == ENTRIES
  }

  ghost predicate TablesOk(mem: Memory, d: nat) {
    && Frames(mem) && 0 < d < |mem|
    && (forall i: nat :: HasTable(mem, d, i) ==> 0 < Table(mem, d, i) < |mem| && Table(mem, d, i) != d)
    && (forall i: nat, j: nat :: HasTable(mem, d, i) && HasTable(mem, d, j) && Table(mem, d, i) == Table(mem, d, j) ==> i == j)
  }

  ghost predicate PoolOk(mem: Memory, pool: seq<nat>) {
    && (forall k :: 0 <= k < |pool| ==> 0 < pool[k] < |mem|)
    && (forall j, k :: 0 <= j < k < |pool| ==> pool[j] != pool[k])
  }

  ghost predicate TabsOk(mem: Memory, d: nat, pool: seq<nat>) {
    TablesOk(mem, d) && PoolOk(mem, pool) && forall f :: f in pool ==> !IsTab(mem, d, f)
  }

  // Every user page has a frame of its own, which is no table and not free.
  ghost predicate UserOk(mem: Memory, d: nat, pool: seq<nat>) {
    && (forall v: nat :: UserPage(mem, d, v) ==>
          && 0 < Page(mem, d, v) < |mem| && !IsTab(mem, d, Page(mem, d, v)) && Page(mem, d, v) !in pool)
    && (forall u: nat, v: nat ::
          UserPage(mem, d, u) && UserPage(mem, d, v) && Page(mem, d, u) == Page(mem, d, v) ==> u == v)
  }

  ghost predicate SpaceOk(mem: Memory, d: nat, pool: seq<nat>) {
    TabsOk(mem, d, pool) && UserOk(mem, d, pool)
  }

  // The frames that the space owns or the pool holds.
  ghost predicate Mine(mem: Memory, d: nat, pool: seq<nat>, f: nat) {
    f in pool || IsTab(mem, d, f) || IsUser(mem, d, f)
  }

  ghost predicate SameMine(mem: Memory, pool: seq<nat>, mem': Memory, pool': seq<nat>, d: nat) {
    forall f: nat :: Mine(mem', d, pool', f) <==> Mine(mem, d, pool, f)
  }

  // ----- What a change of the tables may do -----

  // Tables are only added, from the pool; nothing but tables and free frames is written.
  ghost predicate Kept(mem: Memory, pool: seq<nat>, mem': Memory, pool': seq<nat>, d: nat) {
    && |mem'| == |mem| && TabsOk(mem', d, pool')
    && (forall i: nat :: HasTable(mem, d, i) ==> HasTable(mem', d, i) && Table(mem', d, i) == Table(mem, d, i))
    && (forall f: nat :: f in pool <==> f in pool' || (IsTab(mem', d, f) && !IsTab(mem, d, f)))
    && (forall f: nat :: f < |mem| && !IsTab(mem, d, f) && f !in pool ==> mem'[f] == mem[f])
  }

  lemma {:induction false} KeptIsTab(mem: Memory, pool: seq<nat>, mem': Memory, pool': seq<nat>, d: nat, f: nat)
    requires Kept(mem, pool, mem', pool', d) && IsTab(mem, d, f)
    ensures IsTab(mem', d, f)
  {
    hide Table, Word;
    if f != d {
      var i: nat :| HasTable(mem, d, i) && Table(mem, d, i) == f;
      assert HasTable(mem', d, i);
    }
  }

  lemma {:induction false} KeptTransitive(m0: Memory, p0: seq<nat>, m1: Memory, p1: seq<nat>, m2: Memory, p2: seq<nat>, d: nat)
    requires TabsOk(m0, d, p0) && Kept(m0, p0, m1, p1, d) && Kept(m1, p1, m2, p2, d)
    ensures Kept(m0, p0, m2, p2, d)
  {
    hide Table, Word, HasTable, IsTab, TablesOk, PoolOk;
    forall f: nat
      ensures IsTab(m0, d, f) ==> IsTab(m1, d, f)
      ensures IsTab(m1, d, f) ==> IsTab(m2, d, f)
    {
      if IsTab(m0, d, f) { KeptIsTab(m0, p0, m1, p1, d, f); }
      if IsTab(m1, d, f) { KeptIsTab(m1, p1, m2, p2, d, f); }
    }
  }

  lemma {:induction false} TabsFollow(mem: Memory, mem': Memory, d: nat, f: nat)
    requires IsTab(mem, d, f) && forall i: nat :: Word(mem, d, i) == Word(mem', d, i)
    ensures IsTab(mem', d, f)
  {
    if f != d {
      var i: nat :| HasTable(mem, d, i) && Table(mem, d, i) == f;
      assert HasTable(mem', d, i) && Table(mem', d, i) == f;
    }
  }

  lemma {:induction false} UsersFollow(mem: Memory, mem': Memory, d: nat, f: nat)
    requires IsUser(mem, d, f) && forall v: nat :: Pte(mem, d, v) == Pte(mem', d, v)
    ensures IsUser(mem', d, f)
  {
    hide Pte;
    var v: nat :| UserPage(mem, d, v) && Page(mem, d, v) == f;
    assert UserPage(mem', d, v) && Page(mem', d, v) == f;
  }

  // Memories that agree on the tables hold the same map.
  lemma {:induction false} SameTables(mem: Memory, mem': Memory, d: nat)
    requires TablesOk(mem, d) && |mem'| == |mem| && Frames(mem')
    requires forall f: nat :: f < |mem| && IsTab(mem, d, f) ==> mem'[f] == mem[f]
    ensures TablesOk(mem', d)
    ensures forall i: nat :: Word(mem', d, i) == Word(mem, d, i)
    ensures forall v: nat :: Pte(mem', d, v) == Pte(mem, d, v)
    ensures forall f: nat :: IsTab(mem', d, f) <==> IsTab(mem, d, f)
    ensures forall f: nat :: IsUser(mem', d, f) <==> IsUser(mem, d, f)
  {
    hide FrameOf, Present, Dir, Idx;
    assert IsTab(mem, d, d);
    forall i: nat ensures Word(mem', d, i) == Word(mem, d, i) {}
    forall i: nat ensures HasTable(mem', d, i) == HasTable(mem, d, i) && Table(mem', d, i) == Table(mem, d, i) {}
    forall v: nat ensures Pte(mem', d, v) == Pte(mem, d, v) {
      if HasTable(mem, d, Dir(v)) {
        assert IsTab(mem, d, Table(mem, d, Dir(v)));
      }
    }
    forall f: nat ensures IsTab(mem', d, f) <==> IsTab(mem, d, f) {
      if IsTab(mem, d, f) { TabsFollow(mem, mem', d, f); }
      if IsTab(mem', d, f) { TabsFollow(mem', mem, d, f); }
    }
    forall f: nat ensures IsUser(mem', d, f) <==> IsUser(mem, d, f) {
      if IsUser(mem, d, f) { UsersFollow(mem, mem', d, f); }
      if IsUser(mem', d, f) { UsersFollow(mem', mem, d, f); }
    }
  }

  function SetWord(mem: Memory, f: nat, i: nat, w: nat): (r: Memory)
    requires f < |mem| && i < |mem[f]|
    ensures |r| == |mem|
  {
    var frame: Frame := mem[f][i := w];
    mem[f := frame]
  }

  // Writing the entry of a page whose table is there.
  lemma {:induction false} SetPte(mem: Memory, d: nat, pool: seq<nat>, v: nat, w: nat)
    requires TabsOk(mem, d, pool) && v < NPAGES && HasTable(mem, d, Dir(v))
    ensures var t := Table(mem, d, Dir(v));
            && t < |mem| && Idx(v) < |mem[t]|
            && var r := SetWord(mem, t, Idx(v), w);
               && Kept(mem, pool, r, pool, d)
               && (forall u: nat :: Pte(r, d, u) == if u == v then w else Pte(mem, d, u))
               && (forall i: nat :: Word(r, d, i) == Word(mem, d, i))
               && (forall f: nat :: IsTab(r, d, f) <==> IsTab(mem, d, f))
  {
    hide FrameOf, Present, Dir, Idx;
    var t := Table(mem, d, Dir(v));
    var r := SetWord(mem, t, Idx(v), w);
    assert IsTab(mem, d, t);
    forall i: nat ensures Word(r, d, i) == Word(mem, d, i) {}
    forall i: nat ensures HasTable(r, d, i) == HasTable(mem, d, i) && Table(r, d, i) == Table(mem, d, i) {}
    forall f: nat ensures IsTab(r, d, f) <==> IsTab(mem, d, f) {
      if IsTab(mem, d, f) { TabsFollow(mem, r, d, f); }
      if IsTab(r, d, f) { TabsFollow(r, mem, d, f); }
    }
    forall u: nat ensures Pte(r, d, u) == if u == v then w else Pte(mem, d, u) {
      if u != v && Dir(u) == Dir(v) && Idx(u) == Idx(v) {
        SameSlot(u, v);
      }
    }
  }

  function Zeros(): (r: Frame)
    ensures |r| == ENTRIES && forall i :: 0 <= i < ENTRIES ==> r[i] == 0
  {
    seq(ENTRIES, _ => 0)
  }

  // A free frame, cleared, becomes the missing table of directory entry i.
  lemma {:induction false} AddTable(mem: Memory, d: nat, pool: seq<nat>, i: nat)
    requires TabsOk(mem, d, pool) && i < ENTRIES && !HasTable(mem, d, i) && pool != []
    ensures |mem[d]| == ENTRIES && pool[0] < |mem|
    ensures var r := SetWord(mem[pool[0] := Zeros()], d, i, Pack(pool[0], 7));
            && Kept(mem, pool, r, pool[1..], d)
            && HasTable(r, d, i) && Table(r, d, i) == pool[0]
            && (forall j: nat :: HasTable(r, d, j) <==> HasTable(mem, d, j) || j == i)
            && (forall u: nat :: Pte(r, d, u) == Pte(mem, d, u))
  {
    hide FrameOf, Present, Dir, Idx, Pack;
    var t := pool[0];
    var r := SetWord(mem[t := Zeros()], d, i, Pack(t, 7));
    assert !IsTab(mem, d, t);
    forall j: nat ensures Word(r, d, j) == if j == i then Pack(t, 7) else Word(mem, d, j) {}
    forall j: nat
      ensures HasTable(r, d, j) == (HasTable(mem, d, j) || j == i)
      ensures Table(r, d, j) == if j == i then t else Table(mem, d, j)
    {
    }
    forall j: nat | HasTable(mem, d, j) ensures Table(mem, d, j) != t {
      assert IsTab(mem, d, Table(mem, d, j));
    }
    forall u: nat ensures Pte(r, d, u) == Pte(mem, d, u) {
      if HasTable(mem, d, Dir(u)) {
        assert IsTab(mem, d, Table(mem, d, Dir(u)));
      }
    }
    forall f: nat ensures IsTab(r, d, f) <==> IsTab(mem, d, f) || f == t {
      if IsTab(mem, d, f) && f != d {
        var j: nat :| HasTable(mem, d, j) && Table(mem, d, j) == f;
        assert Word(r, d, j) == Word(mem, d, j);
        assert HasTable(r, d, j) && Table(r, d, j) == f;
      }
      if IsTab(r, d, f) && f != d && f != t {
        var j: nat :| HasTable(r, d, j) && Table(r, d, j) == f;
        assert j != i;
        assert HasTable(mem, d, j) && Table(mem, d, j) == f;
      }
      assert HasTable(r, d, i) && Table(r, d, i) == t;
    }
    assert pool == [t] + pool[1..];
  }

  // ----- mappages -----

  // k pages from page v on are mapped to consecutive frames from f on, and nothing else changed.
  ghost predicate MapsRange(
    mem: Memory, pool: seq<nat>, mem': Memory, pool': seq<nat>, d: nat, v: nat, k: nat, f: nat, perm: nat)
  {
    && perm < PGSIZE && Kept(mem, pool, mem', pool', d)
    && forall u: nat :: Pte(mem', d, u) == if v <= u < v + k then Pack(f + (u - v), perm) else Pte(mem, d, u)
  }

  lemma {:induction false} MapsNone(mem: Memory, pool: seq<nat>, d: nat, v: nat, f: nat, perm: nat)
    requires TabsOk(mem, d, pool) && perm < PGSIZE
    ensures MapsRange(mem, pool, mem, pool, d, v, 0, f, perm)
  {
  }

  // One more page, after a walk that may have added a table.
  lemma {:induction false} MapsOneMore(
    m0: Memory, p0: seq<nat>, m1: Memory, p1: seq<nat>, m2: Memory, p2: seq<nat>, d: nat, v: nat, k: nat, f: nat, perm: nat)
    requires TabsOk(m0, d, p0) && MapsRange(m0, p0, m1, p1, d, v, k, f, perm) && v + k < NPAGES
    requires Kept(m1, p1, m2, p2, d) && HasTable(m2, d, Dir(v + k))
    requires forall u: nat :: Pte(m2, d, u) == Pte(m1, d, u)
    ensures var t := Table(m2, d, Dir(v + k));
            && t < |m2| && Idx(v + k) < |m2[t]|
            && MapsRange(m0, p0, SetWord(m2, t, Idx(v + k), Pack(f + k, perm)), p2, d, v, k + 1, f, perm)
  {
    hide Pte, IsTab, Table, HasTable, Pack, Dir, Idx, TabsOk, Kept;
    var t := Table(m2, d, Dir(v + k));
    KeptOk(m1, p1, m2, p2, d);
    SetPte(m2, d, p2, v + k, Pack(f + k, perm));
    var m3 := SetWord(m2, t, Idx(v + k), Pack(f + k, perm));
    KeptTransitive(m0, p0, m1, p1, m2, p2, d);
    KeptTransitive(m0, p0, m2, p2, m3, p2, d);
  }

  lemma {:induction false} KeptOk(mem: Memory, pool: seq<nat>, mem': Memory, pool': seq<nat>, d: nat)
    requires Kept(mem, pool, mem', pool', d)
    ensures TabsOk(mem', d, pool') && |mem'| == |mem|
  {
  }

  // ----- Whole address spaces -----

  // What kernel mappings do to the user's part: nothing.
  lemma {:induction false} UserAfterKernelMap(mem: Memory, pool: seq<nat>, mem': Memory, pool': seq<nat>, d: nat, v: nat, k: nat, f: nat, perm: nat)
    requires SpaceOk(mem, d, pool) && MapsRange(mem, pool, mem', pool', d, v, k, f, perm) && v >= UPAGES
    ensures SpaceOk(mem', d, pool') && SameMine(mem, pool, mem', pool', d)
  {
    hide Pte, IsTab, Table, HasTable, Pack, TabsOk;
    forall u: nat ensures UserPage(mem', d, u) == UserPage(mem, d, u) && (u < UPAGES ==> Page(mem', d, u) == Page(mem, d, u)) {}
    UserKept(mem, pool, mem', pool', d);
    forall g: nat ensures Mine(mem', d, pool', g) <==> Mine(mem, d, pool, g) {
      UserSame(mem, mem', d, g);
      if IsTab(mem, d, g) { KeptIsTab(mem, pool, mem', pool', d, g); }
    }
  }

  lemma {:induction false} UserSame(mem: Memory, mem': Memory, d: nat, f: nat)
    requires forall u: nat :: UserPage(mem', d, u) == UserPage(mem, d, u) && (u < UPAGES ==> Page(mem', d, u) == Page(mem, d, u))
    ensures IsUser(mem', d, f) <==> IsUser(mem, d, f)
  {
    hide UserPage, Page;
    if IsUser(mem, d, f) {
      var u: nat :| UserPage(mem, d, u) && Page(mem, d, u) == f;
      UserPageBelow(mem, d, u);
      assert UserPage(mem', d, u);
    }
    if IsUser(mem', d, f) {
      var u: nat :| UserPage(mem', d, u) && Page(mem', d, u) == f;
      UserPageBelow(mem', d, u);
      assert UserPage(mem, d, u);
    }
  }

  lemma {:induction false} UserPageBelow(mem: Memory, d: nat, u: nat)
    requires UserPage(mem, d, u)
    ensures u < UPAGES
  {
  }

  // New tables come from the pool, so they do not hit a user page.
  lemma {:induction false} UserKept(mem: Memory, pool: seq<nat>, mem': Memory, pool': seq<nat>, d: nat)
    requires UserOk(mem, d, pool) && Kept(mem, pool, mem', pool', d)
    requires forall u: nat :: UserPage(mem', d, u) == UserPage(mem, d, u) && (u < UPAGES ==> Page(mem', d, u) == Page(mem, d, u))
    ensures UserOk(mem', d, pool')
  {
    hide UserPage, Page, IsTab, TabsOk, Table, HasTable;
    forall u: nat | UserPage(mem', d, u)
      ensures 0 < Page(mem', d, u) < |mem'| && !IsTab(mem', d, Page(mem', d, u)) && Page(mem', d, u) !in pool'
    {
      UserPageBelow(mem', d, u);
      assert UserPage(mem, d, u);
    }
    forall u: nat, v: nat | UserPage(mem', d, u) && UserPage(mem', d, v) && Page(mem', d, u) == Page(mem', d, v)
      ensures u == v
    {
      UserPageBelow(mem', d, u);
      UserPageBelow(mem', d, v);
    }
  }

  // A frame that nobody owns.
  ghost predicate InHand(mem: Memory, d: nat, pool: seq<nat>, f: nat) {
    0 < f < |mem| && !Mine(mem, d, pool, f)
  }

  // Mapping a user page to the frame in hand makes the frame part of the space.
  lemma {:induction false} UserAfterUserMap(mem: Memory, pool: seq<nat>, mem': Memory, pool': seq<nat>, d: nat, v: nat, f: nat, perm: nat)
    requires SpaceOk(mem, d, pool) && MapsRange(mem, pool, mem', pool', d, v, 1, f, perm) && v < UPAGES
    requires InHand(mem, d, pool, f) && !UserPage(mem, d, v)
    ensures SpaceOk(mem', d, pool')
    ensures forall g: nat :: Mine(mem', d, pool', g) <==> Mine(mem, d, pool, g) || g == f
    ensures mem'[f] == mem[f]
  {
    hide Pte, IsTab, Table, HasTable, Pack, TabsOk;
    assert Pte(mem', d, v) == Pack(f, perm);
    forall u: nat
      ensures UserPage(mem', d, u) == (UserPage(mem, d, u) || u == v)
      ensures u < UPAGES ==> Page(mem', d, u) == if u == v then f else Page(mem, d, u)
    {
    }
    forall u: nat | UserPage(mem, d, u) ensures Page(mem, d, u) != f {
      assert Page(mem, d, u) == f ==> IsUser(mem, d, f);
    }
    assert UserOk(mem', d, pool');
    forall g: nat ensures Mine(mem', d, pool', g) <==> Mine(mem, d, pool, g) || g == f {
      if IsTab(mem, d, g) { KeptIsTab(mem, pool, mem', pool', d, g); }
      UserAdded(mem, mem', d, v, f, g);
    }
  }

  lemma {:induction false} UserAdded(mem: Memory, mem': Memory, d: nat, v: nat, f: nat, g: nat)
    requires !UserPage(mem, d, v) && v < UPAGES
    requires forall u: nat :: UserPage(mem', d, u) == (UserPage(mem, d, u) || u == v)
    requires forall u: nat :: u < UPAGES ==> Page(mem', d, u) == if u == v then f else Page(mem, d, u)
    ensures IsUser(mem', d, g) <==> IsUser(mem, d, g) || g == f
  {
    hide UserPage, Page;
    if IsUser(mem, d, g) {
      var u: nat :| UserPage(mem, d, u) && Page(mem, d, u) == g;
      UserPageBelow(mem, d, u);
      assert UserPage(mem', d, u);
    }
    if IsUser(mem', d, g) {
      var u: nat :| UserPage(mem', d, u) && Page(mem', d, u) == g;
      UserPageBelow(mem', d, u);
      assert u == v || UserPage(mem, d, u);
    }
    assert UserPage(mem', d, v);
  }

  // Writing a frame that is no table, such as the one in hand.
  lemma {:induction false} WriteFrame(mem: Memory, d: nat, pool: seq<nat>, f: nat, data: Frame)
    requires SpaceOk(mem, d, pool) && f < |mem| && !IsTab(mem, d, f) && |data| == ENTRIES
    ensures SpaceOk(mem[f := data], d, pool)
    ensures forall i: nat :: Word(mem[f := data], d, i) == Word(mem, d, i)
    ensures forall v: nat :: Pte(mem[f := data], d, v) == Pte(mem, d, v)
    ensures forall g: nat :: Mine(mem[f := data], d, pool, g) <==> Mine(mem, d, pool, g)
    ensures forall g: nat :: IsTab(mem[f := data], d, g) <==> IsTab(mem, d, g)
  {
    hide IsTab, IsUser, Word, Pte;
    var r := mem[f := data];
    FramesSet(mem, d, f, data);
    SameTables(mem, r, d);
    forall v: nat ensures UserPage(r, d, v) == UserPage(mem, d, v) && Page(r, d, v) == Page(mem, d, v) {}
  }

  lemma {:induction false} FramesSet(mem: Memory, d: nat, f: nat, data: Frame)
    requires TablesOk(mem, d) && f < |mem| && |data| == ENTRIES
    ensures Frames(mem[f := data])
  {
  }

  // Kalloc: the first free frame is in hand.
  lemma {:induction false} TakeFrame(mem: Memory, d: nat, pool: seq<nat>)
    requires SpaceOk(mem, d, pool) && pool != []
    ensures SpaceOk(mem, d, pool[1..]) && InHand(mem, d, pool[1..], pool[0])
    ensures forall g: nat :: Mine(mem, d, pool, g) <==> Mine(mem, d, pool[1..], g) || g == pool[0]
  {
    hide Table, HasTable, IsTab, Page, UserPage, TablesOk;
    assert pool == [pool[0]] + pool[1..];
    assert !IsUser(mem, d, pool[0]) by { hide *; PoolNotUser(mem, d, pool, pool[0]); }
  }

  lemma {:induction false} PoolNotUser(mem: Memory, d: nat, pool: seq<nat>, f: nat)
    requires UserOk(mem, d, pool) && f in pool
    ensures !IsUser(mem, d, f)
  {
  }

  // Kfree: a frame in hand goes back to the pool.
  lemma {:induction false} GiveFrame(mem: Memory, d: nat, pool: seq<nat>, f: nat)
    requires SpaceOk(mem, d, pool) && InHand(mem, d, pool, f)
    ensures SpaceOk(mem, d, [f] + pool)
    ensures forall g: nat :: Mine(mem, d, [f] + pool, g) <==> Mine(mem, d, pool, g) || g == f
  {
    hide Table, HasTable, IsTab, Page, UserPage, TablesOk;
    forall v: nat | UserPage(mem, d, v) ensures Page(mem, d, v) != f {
      assert Page(mem, d, v) == f ==> IsUser(mem, d, f);
    }
  }

  lemma {:induction false} TableWrite(mem: Memory, d: nat, i: nat, j: nat, w: nat)
    requires HasTable(mem, d, i) && Table(mem, d, i) < |mem| && j < |mem[Table(mem, d, i)]|
    ensures forall g: nat :: g < |mem| && !IsTab(mem, d, g) ==> SetWord(mem, Table(mem, d, i), j, w)[g] == mem[g]
  {
  }

  // Clearing the entry of a user page leaves its frame in hand.
  lemma {:induction false} UserAfterUnmap(mem: Memory, d: nat, pool: seq<nat>, v: nat)
    requires SpaceOk(mem, d, pool) && UserPage(mem, d, v)
    ensures HasTable(mem, d, Dir(v)) && Table(mem, d, Dir(v)) < |mem| && Idx(v) < |mem[Table(mem, d, Dir(v))]|
    ensures var (r, f) := (SetWord(mem, Table(mem, d, Dir(v)), Idx(v), 0), Page(mem, d, v));
            && SpaceOk(r, d, pool) && InHand(r, d, pool, f)
            && (forall u: nat :: Pte(r, d, u) == if u == v then 0 else Pte(mem, d, u))
            && (forall i: nat :: Word(r, d, i) == Word(mem, d, i))
            && (forall g: nat :: IsTab(r, d, g) <==> IsTab(mem, d, g))
            && (forall g: nat :: Mine(mem, d, pool, g) <==> Mine(r, d, pool, g) || g == f)
            && (forall g: nat :: g < |mem| && !IsTab(mem, d, g) ==> r[g] == mem[g])
  {
    hide IsTab, TablesOk, PoolOk, Dir, Idx, SetWord;
    SetPte(mem, d, pool, v, 0);
    TableWrite(mem, d, Dir(v), Idx(v), 0);
    var r, f := SetWord(mem, Table(mem, d, Dir(v)), Idx(v), 0), Page(mem, d, v);
    hide Pte, Table, HasTable, Word, Kept;
    forall u: nat
      ensures UserPage(r, d, u) == (UserPage(mem, d, u) && u != v)
      ensures u < UPAGES && u != v ==> Page(r, d, u) == Page(mem, d, u)
    {
    }
    forall g: nat ensures IsUser(mem, d, g) <==> IsUser(r, d, g) || g == f {
      UserAdded(r, mem, d, v, f, g);
    }
    forall u: nat | UserPage(r, d, u) ensures Page(r, d, u) != f {
      assert UserPage(mem, d, u);
    }
  }
}
