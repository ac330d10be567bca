// What allocating, freeing and writing one block does to the files of the whole system.
module FsBlocks {
  import opened Blocks
  import opened FsState

  // ----- Consequences of Good -----

  // The block at position k of inode i, if any, is a data block that nothing else points to.
  lemma {:induction false} Owner(g: Super, s: State, owner: Owners, i: nat, k: nat)
    requires Good(g, s, owner) && i < |s.inodes| && k < SLOTS && Addr(s, i, k) != 0
    ensures Addr(s, i, k) in owner && owner[Addr(s, i, k)] == Slot(i, k)
    ensures !g.Reserved(Addr(s, i, k)) && g.DataStart() <= Addr(s, i, k) < g.size == |s.view|
  {
  }

  lemma {:induction false} OwnersDiffer(g: Super, s: State, owner: Owners, i: nat, k: nat, j: nat, l: nat)
    requires Good(g, s, owner) && i < |s.inodes| && j < |s.inodes| && k < SLOTS && l < SLOTS
    requires Addr(s, i, k) != 0 && Addr(s, i, k) == Addr(s, j, l)
    ensures i == j && k == l
  {
    Owner(g, s, owner, i, k);
    Owner(g, s, owner, j, l);
  }

  // A block whose bit is clear is a data block that nothing points to.
  lemma {:induction false} FreeBlock(g: Super, s: State, owner: Owners, b: nat)
    requires Good(g, s, owner) && b < g.size && !Used(g, s.view, b)
    ensures b !in owner && !g.Reserved(b) && g.DataStart() <= b
  {
  }

  // Inode and bitmap blocks come before the data blocks.
  lemma {:induction false} MetaBlocks(g: Super, b: nat)
    requires g.Ok()
    ensures b < g.size ==> g.BitmapBlock(b) < g.DataStart() <= g.size
    ensures b < g.ninodes ==> g.InodeBlock(b) < g.BitmapBlock(0) < g.DataStart()
  {
    if b < g.size {
      assert b / BPB <= g.size / BPB;
    }
    if b < g.ninodes {
      assert b / IPB <= g.ninodes / IPB;
    }
  }

  // ----- Allocation -----

  // Store the block number a at position k of inode i.
  function SetAddr(s: State, i: nat, k: nat, a: Word): (r: State)
    requires i < |s.inodes| && k < SLOTS
    requires k > NDIRECT ==> 0 < s.inodes[i].addrs[NDIRECT] < |s.view|
    ensures |r.view| == |s.view| && |r.inodes| == |s.inodes|
  {
    var ip := s.inodes[i];
    if k <= NDIRECT then s.(inodes := s.inodes[i := ip.(addrs := ip.addrs[k := a])])
    else
      var x := ip.addrs[NDIRECT];
      s.(view := s.view[x := SetWord(s.view[x], k - NDIRECT - 1, a)])
  }

  // balloc of block b: its bit is set and its content cleared.
  function Balloc(g: Super, view: seq<Block>, b: nat): (r: seq<Block>)
    requires b < |view| && g.BitmapBlock(b) < |view|
    ensures |r| == |view|
  {
    Mark(g, view, b)[b := ZeroBlock()]
  }

  // Position k of inode i, so far empty, gets the free block b.
  ghost predicate CanAlloc(g: Super, s: State, owner: Owners, i: nat, k: nat, b: nat) {
    && Good(g, s, owner) && i < |s.inodes| && k < SLOTS && Addr(s, i, k) == 0
    && (k > NDIRECT ==> s.inodes[i].addrs[NDIRECT] != 0)
    && b < g.size && b < 0x1_0000_0000 && !Used(g, s.view, b)
  }

  lemma {:induction false} AllocBounds(g: Super, s: State, owner: Owners, i: nat, k: nat, b: nat)
    requires CanAlloc(g, s, owner, i, k, b)
    ensures g.BitmapBlock(b) < g.DataStart() <= b < |s.view| == g.size
    ensures s.inodes[i].addrs[NDIRECT] < |s.view| && s.inodes[i].addrs[NDIRECT] != b
    ensures s.inodes[i].addrs[NDIRECT] != 0 ==> s.inodes[i].addrs[NDIRECT] >= g.DataStart()
  {
    MetaBlocks(g, b);
    FreeBlock(g, s, owner, b);
    if s.inodes[i].addrs[NDIRECT] != 0 {
      Owner(g, s, owner, i, NDIRECT);
    }
  }

  ghost function Alloc(g: Super, s: State, owner: Owners, i: nat, k: nat, b: nat): (r: State)
    requires CanAlloc(g, s, owner, i, k, b)
    ensures |r.view| == |s.view| && |r.inodes| == |s.inodes|
  {
    AllocBounds(g, s, owner, i, k, b);
    SetAddr(s.(view := Balloc(g, s.view, b)), i, k, b)
  }

  // An allocation changes one pointer and no other.
  lemma {:induction false} AllocAddr(g: Super, s: State, owner: Owners, i: nat, k: nat, b: nat, j: nat, l: nat)
    requires CanAlloc(g, s, owner, i, k, b) && j < |s.inodes| && l < SLOTS
    ensures Addr(Alloc(g, s, owner, i, k, b), j, l) == if j == i && l == k then b else Addr(s, j, l)
  {
    AllocBounds(g, s, owner, i, k, b);
    var t := Alloc(g, s, owner, i, k, b);
    var x := s.inodes[j].addrs[NDIRECT];
    if x != 0 {
      Owner(g, s, owner, j, NDIRECT);
      FreeBlock(g, s, owner, b);
      if j != i && k > NDIRECT && x == s.inodes[i].addrs[NDIRECT] {
        OwnersDiffer(g, s, owner, i, NDIRECT, j, NDIRECT);
      }
    }
    hide Good, Used, Mark;
  }

  // Blocks other than b, its bitmap block and the indirect block of i keep their content.
  lemma {:induction false} AllocView(g: Super, s: State, owner: Owners, i: nat, k: nat, b: nat, a: nat)
    requires CanAlloc(g, s, owner, i, k, b) && a < |s.view|
    requires a != b && a >= g.DataStart() && a != s.inodes[i].addrs[NDIRECT]
    ensures Alloc(g, s, owner, i, k, b).view[a] == s.view[a]
    ensures k > NDIRECT || Alloc(g, s, owner, i, k, b).view[b] == ZeroBlock()
  {
    AllocBounds(g, s, owner, i, k, b);
  }

  // An allocation does not show in the contents of any file.
  lemma {:induction false} AllocFiles(g: Super, s: State, owner: Owners, i: nat, k: nat, b: nat, j: nat, bn: nat)
    requires CanAlloc(g, s, owner, i, k, b) && j < |s.inodes| && bn < MAXFILE
    ensures FileBlock(Alloc(g, s, owner, i, k, b), j, bn) == FileBlock(s, j, bn)
  {
    AllocBounds(g, s, owner, i, k, b);
    var t := Alloc(g, s, owner, i, k, b);
    var l := DataSlot(bn);
    AllocAddr(g, s, owner, i, k, b, j, l);
    if j == i && l == k {
      assert t.view[b] == ZeroBlock();
    } else if Addr(s, j, l) != 0 {
      Owner(g, s, owner, j, l);
      FreeBlock(g, s, owner, b);
      if Addr(s, j, l) == s.inodes[i].addrs[NDIRECT] {
        OwnersDiffer(g, s, owner, j, l, i, NDIRECT);
      }
      AllocView(g, s, owner, i, k, b, Addr(s, j, l));
    }
  }

  lemma {:induction false} AllocBits(g: Super, s: State, owner: Owners, i: nat, k: nat, b: nat, c: nat)
    requires CanAlloc(g, s, owner, i, k, b) && c < g.size
    ensures Used(g, Alloc(g, s, owner, i, k, b).view, c) <==> Used(g, s.view, c) || c == b
  {
    AllocBounds(g, s, owner, i, k, b);
    MetaBlocks(g, c);
    MarkBits(g, s.view, b, c);
    var t := Alloc(g, s, owner, i, k, b);
    assert t.view[g.BitmapBlock(c)] == Mark(g, s.view, b)[g.BitmapBlock(c)];
  }

  // An allocation leaves the system in order, with one owned block more.
  lemma {:induction false} AllocGood(g: Super, s: State, owner: Owners, i: nat, k: nat, b: nat)
    requires CanAlloc(g, s, owner, i, k, b)
    ensures Good(g, Alloc(g, s, owner, i, k, b), owner[b := Slot(i, k)])
  {
    AllocPoints(g, s, owner, i, k, b);
    AllocOwned(g, s, owner, i, k, b);
    AllocBitmap(g, s, owner, i, k, b);
    hide Alloc, OwnersPoint, PointersOwned, BitmapExact;
  }

  lemma {:induction false} AllocPoints(g: Super, s: State, owner: Owners, i: nat, k: nat, b: nat)
    requires CanAlloc(g, s, owner, i, k, b)
    ensures OwnersPoint(g, Alloc(g, s, owner, i, k, b), owner[b := Slot(i, k)])
  {
    hide Alloc, Addr, BitmapExact, PointersOwned;
    FreeBlock(g, s, owner, b);
    var t := Alloc(g, s, owner, i, k, b);
    AllocAddr(g, s, owner, i, k, b, i, k);
    forall a | a in owner && a != b
      ensures Addr(t, owner[a].inum, owner[a].k) == a
    {
      AllocAddr(g, s, owner, i, k, b, owner[a].inum, owner[a].k);
    }
  }

  lemma {:induction false} AllocOwned(g: Super, s: State, owner: Owners, i: nat, k: nat, b: nat)
    requires CanAlloc(g, s, owner, i, k, b)
    ensures PointersOwned(Alloc(g, s, owner, i, k, b), owner[b := Slot(i, k)])
  {
    hide Alloc, Addr, BitmapExact, OwnersPoint, PointersOwned;
    FreeBlock(g, s, owner, b);
    var t := Alloc(g, s, owner, i, k, b);
    var owner' := owner[b := Slot(i, k)];
    forall j, l | 0 <= j < |s.inodes| && 0 <= l < SLOTS && Addr(t, j, l) != 0
      ensures Addr(t, j, l) in owner' && owner'[Addr(t, j, l)] == Slot(j, l)
    {
      AllocAddr(g, s, owner, i, k, b, j, l);
      if Addr(s, j, l) != 0 {
        Owner(g, s, owner, j, l);
      }
    }
    OwnedIs(t, owner');
  }

  lemma {:induction false} AllocBitmap(g: Super, s: State, owner: Owners, i: nat, k: nat, b: nat)
    requires CanAlloc(g, s, owner, i, k, b)
    ensures BitmapExact(g, Alloc(g, s, owner, i, k, b), owner[b := Slot(i, k)])
  {
    hide Alloc, Addr, Used, OwnersPoint, PointersOwned;
    var t := Alloc(g, s, owner, i, k, b);
    forall c | 0 <= c < g.size
      ensures Used(g, t.view, c) <==> g.Reserved(c) || c in owner[b := Slot(i, k)]
    {
      AllocBits(g, s, owner, i, k, b, c);
    }
  }

  // ----- Release -----

  // Position k of inode i gives up its block; an indirect block only once it is empty.
  ghost predicate CanFree(g: Super, s: State, owner: Owners, i: nat, k: nat) {
    && Good(g, s, owner) && i < |s.inodes| && k < SLOTS && Addr(s, i, k) != 0
    && (k == NDIRECT ==> forall l :: NDIRECT < l < SLOTS ==> Addr(s, i, l) == 0)
  }

  // Its bit is set: bfree does not panic with "freeing free block".
  lemma {:induction false} FreeBounds(g: Super, s: State, owner: Owners, i: nat, k: nat)
    requires CanFree(g, s, owner, i, k)
    ensures var a := Addr(s, i, k);
            && g.Ok() && g.BitmapBlock(a) < g.DataStart() <= a < |s.view| == g.size
            && Used(g, s.view, a)
    ensures k > NDIRECT ==> g.DataStart() <= s.inodes[i].addrs[NDIRECT] < |s.view|
  {
    Owner(g, s, owner, i, k);
    MetaBlocks(g, Addr(s, i, k));
    if k > NDIRECT {
      Owner(g, s, owner, i, NDIRECT);
    }
  }

  ghost function Release(g: Super, s: State, owner: Owners, i: nat, k: nat): (r: State)
    requires CanFree(g, s, owner, i, k)
    ensures |r.view| == |s.view| && |r.inodes| == |s.inodes|
  {
    FreeBounds(g, s, owner, i, k);
    SetAddr(s.(view := Unmark(g, s.view, Addr(s, i, k))), i, k, 0)
  }

  lemma {:induction false} ReleaseAddr(g: Super, s: State, owner: Owners, i: nat, k: nat, j: nat, l: nat)
    requires CanFree(g, s, owner, i, k) && j < |s.inodes| && l < SLOTS
    ensures Addr(Release(g, s, owner, i, k), j, l) == if j == i && l == k then 0 else Addr(s, j, l)
  {
    FreeBounds(g, s, owner, i, k);
    var x := s.inodes[j].addrs[NDIRECT];
    if x != 0 {
      Owner(g, s, owner, j, NDIRECT);
      if j != i && k > NDIRECT && x == s.inodes[i].addrs[NDIRECT] {
        OwnersDiffer(g, s, owner, i, NDIRECT, j, NDIRECT);
      }
    }
    hide Good, Used, Unmark;
  }

  lemma {:induction false} ReleaseBits(g: Super, s: State, owner: Owners, i: nat, k: nat, c: nat)
    requires CanFree(g, s, owner, i, k) && c < g.size
    ensures Used(g, Release(g, s, owner, i, k).view, c) <==> Used(g, s.view, c) && c != Addr(s, i, k)
  {
    var a := Addr(s, i, k);
    FreeBounds(g, s, owner, i, k);
    MetaBlocks(g, c);
    MarkBits(g, s.view, a, c);
    var t := Release(g, s, owner, i, k);
    assert t.view[g.BitmapBlock(c)] == Unmark(g, s.view, a)[g.BitmapBlock(c)];
  }

  // Releasing a block leaves the system in order, with one owned block less.
  lemma {:induction false} ReleaseGood(g: Super, s: State, owner: Owners, i: nat, k: nat)
    requires CanFree(g, s, owner, i, k)
    ensures Good(g, Release(g, s, owner, i, k), owner - {Addr(s, i, k)})
  {
    ReleasePoints(g, s, owner, i, k);
    ReleaseOwned(g, s, owner, i, k);
    ReleaseBitmap(g, s, owner, i, k);
    hide Release, OwnersPoint, PointersOwned, BitmapExact;
  }

  lemma {:induction false} ReleaseBitmap(g: Super, s: State, owner: Owners, i: nat, k: nat)
    requires CanFree(g, s, owner, i, k)
    ensures BitmapExact(g, Release(g, s, owner, i, k), owner - {Addr(s, i, k)})
  {
    hide Release, Addr, Used, OwnersPoint, PointersOwned;
    Owner(g, s, owner, i, k);
    var t := Release(g, s, owner, i, k);
    forall c | 0 <= c < g.size
      ensures Used(g, t.view, c) <==> g.Reserved(c) || c in owner - {Addr(s, i, k)}
    {
      ReleaseBits(g, s, owner, i, k, c);
    }
  }

  lemma {:induction false} ReleasePoints(g: Super, s: State, owner: Owners, i: nat, k: nat)
    requires CanFree(g, s, owner, i, k)
    ensures OwnersPoint(g, Release(g, s, owner, i, k), owner - {Addr(s, i, k)})
  {
    hide Release, Addr, BitmapExact, PointersOwned;
    Owner(g, s, owner, i, k);
    var t := Release(g, s, owner, i, k);
    forall c | c in owner - {Addr(s, i, k)}
      ensures Addr(t, owner[c].inum, owner[c].k) == c
    {
      ReleaseAddr(g, s, owner, i, k, owner[c].inum, owner[c].k);
    }
  }

  lemma {:induction false} ReleaseOwned(g: Super, s: State, owner: Owners, i: nat, k: nat)
    requires CanFree(g, s, owner, i, k)
    ensures PointersOwned(Release(g, s, owner, i, k), owner - {Addr(s, i, k)})
  {
    hide Release, Addr, BitmapExact, OwnersPoint, PointersOwned;
    var t := Release(g, s, owner, i, k);
    var owner' := owner - {Addr(s, i, k)};
    forall j, l | 0 <= j < |s.inodes| && 0 <= l < SLOTS && Addr(t, j, l) != 0
      ensures Addr(t, j, l) in owner' && owner'[Addr(t, j, l)] == Slot(j, l)
    {
      ReleaseAddr(g, s, owner, i, k, j, l);
      Owner(g, s, owner, j, l);
      if Addr(t, j, l) == Addr(s, i, k) {
        OwnersDiffer(g, s, owner, i, k, j, l);
      }
    }
    OwnedIs(t, owner');
  }

  lemma {:induction false} OwnedIs(t: State, owner: Owners)
    requires forall i, k :: 0 <= i < |t.inodes| && 0 <= k < SLOTS && Addr(t, i, k) != 0 ==>
               Addr(t, i, k) in owner && owner[Addr(t, i, k)] == Slot(i, k)
    ensures PointersOwned(t, owner)
  {
  }

  // The other files keep their contents.
  lemma {:induction false} ReleaseFiles(g: Super, s: State, owner: Owners, i: nat, k: nat, j: nat, bn: nat)
    requires CanFree(g, s, owner, i, k) && j < |s.inodes| && bn < MAXFILE && j != i
    ensures FileBlock(Release(g, s, owner, i, k), j, bn) == FileBlock(s, j, bn)
  {
    var t := Release(g, s, owner, i, k);
    var l := DataSlot(bn);
    ReleaseAddr(g, s, owner, i, k, j, l);
    FreeBounds(g, s, owner, i, k);
    if Addr(s, j, l) != 0 {
      Owner(g, s, owner, j, l);
      if k > NDIRECT && Addr(s, j, l) == s.inodes[i].addrs[NDIRECT] {
        OwnersDiffer(g, s, owner, j, l, i, NDIRECT);
      }
    }
  }

  // ----- Writing data and metadata -----

  // Store a new content in the bn-th block of inode i.
  function WriteBlock(s: State, i: nat, bn: nat, data: Block): (r: State)
    requires i < |s.inodes| && bn < MAXFILE && Addr(s, i, DataSlot(bn)) < |s.view|
    ensures |r.view| == |s.view| && r.inodes == s.inodes
  {
    s.(view := s.view[Addr(s, i, DataSlot(bn)) := data])
  }

  lemma {:induction false} WriteAddr(g: Super, s: State, owner: Owners, i: nat, bn: nat, data: Block, j: nat, l: nat)
    requires Good(g, s, owner) && i < |s.inodes| && bn < MAXFILE && Addr(s, i, DataSlot(bn)) != 0
    requires j < |s.inodes| && l < SLOTS
    ensures DataSlot(bn) < SLOTS && Addr(s, i, DataSlot(bn)) < |s.view|
    ensures Addr(WriteBlock(s, i, bn, data), j, l) == Addr(s, j, l)
  {
    Owner(g, s, owner, i, DataSlot(bn));
    var x := s.inodes[j].addrs[NDIRECT];
    if x != 0 && x == Addr(s, i, DataSlot(bn)) {
      OwnersDiffer(g, s, owner, i, DataSlot(bn), j, NDIRECT);
    }
  }

  // It changes that block of that file, and nothing else.
  lemma {:induction false} WriteFiles(g: Super, s: State, owner: Owners, i: nat, bn: nat, data: Block, j: nat, bm: nat)
    requires Good(g, s, owner) && i < |s.inodes| && bn < MAXFILE && Addr(s, i, DataSlot(bn)) != 0
    requires j < |s.inodes| && bm < MAXFILE
    ensures Addr(s, i, DataSlot(bn)) < |s.view|
    ensures FileBlock(WriteBlock(s, i, bn, data), j, bm) == if j == i && bm == bn then data else FileBlock(s, j, bm)
  {
    WriteAddr(g, s, owner, i, bn, data, j, DataSlot(bm));
    Owner(g, s, owner, i, DataSlot(bn));
    if Addr(s, j, DataSlot(bm)) == Addr(s, i, DataSlot(bn)) {
      OwnersDiffer(g, s, owner, i, DataSlot(bn), j, DataSlot(bm));
    }
  }

  lemma {:induction false} WriteGood(g: Super, s: State, owner: Owners, i: nat, bn: nat, data: Block)
    requires Good(g, s, owner) && i < |s.inodes| && bn < MAXFILE && Addr(s, i, DataSlot(bn)) != 0
    ensures Addr(s, i, DataSlot(bn)) < |s.view|
    ensures Good(g, WriteBlock(s, i, bn, data), owner)
  {
    hide Addr, Used, Good;
    Owner(g, s, owner, i, DataSlot(bn));
    WriteBits(g, s, owner, i, bn, data);
    var t := WriteBlock(s, i, bn, data);
    forall j, l | 0 <= j < |s.inodes| && 0 <= l < SLOTS
      ensures Addr(t, j, l) == Addr(s, j, l)
    {
      WriteAddr(g, s, owner, i, bn, data, j, l);
    }
    StillGood(g, s, t, owner);
  }

  lemma {:induction false} WriteBits(g: Super, s: State, owner: Owners, i: nat, bn: nat, data: Block)
    requires Good(g, s, owner) && i < |s.inodes| && bn < MAXFILE && Addr(s, i, DataSlot(bn)) != 0
    ensures Addr(s, i, DataSlot(bn)) < |s.view| == g.size && g.Ok()
    ensures forall c :: 0 <= c < g.size ==>
              (Used(g, WriteBlock(s, i, bn, data).view, c) <==> Used(g, s.view, c))
  {
    Owner(g, s, owner, i, DataSlot(bn));
    forall c | 0 <= c < g.size
      ensures Used(g, WriteBlock(s, i, bn, data).view, c) <==> Used(g, s.view, c)
    {
      MetaBlocks(g, c);
    }
  }

  // Same pointers and same bits: still in order.
  lemma {:induction false} StillGood(g: Super, s: State, t: State, owner: Owners)
    requires Good(g, s, owner) && |t.view| == |s.view| && |t.inodes| == |s.inodes|
    requires forall j, l :: 0 <= j < |s.inodes| && 0 <= l < SLOTS ==> Addr(t, j, l) == Addr(s, j, l)
    requires forall c :: 0 <= c < g.size ==>
               (Used(g, t.view, c) <==> Used(g, s.view, c))
    ensures Good(g, t, owner)
  {
    hide Addr, Used;
  }

  // A change of sizes, types and link counts, of inode blocks, or of blocks that nobody owns,
  // shows neither in the pointers nor in the contents.
  ghost predicate SameFiles(g: Super, s: State, t: State, owner: Owners) {
    && |t.view| == |s.view| && |t.inodes| == |s.inodes|
    && (forall i :: 0 <= i < |s.inodes| ==> t.inodes[i].addrs == s.inodes[i].addrs)
    && (forall a :: 0 <= a < |s.view| && (a in owner || g.BitmapBlock(0) <= a < g.DataStart()) ==>
          t.view[a] == s.view[a])
  }

  lemma {:induction false} SameAddr(g: Super, s: State, t: State, owner: Owners, i: nat, k: nat)
    requires Good(g, s, owner) && SameFiles(g, s, t, owner) && i < |s.inodes| && k < SLOTS
    ensures Addr(t, i, k) == Addr(s, i, k)
  {
    if s.inodes[i].addrs[NDIRECT] != 0 {
      Owner(g, s, owner, i, NDIRECT);
    }
  }

  lemma {:induction false} SameFileBlock(g: Super, s: State, t: State, owner: Owners, i: nat, bn: nat)
    requires Good(g, s, owner) && SameFiles(g, s, t, owner) && i < |s.inodes| && bn < MAXFILE
    ensures FileBlock(t, i, bn) == FileBlock(s, i, bn)
  {
    SameAddr(g, s, t, owner, i, DataSlot(bn));
    if Addr(s, i, DataSlot(bn)) != 0 {
      Owner(g, s, owner, i, DataSlot(bn));
    }
  }

  lemma {:induction false} SameGood(g: Super, s: State, t: State, owner: Owners)
    requires Good(g, s, owner) && SameFiles(g, s, t, owner)
    ensures Good(g, t, owner)
  {
    forall j, l | 0 <= j < |s.inodes| && 0 <= l < SLOTS
      ensures Addr(t, j, l) == Addr(s, j, l)
    {
      SameAddr(g, s, t, owner, j, l);
    }
    forall c | 0 <= c < g.size
      ensures Used(g, t.view, c) <==> Used(g, s.view, c)
    {
      MetaBlocks(g, c);
      assert g.BitmapBlock(0) <= g.BitmapBlock(c);
    }
    StillGood(g, s, t, owner);
  }
}
