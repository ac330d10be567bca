// The heap of umalloc.c as plain values. Memory is a range of header-sized units, given by
// the two fields of each unit; the free list is a ring of block addresses that starts at
// `base`. The moves of the allocator (link, unlink, merge, split, grow) each keep the ring
// and the ownership of units in order.
module FreeList {

  const NULL: nat := 0
  const BASE: nat := 1 // the static header `base` lies below the heap

  // What the proof keeps beside the memory: the free blocks in address order after BASE, all
  // blocks, those handed out, and for every unit obtained from sbrk the block it belongs to.
  datatype Heap = Heap(ring: seq<nat>, blocks: set<nat>, live: set<nat>, owner: map<nat, nat>)

  function Next(ring: seq<nat>, i: nat): nat
    requires i < |ring|
  {
    if i + 1 < |ring| then i + 1 else 0
  }

  ghost predicate Sorted(ring: seq<nat>) {
    forall i, j :: 0 <= i < j < |ring| ==> ring[i] < ring[j]
  }

  // One ring in address order, entered at BASE: the only place where addresses wrap.
  ghost predicate IsRing(ptr: seq<nat>, ring: seq<nat>) {
    && 0 < |ring| && ring[0] == BASE && Sorted(ring)
    && (forall i :: 0 <= i < |ring| ==> ring[i] < |ptr|)
    && (forall i :: 0 <= i < |ring| ==> ptr[ring[i]] == ring[Next(ring, i)])
  }

  predicate Covers(size: seq<nat>, b: nat, u: nat)
    requires b < |size|
  {
    b <= u < b + size[b]
  }

  // The units of a block are owned by it and by no other; every owned unit is in its block.
  ghost predicate Owned(size: seq<nat>, blocks: set<nat>, owner: map<nat, nat>) {
    && (forall b :: b in blocks ==> BASE < b < |size| && size[b] > 0)
    && (forall u :: u in owner ==> u < |size| && owner[u] in blocks && Covers(size, owner[u], u))
    && (forall b, u: nat :: b in blocks && Covers(size, b, u) ==> u in owner && owner[u] == b)
  }

  // The ring holds exactly the blocks that are not handed out.
  ghost predicate RingHolds(h: Heap) {
    && h.live <= h.blocks
    && (forall b :: b in h.ring <==> b == BASE || b in h.blocks - h.live)
  }

  ghost predicate Good(ptr: seq<nat>, size: seq<nat>, h: Heap) {
    && |ptr| == |size|
    && IsRing(ptr, h.ring) && size[BASE] == 0
    && Owned(size, h.blocks, h.owner) && RingHolds(h)
  }

  // Neighbours in the ring do not touch, except perhaps at positions lo to hi - 1.
  ghost predicate NoAdjacentBut(size: seq<nat>, ring: seq<nat>, lo: nat, hi: nat) {
    && (forall i :: 0 <= i < |ring| ==> ring[i] < |size|)
    && (forall i :: 0 <= i < |ring| - 1 && !(lo <= i < hi) ==> ring[i] + size[ring[i]] != ring[i + 1])
  }

  // No two distinct free blocks are adjacent.
  ghost predicate NoAdjacent(size: seq<nat>, ring: seq<nat>) {
    NoAdjacentBut(size, ring, 0, 0)
  }

  // ----- Consequences -----

  // Distinct blocks occupy disjoint ranges of units.
  lemma {:induction false} BlocksDisjoint(size: seq<nat>, blocks: set<nat>, owner: map<nat, nat>, b: nat, c: nat)
    requires Owned(size, blocks, owner) && b in blocks && c in blocks && b < c
    ensures b + size[b] <= c
  {
    if Covers(size, b, c) {
      assert Covers(size, c, c);
    }
  }

  // The position at which an address belongs in the ring.
  lemma {:induction false} Position(ring: seq<nat>, bp: nat) returns (t: nat)
    requires 0 < |ring| && ring[0] < bp && bp !in ring && Sorted(ring)
    ensures t < |ring| && ring[t] < bp && (t + 1 < |ring| ==> bp < ring[t + 1])
    decreases |ring|
  {
    var k := |ring| - 1;
    if ring[k] < bp {
      t := k;
    } else {
      t := Position(ring[..k], bp);
      assert t + 1 == k ==> ring[k] != bp;
    }
  }

  // ----- The ring -----

  ghost function Inserted(ring: seq<nat>, t: nat, bp: nat): seq<nat>
    requires t < |ring|
  {
    ring[..t + 1] + [bp] + ring[t + 1..]
  }

  ghost function Removed(ring: seq<nat>, t: nat): seq<nat>
    requires t + 1 < |ring|
  {
    ring[..t + 1] + ring[t + 2..]
  }

  lemma {:induction false} InsertedAt(ring: seq<nat>, t: nat, bp: nat)
    requires t < |ring|
    ensures |Inserted(ring, t, bp)| == |ring| + 1
    ensures Inserted(ring, t, bp)[t + 1] == bp
    ensures forall i :: 0 <= i <= t ==> Inserted(ring, t, bp)[i] == ring[i]
    ensures forall i :: t + 1 < i <= |ring| ==> Inserted(ring, t, bp)[i] == ring[i - 1]
    ensures forall x :: x in Inserted(ring, t, bp) <==> x in ring || x == bp
  {
    assert ring == ring[..t + 1] + ring[t + 1..];
  }

  lemma {:induction false} InsertKeepsRing(ptr: seq<nat>, ring: seq<nat>, t: nat, bp: nat)
    requires IsRing(ptr, ring) && t < |ring| && ring[t] < bp < |ptr|
    requires t + 1 < |ring| ==> bp < ring[t + 1]
    ensures IsRing(ptr[ring[t] := bp][bp := ring[Next(ring, t)]], Inserted(ring, t, bp))
    ensures forall x :: x in Inserted(ring, t, bp) <==> x in ring || x == bp
  {
    var ring' := Inserted(ring, t, bp);
    var ptr' := ptr[ring[t] := bp][bp := ring[Next(ring, t)]];
    InsertedAt(ring, t, bp);
    hide Inserted;
    forall i | 0 <= i < |ring| ensures i <= t ==> ring[i] < bp
                               ensures i > t ==> bp < ring[i]
                               ensures i != t ==> ring[i] != ring[t] {
    }
    forall i | 0 <= i < |ring'| ensures ptr'[ring'[i]] == ring'[Next(ring', i)] {
    }
  }

  lemma {:induction false} RemovedAt(ring: seq<nat>, t: nat)
    requires t + 1 < |ring|
    ensures |Removed(ring, t)| == |ring| - 1
    ensures forall i :: 0 <= i < |ring| - 1 ==> Removed(ring, t)[i] == ring[if i <= t then i else i + 1]
    ensures Sorted(ring) ==> forall x :: x in Removed(ring, t) <==> x in ring && x != ring[t + 1]
  {
    assert ring == ring[..t + 1] + [ring[t + 1]] + ring[t + 2..];
  }

  lemma {:induction false} RemoveKeepsRing(ptr: seq<nat>, ring: seq<nat>, t: nat)
    requires IsRing(ptr, ring) && t + 1 < |ring|
    ensures IsRing(ptr[ring[t] := ptr[ring[t + 1]]], Removed(ring, t))
    ensures forall x :: x in Removed(ring, t) <==> x in ring && x != ring[t + 1]
  {
    var ring' := Removed(ring, t);
    var ptr' := ptr[ring[t] := ptr[ring[t + 1]]];
    RemovedAt(ring, t);
    hide Removed;
    forall i | 0 <= i < |ring'| ensures ptr'[ring'[i]] == ring'[Next(ring', i)] {
      assert i != t ==> ring'[i] != ring[t];
    }
  }

  // ----- The moves -----

  // bp goes into the ring after position t.
  ghost function Link(h: Heap, t: nat, bp: nat): Heap
    requires t < |h.ring|
  {
    h.(ring := Inserted(h.ring, t, bp), live := h.live - {bp})
  }

  lemma {:induction false} LinkGood(ptr: seq<nat>, size: seq<nat>, h: Heap, t: nat, bp: nat)
    requires Good(ptr, size, h) && bp in h.live && t < |h.ring| && h.ring[t] < bp
    requires t + 1 < |h.ring| ==> bp < h.ring[t + 1]
    ensures Good(ptr[h.ring[t] := bp][bp := h.ring[Next(h.ring, t)]], size, Link(h, t, bp))
  {
    InsertKeepsRing(ptr, h.ring, t, bp);
  }

  // The block at position t + 1 leaves the ring and is handed out.
  ghost function Unlink(h: Heap, t: nat): Heap
    requires t + 1 < |h.ring|
  {
    h.(ring := Removed(h.ring, t), live := h.live + {h.ring[t + 1]})
  }

  lemma {:induction false} UnlinkGood(ptr: seq<nat>, size: seq<nat>, h: Heap, t: nat)
    requires Good(ptr, size, h) && t + 1 < |h.ring|
    ensures Good(ptr[h.ring[t] := ptr[h.ring[t + 1]]], size, Unlink(h, t))
  {
    RemoveKeepsRing(ptr, h.ring, t);
    assert h.ring[t + 1] in h.ring;
  }

  // The free block at position t + 1 is absorbed by its neighbour at position t.
  ghost function Merge(h: Heap, t: nat): Heap
    requires t + 1 < |h.ring|
  {
    var a, c := h.ring[t], h.ring[t + 1];
    Heap(Removed(h.ring, t), h.blocks - {c}, h.live,
         map u | u in h.owner :: if h.owner[u] == c then a else h.owner[u])
  }

  lemma {:induction false} MergeGood(ptr: seq<nat>, size: seq<nat>, h: Heap, t: nat)
    requires Good(ptr, size, h) && 0 < t && t + 1 < |h.ring|
    requires h.ring[t] + size[h.ring[t]] == h.ring[t + 1]
    ensures var a, c := h.ring[t], h.ring[t + 1];
            Good(ptr[a := ptr[c]], size[a := size[a] + size[c]], Merge(h, t))
  {
    var a, c := h.ring[t], h.ring[t + 1];
    RemoveKeepsRing(ptr, h.ring, t);
    assert a in h.ring && c in h.ring;
    MergeOwned(size, h, a, c);
  }

  lemma {:induction false} MergeOwned(size: seq<nat>, h: Heap, a: nat, c: nat)
    requires Owned(size, h.blocks, h.owner) && a in h.blocks && c in h.blocks && a + size[a] == c
    ensures Owned(size[a := size[a] + size[c]], h.blocks - {c},
                  map u | u in h.owner :: if h.owner[u] == c then a else h.owner[u])
  {
    var size' := size[a := size[a] + size[c]];
    var owner' := map u | u in h.owner :: if h.owner[u] == c then a else h.owner[u];
    forall b, u: nat | b in h.blocks - {c} && Covers(size', b, u)
      ensures u in owner' && owner'[u] == b
    {
      assert Covers(size, b, u) || (b == a && Covers(size, c, u));
    }
  }

  // The last n units of a free block become a block of their own, which is handed out.
  ghost function Split(h: Heap, q: nat, n: nat): Heap {
    h.(blocks := h.blocks + {q}, live := h.live + {q},
       owner := map u | u in h.owner :: if q <= u < q + n then q else h.owner[u])
  }

  lemma {:induction false} SplitGood(ptr: seq<nat>, size: seq<nat>, h: Heap, p: nat, n: nat)
    requires Good(ptr, size, h) && p in h.blocks - h.live && 0 < n < size[p]
    ensures var q := p + (size[p] - n);
            && q < |size| && q !in h.blocks && q != BASE
            && Good(ptr, size[p := size[p] - n][q := n], Split(h, q, n))
  {
    var q := p + (size[p] - n);
    assert Covers(size, p, q);
    assert q !in h.blocks by {
      if q in h.blocks {
        assert Covers(size, q, q);
      }
    }
    var size' := size[p := size[p] - n][q := n];
    var h' := Split(h, q, n);
    forall b, u: nat | b in h'.blocks && Covers(size', b, u)
      ensures u in h'.owner && h'.owner[u] == b
    {
      assert b == q ==> Covers(size, p, u);
      assert b != q ==> Covers(size, b, u);
    }
  }

  // Fresh units [hp, hp + n) become a block that is handed out.
  ghost function Grow(h: Heap, hp: nat, n: nat): Heap {
    h.(blocks := h.blocks + {hp}, live := h.live + {hp},
       owner := h.owner + map u | u in Units(hp, n) :: hp)
  }

  // The n units from address b.
  ghost function Units(b: nat, n: nat): (r: set<nat>)
    ensures |r| == n
    ensures forall u :: u in r <==> b <= u < b + n
  {
    if n == 0 then {} else Units(b, n - 1) + {b + n - 1}
  }

  lemma {:induction false} GrowKeys(h: Heap, hp: nat, n: nat)
    requires n > 0
    ensures Grow(h, hp, n).owner.Keys == h.owner.Keys + Units(hp, n)
    ensures Grow(h, hp, n).live == h.live + {hp} && Grow(h, hp, n).ring == h.ring
    ensures (forall u :: u in h.owner ==> u < hp) ==> forall u :: u in Grow(h, hp, n).owner ==> u < hp + n
  {
  }

  lemma {:induction false} GrowGood(ptr: seq<nat>, size: seq<nat>, h: Heap, hp: nat, n: nat)
    requires Good(ptr, size, h) && 0 < n && BASE < hp && hp + n <= |size|
    requires forall u :: u in h.owner ==> u < hp
    ensures hp !in h.blocks
    ensures Good(ptr, size[hp := n], Grow(h, hp, n))
  {
    assert hp in h.blocks ==> Covers(size, hp, hp);
    GrowOwned(size, h, hp, n);
    hide Units, Owned;
  }

  lemma {:induction false} GrowOwned(size: seq<nat>, h: Heap, hp: nat, n: nat)
    requires Owned(size, h.blocks, h.owner) && 0 < n && BASE < hp && hp + n <= |size| && hp !in h.blocks
    requires forall u :: u in h.owner ==> u < hp
    ensures Owned(size[hp := n], Grow(h, hp, n).blocks, Grow(h, hp, n).owner)
  {
    hide Units;
    var h', size' := Grow(h, hp, n), size[hp := n];
    forall b, u: nat | b in h'.blocks && Covers(size', b, u)
      ensures u in h'.owner && h'.owner[u] == b
    {
      assert b != hp ==> Covers(size, b, u);
    }
  }

  // ----- Adjacency -----

  lemma {:induction false} MergeKeepsGaps(size: seq<nat>, ring: seq<nat>, lo: nat, t: nat)
    requires NoAdjacentBut(size, ring, lo, t + 1) && lo <= t && t + 1 < |ring| && Sorted(ring)
    requires ring[t] + size[ring[t]] == ring[t + 1]
    ensures NoAdjacentBut(size[ring[t] := size[ring[t]] + size[ring[t + 1]]], Removed(ring, t), lo, t)
  {
    RemovedAt(ring, t);
    hide Removed;
    forall i | 0 <= i < |ring| && i != t ensures ring[i] != ring[t] {
    }
  }

  lemma {:induction false} GapCloses(size: seq<nat>, ring: seq<nat>, lo: nat, hi: nat)
    requires NoAdjacentBut(size, ring, lo, hi + 1)
    requires hi + 1 < |ring| && ring[hi] < |size| ==> ring[hi] + size[ring[hi]] != ring[hi + 1]
    ensures NoAdjacentBut(size, ring, lo, hi)
  {
  }

  lemma {:induction false} LinkKeepsGaps(size: seq<nat>, ring: seq<nat>, t: nat, bp: nat)
    requires NoAdjacent(size, ring) && t < |ring| && bp < |size|
    ensures NoAdjacentBut(size, Inserted(ring, t, bp), t, t + 2)
  {
    InsertedAt(ring, t, bp);
    hide Inserted;
  }

  // The gap after a free block: the next one lies beyond its end.
  lemma {:induction false} RingGap(ptr: seq<nat>, size: seq<nat>, h: Heap, i: nat)
    requires Good(ptr, size, h) && i + 1 < |h.ring|
    ensures h.ring[i] + size[h.ring[i]] <= h.ring[i + 1]
  {
    var b, c := h.ring[i], h.ring[i + 1];
    assert b in h.ring && c in h.ring && b < c;
    if i > 0 {
      assert h.ring[0] < b;
      BlocksDisjoint(size, h.blocks, h.owner, b, c);
    }
  }

  lemma {:induction false} UnlinkKeepsGaps(ptr: seq<nat>, size: seq<nat>, h: Heap, t: nat)
    requires Good(ptr, size, h) && NoAdjacent(size, h.ring) && t + 1 < |h.ring|
    ensures NoAdjacent(size, Unlink(h, t).ring)
  {
    RingGap(ptr, size, h, t);
    RemovedAt(h.ring, t);
    hide Removed;
  }

  lemma {:induction false} SplitKeepsGaps(ptr: seq<nat>, size: seq<nat>, h: Heap, t: nat, n: nat)
    requires Good(ptr, size, h) && NoAdjacent(size, h.ring) && t < |h.ring| && 0 < n < size[h.ring[t]]
    requires h.ring[t] + (size[h.ring[t]] - n) < |size| && h.ring[t] + (size[h.ring[t]] - n) !in h.ring
    ensures var p := h.ring[t];
            NoAdjacent(size[p := size[p] - n][p + (size[p] - n) := n], h.ring)
  {
    var p := h.ring[t];
    if t + 1 < |h.ring| {
      RingGap(ptr, size, h, t);
    }
    forall i | 0 <= i < |h.ring| && i != t ensures h.ring[i] != p {
    }
  }

  // ----- Freeing a block -----

  // Where in the ring an address belongs.
  ghost predicate Between(ring: seq<nat>, t: nat, bp: nat) {
    t < |ring| && ring[t] < bp && (t + 1 < |ring| ==> bp < ring[t + 1])
  }

  // What the statements of free after its search store: ptr fields and size fields.
  ghost function FreeStores(ptr: seq<nat>, size: seq<nat>, p: nat, bp: nat): (r: (seq<nat>, seq<nat>))
    requires p < |ptr| == |size| && bp < |ptr| && ptr[p] < |ptr|
    ensures |r.0| == |ptr| && |r.1| == |size|
  {
    var next := ptr[p];
    var join := bp + size[bp] == next;
    var size1 := if join then size[bp := size[bp] + size[next]] else size;
    var ptr1 := if join then ptr[bp := ptr[next]] else ptr[bp := next];
    if p + size1[p] == bp then (ptr1[p := ptr1[bp]], size1[p := size1[p] + size1[bp]])
    else (ptr1[p := bp], size1)
  }

  // The heap that goes with them: link bp in after position t, merge it with the next block
  // if they touch, merge it with the previous one if they touch.
  ghost function JoinedHeap(size: seq<nat>, h: Heap, t: nat, bp: nat): Heap
    requires Between(h.ring, t, bp) && bp < |size|
  {
    if t + 1 < |h.ring| && bp + size[bp] == h.ring[t + 1] then
      InsertedAt(h.ring, t, bp);
      Merge(Link(h, t, bp), t + 1)
    else Link(h, t, bp)
  }

  ghost function FreedHeap(size: seq<nat>, h: Heap, t: nat, bp: nat): Heap
    requires Between(h.ring, t, bp) && bp < |size|
  {
    var h2 := JoinedHeap(size, h, t, bp);
    if t + 1 < |h2.ring| && h.ring[t] < |size| && h.ring[t] + size[h.ring[t]] == bp then Merge(h2, t) else h2
  }

  // The stores up to the second `if`, with the previous block already linked to bp.
  ghost function JoinStores(ptr: seq<nat>, size: seq<nat>, p: nat, bp: nat): (r: (seq<nat>, seq<nat>))
    requires p < |ptr| == |size| && bp < |ptr| && ptr[p] < |ptr|
  {
    var next := ptr[p];
    if bp + size[bp] == next then (ptr[p := bp][bp := ptr[next]], size[bp := size[bp] + size[next]])
    else (ptr[p := bp][bp := next], size)
  }

  lemma {:induction false} FreedBounds(ptr: seq<nat>, size: seq<nat>, h: Heap, t: nat, bp: nat)
    requires Good(ptr, size, h) && bp in h.live && Between(h.ring, t, bp)
    ensures BASE <= h.ring[t] < |ptr| == |size| && BASE < bp < |ptr| && ptr[h.ring[t]] < |ptr|
    ensures ptr[h.ring[t]] == h.ring[Next(h.ring, t)] && h.ring[0] == BASE && Sorted(h.ring)
    ensures size[bp] > 0
  {
  }

  // Absorbing the block at position t + 1.
  lemma {:induction false} MergeStepGood(ptr: seq<nat>, size: seq<nat>, h: Heap, lo: nat, t: nat)
    requires Good(ptr, size, h) && NoAdjacentBut(size, h.ring, lo, t + 1) && lo <= t
    requires t + 1 < |h.ring| && h.ring[t] < |size| && h.ring[t] + size[h.ring[t]] == h.ring[t + 1]
    ensures h.ring[t + 1] < |ptr| == |size|
    ensures var a, c := h.ring[t], h.ring[t + 1];
            && Good(ptr[a := ptr[c]], size[a := size[a] + size[c]], Merge(h, t))
            && NoAdjacentBut(size[a := size[a] + size[c]], Merge(h, t).ring, lo, t)
    ensures |Merge(h, t).ring| == |h.ring| - 1 && Merge(h, t).ring[..t + 1] == h.ring[..t + 1]
  {
    assert h.ring[t + 1] in h.ring && h.ring[t + 1] in h.blocks;
    assert t > 0;
    MergeGood(ptr, size, h, t);
    MergeKeepsGaps(size, h.ring, lo, t);
  }

  lemma {:induction false} JoinedGood(ptr: seq<nat>, size: seq<nat>, h: Heap, t: nat, bp: nat)
    requires Good(ptr, size, h) && NoAdjacent(size, h.ring) && bp in h.live && Between(h.ring, t, bp)
    ensures h.ring[t] < |ptr| == |size| && bp < |ptr| && ptr[h.ring[t]] < |ptr|
    ensures var r := JoinStores(ptr, size, h.ring[t], bp);
            var h' := JoinedHeap(size, h, t, bp);
            && Good(r.0, r.1, h') && NoAdjacentBut(r.1, h'.ring, t, t + 1)
            && t + 1 < |h'.ring| && h'.ring[t] == h.ring[t] && h'.ring[t + 1] == bp
  {
    hide Good, Inserted, Removed, NoAdjacent, NoAdjacentBut, Merge;
    var p, next := h.ring[t], h.ring[Next(h.ring, t)];
    FreedBounds(ptr, size, h, t, bp);
    LinkGood(ptr, size, h, t, bp);
    LinkKeepsGaps(size, h.ring, t, bp);
    InsertedAt(h.ring, t, bp);
    var h1, ptr1 := Link(h, t, bp), ptr[p := bp][bp := next];
    assert h1.ring[t] == p && h1.ring[t + 1] == bp;
    if bp + size[bp] == next {
      assert h1.ring[t + 2] == h.ring[t + 1] == next;
      MergeStepGood(ptr1, size, h1, t, t + 1);
      assert Merge(h1, t + 1).ring[..t + 2] == h1.ring[..t + 2];
      assert Merge(h1, t + 1).ring[..t + 2][t] == p && Merge(h1, t + 1).ring[..t + 2][t + 1] == bp;
      assert ptr1[bp := ptr1[next]] == ptr[p := bp][bp := ptr[next]];
    } else {
      GapCloses(size, h1.ring, t, t + 1);
    }
  }

  lemma {:induction false} StoresInOrder(ptr: seq<nat>, size: seq<nat>, p: nat, bp: nat)
    requires p < |ptr| == |size| && p < bp < |ptr| && ptr[p] < |ptr|
    ensures var r := JoinStores(ptr, size, p, bp);
            && r.1[p] == size[p]
            && FreeStores(ptr, size, p, bp)
               == if p + size[p] == bp then (r.0[p := r.0[bp]], r.1[p := r.1[p] + r.1[bp]]) else r
  {
    var x := if bp + size[bp] == ptr[p] then ptr[ptr[p]] else ptr[p];
    assert ptr[p := bp][bp := x] == ptr[bp := x][p := bp];
    assert ptr[bp := x][p := bp][p := x] == ptr[bp := x][p := x];
  }

  // Freeing a block keeps everything in order, and leaves no two free blocks adjacent.
  lemma {:induction false} FreedGood(ptr: seq<nat>, size: seq<nat>, h: Heap, t: nat, bp: nat)
    requires Good(ptr, size, h) && NoAdjacent(size, h.ring) && bp in h.live && Between(h.ring, t, bp)
    ensures h.ring[t] < |ptr| == |size| && bp < |ptr| && ptr[h.ring[t]] < |ptr|
    ensures var r := FreeStores(ptr, size, h.ring[t], bp);
            var h' := FreedHeap(size, h, t, bp);
            Good(r.0, r.1, h') && NoAdjacent(r.1, h'.ring)
  {
    hide Good, Inserted, Removed, JoinStores, JoinedHeap, FreeStores, Merge;
    JoinedGood(ptr, size, h, t, bp);
    var r := JoinStores(ptr, size, h.ring[t], bp);
    var h2 := JoinedHeap(size, h, t, bp);
    StoresInOrder(ptr, size, h.ring[t], bp);
    if h.ring[t] + size[h.ring[t]] == bp {
      MergeStepGood(r.0, r.1, h2, t, t);
    }
  }

  // Merging gives units only to a free block.
  lemma {:induction false} MergeOwners(ptr: seq<nat>, size: seq<nat>, h: Heap, t: nat)
    requires Good(ptr, size, h) && t + 1 < |h.ring|
    ensures Merge(h, t).live == h.live && Merge(h, t).owner.Keys == h.owner.Keys
    ensures forall u :: u in h.owner && Merge(h, t).owner[u] in h.live ==> Merge(h, t).owner[u] == h.owner[u]
  {
    hide Removed, Owned, IsRing;
    assert h.ring[t] in h.ring;
    assert 0 < |h.ring| && h.ring[0] == BASE && BASE !in h.live by { BaseNotLive(ptr, size, h); }
  }

  lemma {:induction false} BaseNotLive(ptr: seq<nat>, size: seq<nat>, h: Heap)
    requires Good(ptr, size, h)
    ensures 0 < |h.ring| && h.ring[0] == BASE && BASE !in h.live
  {
  }

  lemma {:induction false} JoinedOwners(ptr: seq<nat>, size: seq<nat>, h: Heap, t: nat, bp: nat)
    requires Good(ptr, size, h) && NoAdjacent(size, h.ring) && bp in h.live && Between(h.ring, t, bp)
    ensures bp < |size|
    ensures var h2 := JoinedHeap(size, h, t, bp);
            && h2.live == h.live - {bp} && h2.owner.Keys == h.owner.Keys
            && forall u :: u in h.owner && h2.owner[u] in h2.live ==> h2.owner[u] == h.owner[u]
  {
    hide Good, Inserted, Removed, NoAdjacent, Merge;
    FreedBounds(ptr, size, h, t, bp);
    LinkGood(ptr, size, h, t, bp);
    InsertedAt(h.ring, t, bp);
    if t + 1 < |h.ring| && bp + size[bp] == h.ring[t + 1] {
      MergeOwners(ptr[h.ring[t] := bp][bp := h.ring[Next(h.ring, t)]], size, Link(h, t, bp), t + 1);
    }
  }

  // The units of blocks that stay handed out keep their owners, and no unit is lost.
  lemma {:induction false} FreedOwners(ptr: seq<nat>, size: seq<nat>, h: Heap, t: nat, bp: nat)
    requires Good(ptr, size, h) && NoAdjacent(size, h.ring) && bp in h.live && Between(h.ring, t, bp)
    ensures bp < |size|
    ensures var h' := FreedHeap(size, h, t, bp);
            && h'.live == h.live - {bp} && h'.owner.Keys == h.owner.Keys
            && forall u :: u in h.owner && h'.owner[u] in h'.live ==> h'.owner[u] == h.owner[u]
  {
    hide Good, Inserted, Removed, NoAdjacent, Merge, JoinedHeap, JoinStores;
    JoinedOwners(ptr, size, h, t, bp);
    JoinedGood(ptr, size, h, t, bp);
    var h2, r := JoinedHeap(size, h, t, bp), JoinStores(ptr, size, h.ring[t], bp);
    MergeOwners(r.0, r.1, h2, t);
  }

  // Only the block bp, the free block before it and the block after it change.
  lemma {:induction false} FreeStoresElsewhere(ptr: seq<nat>, size: seq<nat>, p: nat, bp: nat, u: nat)
    requires p < |ptr| == |size| && bp < |ptr| && ptr[p] < |ptr| && u < |ptr| && u != p && u != bp
    ensures FreeStores(ptr, size, p, bp).0[u] == ptr[u] && FreeStores(ptr, size, p, bp).1[u] == size[u]
  {
  }

  // The units of blocks that stay handed out are untouched.
  lemma {:induction false} FreedKeepsLive(ptr: seq<nat>, size: seq<nat>, h: Heap, t: nat, bp: nat, u: nat)
    requires Good(ptr, size, h) && NoAdjacent(size, h.ring) && bp in h.live && Between(h.ring, t, bp)
    requires var h' := FreedHeap(size, h, t, bp); u in h'.owner && h'.owner[u] in h'.live
    ensures h.ring[t] < |ptr| == |size| && bp < |ptr| && ptr[h.ring[t]] < |ptr|
    ensures u in h.owner && h.owner[u] == FreedHeap(size, h, t, bp).owner[u]
    ensures u < |ptr|
    ensures FreeStores(ptr, size, h.ring[t], bp).0[u] == ptr[u]
    ensures FreeStores(ptr, size, h.ring[t], bp).1[u] == size[u]
  {
    hide Good, FreedHeap, FreeStores, NoAdjacent;
    FreedBounds(ptr, size, h, t, bp);
    FreedOwners(ptr, size, h, t, bp);
    FirstUnits(ptr, size, h, t, bp, u);
    FreeStoresElsewhere(ptr, size, h.ring[t], bp, u);
  }

  // A unit of another block that is handed out is not the header of bp or of a free block.
  lemma {:induction false} FirstUnits(ptr: seq<nat>, size: seq<nat>, h: Heap, t: nat, bp: nat, u: nat)
    requires Good(ptr, size, h) && t < |h.ring| && bp in h.live && u in h.owner && h.owner[u] in h.live - {bp}
    ensures u < |ptr| && u != bp && u != h.ring[t]
  {
    var p := h.ring[t];
    assert p in h.ring;
    assert Covers(size, bp, bp);
    assert p in h.blocks ==> Covers(size, p, p);
  }

  // Freeing neither loses nor adds units, and the freed units now lie in a free block.
  lemma {:induction false} FreedKeepsUnits(ptr: seq<nat>, size: seq<nat>, h: Heap, t: nat, bp: nat)
    requires Good(ptr, size, h) && NoAdjacent(size, h.ring) && bp in h.live && Between(h.ring, t, bp)
    ensures h.ring[t] < |ptr| == |size| && bp < |ptr| && ptr[h.ring[t]] < |ptr|
    ensures var r := FreeStores(ptr, size, h.ring[t], bp);
            var h' := FreedHeap(size, h, t, bp);
            && h'.live == h.live - {bp} && h'.owner.Keys == h.owner.Keys
            && t < |h'.ring| && h'.ring[t] == h.ring[t]
            && exists k :: 0 <= k < |h'.ring| && h'.ring[k] < |size| && r.1[h'.ring[k]] >= size[bp]
  {
    hide Good, Inserted, Removed, JoinedHeap, NoAdjacent, FreeStores, JoinStores;
    FreedBounds(ptr, size, h, t, bp);
    FreedOwners(ptr, size, h, t, bp);
    JoinedGood(ptr, size, h, t, bp);
    var h2 := JoinedHeap(size, h, t, bp);
    RemovedAt(h2.ring, t);
    FreedSize(ptr, size, h.ring[t], bp);
    if h.ring[t] + size[h.ring[t]] == bp {
      assert FreeStores(ptr, size, h.ring[t], bp).1[FreedHeap(size, h, t, bp).ring[t]] >= size[bp];
    } else {
      assert FreedHeap(size, h, t, bp).ring[t + 1] == bp;
    }
  }

  lemma {:induction false} FreedSize(ptr: seq<nat>, size: seq<nat>, p: nat, bp: nat)
    requires p < bp < |ptr| == |size| && ptr[p] < |ptr|
    ensures FreeStores(ptr, size, p, bp).1[if p + size[p] == bp then p else bp] >= size[bp]
  {
  }

  // ----- What stays -----

  // Blocks that are handed out in h' were handed out in h, and their units are unchanged.
  ghost predicate Kept(h: Heap, ptr: seq<nat>, size: seq<nat>, h': Heap, ptr': seq<nat>, size': seq<nat>) {
    && |ptr| == |ptr'| && |size| == |size'| && |ptr| == |size|
    && h'.live <= h.live
    && forall u :: u in h'.owner && h'.owner[u] in h'.live ==>
         && u in h.owner && h.owner[u] == h'.owner[u] && u < |ptr|
         && ptr'[u] == ptr[u] && size'[u] == size[u]
  }

  // Growing by a block that is no longer handed out in the end.
  lemma {:induction false} GrowThenKept(h: Heap, ptr: seq<nat>, size: seq<nat>, hp: nat, n: nat,
                     h': Heap, ptr': seq<nat>, size': seq<nat>)
    requires hp < |size| && n > 0 && hp !in h.live
    requires Kept(Grow(h, hp, n), ptr, size[hp := n], h', ptr', size') && hp !in h'.live
    ensures Kept(h, ptr, size, h', ptr', size')
  {
    assert hp in Units(hp, n);
  }

  lemma {:induction false} KeptTwice(h: Heap, ptr: seq<nat>, size: seq<nat>, h1: Heap, ptr1: seq<nat>, size1: seq<nat>,
                  h2: Heap, ptr2: seq<nat>, size2: seq<nat>)
    requires Kept(h, ptr, size, h1, ptr1, size1) && Kept(h1, ptr1, size1, h2, ptr2, size2)
    ensures Kept(h, ptr, size, h2, ptr2, size2)
  {
  }

  // ----- Taking a block -----

  // malloc takes n units from the block at position t of the ring: all of it, or its tail.
  function TakenAt(size: seq<nat>, p: nat, n: nat): nat
    requires p < |size| && n <= size[p]
  {
    p + (size[p] - n)
  }

  ghost function TakenHeap(size: seq<nat>, h: Heap, t: nat, n: nat): Heap
    requires 0 < t < |h.ring| && h.ring[t] < |size| && n <= size[h.ring[t]]
  {
    if size[h.ring[t]] == n then Unlink(h, t - 1) else Split(h, TakenAt(size, h.ring[t], n), n)
  }

  ghost function TakeStores(ptr: seq<nat>, size: seq<nat>, prevp: nat, p: nat, n: nat): (r: (seq<nat>, seq<nat>))
    requires prevp < |ptr| == |size| && p < |ptr| && n <= size[p] && TakenAt(size, p, n) < |size|
    ensures |r.0| == |ptr| && |r.1| == |size|
  {
    if size[p] == n then (ptr[prevp := ptr[p]], size)
    else (ptr, size[p := size[p] - n][TakenAt(size, p, n) := n])
  }

  lemma {:induction false} TakeGood(ptr: seq<nat>, size: seq<nat>, h: Heap, t: nat, n: nat)
    requires Good(ptr, size, h) && NoAdjacent(size, h.ring)
    requires 0 < t < |h.ring| && h.ring[t] < |size| && 0 < n <= size[h.ring[t]]
    ensures h.ring[t - 1] < |ptr| == |size| && TakenAt(size, h.ring[t], n) < |size|
    ensures var r := TakeStores(ptr, size, h.ring[t - 1], h.ring[t], n);
            var h' := TakenHeap(size, h, t, n);
            Good(r.0, r.1, h') && NoAdjacent(r.1, h'.ring)
  {
    hide Good, NoAdjacent, Unlink, Split;
    TakeBounds(ptr, size, h, t, n);
    var p, prevp := h.ring[t], h.ring[t - 1];
    var q := TakenAt(size, p, n);
    if size[p] == n {
      UnlinkGood(ptr, size, h, t - 1);
      UnlinkKeepsGaps(ptr, size, h, t - 1);
    } else {
      TailGood(ptr, size, h, t, n);
      var size' := size[p := size[p] - n][q := n];
      assert Good(ptr, size', Split(h, q, n)) && NoAdjacent(size', Split(h, q, n).ring);
    }
  }

  lemma {:induction false} TailGood(ptr: seq<nat>, size: seq<nat>, h: Heap, t: nat, n: nat)
    requires Good(ptr, size, h) && NoAdjacent(size, h.ring)
    requires 0 < t < |h.ring| && h.ring[t] < |size| && 0 < n < size[h.ring[t]]
    ensures TakenAt(size, h.ring[t], n) < |size|
    ensures var p, q := h.ring[t], TakenAt(size, h.ring[t], n);
            var size' := size[p := size[p] - n][q := n];
            Good(ptr, size', Split(h, q, n)) && NoAdjacent(size', Split(h, q, n).ring)
  {
    hide Good, NoAdjacent;
    TakeBounds(ptr, size, h, t, n);
    SplitGood(ptr, size, h, h.ring[t], n);
    SplitKeepsGaps(ptr, size, h, t, n);
  }

  lemma {:induction false} TakeBounds(ptr: seq<nat>, size: seq<nat>, h: Heap, t: nat, n: nat)
    requires Good(ptr, size, h)
    requires 0 < t < |h.ring| && h.ring[t] < |size| && 0 < n <= size[h.ring[t]]
    ensures h.ring[t] in h.blocks - h.live && h.ring[t] < |ptr|
    ensures h.ring[t - 1] < |ptr| == |size| && TakenAt(size, h.ring[t], n) < |size|
    ensures n < size[h.ring[t]] ==> TakenAt(size, h.ring[t], n) !in h.ring
  {
    var p, q := h.ring[t], TakenAt(size, h.ring[t], n);
    assert p in h.ring && h.ring[0] < p;
    assert Covers(size, p, q);
    if n < size[p] && q in h.ring {
      assert h.ring[0] < q && q in h.blocks && Covers(size, q, q);
    }
  }

  // The block taken was free, has n units, and nothing handed out before is touched.
  lemma {:induction false} TakeKeeps(ptr: seq<nat>, size: seq<nat>, h: Heap, t: nat, n: nat)
    requires Good(ptr, size, h)
    requires 0 < t < |h.ring| && h.ring[t] < |size| && 0 < n <= size[h.ring[t]]
    ensures h.ring[t - 1] < |ptr| == |size| && TakenAt(size, h.ring[t], n) < |size|
    ensures var q := TakenAt(size, h.ring[t], n);
            var r := TakeStores(ptr, size, h.ring[t - 1], h.ring[t], n);
            var h' := TakenHeap(size, h, t, n);
            && q !in h.live && h'.live == h.live + {q} && r.1[q] == n
            && h'.owner.Keys == h.owner.Keys && h.ring[t - 1] in h'.ring
            && Kept(h, ptr, size, h'.(live := h.live), r.0, r.1)
  {
    hide Sorted;
    var p, prevp := h.ring[t], h.ring[t - 1];
    var q := TakenAt(size, p, n);
    assert p in h.ring && prevp in h.ring && h.ring[0] == BASE;
    assert size[BASE] == 0;
    assert p != BASE;
    assert Covers(size, p, p) && Covers(size, p, q);
    if size[p] == n {
      RemovedAt(h.ring, t - 1);
      assert Removed(h.ring, t - 1)[t - 1] == prevp;
      assert prevp in h.blocks ==> Covers(size, prevp, prevp);
    } else {
      assert q in h.blocks ==> Covers(size, q, q);
    }
  }

  // ----- Conservation -----

  ghost function TotalSize(size: seq<nat>, blocks: set<nat>): nat
    requires forall b :: b in blocks ==> b < |size|
    decreases blocks
  {
    if blocks == {} then 0
    else
      var b :| b in blocks;
      size[b] + TotalSize(size, blocks - {b})
  }

  ghost function OwnedBy(owner: map<nat, nat>, blocks: set<nat>): set<nat> {
    set u | u in owner && owner[u] in blocks
  }

  // The sizes of a set of blocks add up to the number of units they own.
  lemma {:induction false} TotalIsUnits(size: seq<nat>, h: Heap, some: set<nat>)
    requires Owned(size, h.blocks, h.owner) && some <= h.blocks
    ensures TotalSize(size, some) == |OwnedBy(h.owner, some)|
    decreases some
  {
    if some == {} {
      assert OwnedBy(h.owner, some) == {};
    } else {
      var b :| b in some && TotalSize(size, some) == size[b] + TotalSize(size, some - {b});
      TotalIsUnits(size, h, some - {b});
      OwnedWithout(size, h, some, b);
    }
  }

  lemma {:induction false} OwnedWithout(size: seq<nat>, h: Heap, some: set<nat>, b: nat)
    requires Owned(size, h.blocks, h.owner) && some <= h.blocks && b in some
    ensures |OwnedBy(h.owner, some)| == size[b] + |OwnedBy(h.owner, some - {b})|
  {
    var mine := Units(b, size[b]);
    var rest := OwnedBy(h.owner, some - {b});
    forall u: nat ensures u in mine <==> u in h.owner && h.owner[u] == b {
      assert u in mine <==> Covers(size, b, u);
    }
    assert OwnedBy(h.owner, some) == mine + rest;
    assert mine !! rest;
  }

  // Free units plus handed-out units are the units obtained from sbrk.
  lemma {:induction false} UnitsConserved(ptr: seq<nat>, size: seq<nat>, h: Heap)
    requires Good(ptr, size, h)
    ensures TotalSize(size, h.blocks - h.live) + TotalSize(size, h.live) == |h.owner|
  {
    TotalIsUnits(size, h, h.blocks - h.live);
    TotalIsUnits(size, h, h.live);
    var free, used := OwnedBy(h.owner, h.blocks - h.live), OwnedBy(h.owner, h.live);
    assert free + used == h.owner.Keys && free !! used;
  }
}
