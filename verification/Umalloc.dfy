// The allocator of umalloc.c (Kernighan and Ritchie, 2nd edition, section 8.7).
// Memory is two arrays, the two header fields of every unit; an address is an index.
module Umalloc {
  import opened FreeList

  const HEADER: nat := 8 // sizeof(Header)
  const MINUNITS: nat := 4096 // the least that morecore asks for
  const MAXUNITS: nat := 0x2000_0000 // units in a 32-bit address space
  const UINT: nat := 0x1_0000_0000

  // (nbytes + sizeof(Header) - 1) / sizeof(Header) + 1, in 32-bit arithmetic.
  function NUnits(nbytes: nat): (r: nat)
    ensures r >= 1
  {
    (nbytes + HEADER - 1) % UINT / HEADER + 1
  }

  // The request in bytes that morecore hands to sbrk, as sbrk's int argument.
  function SbrkArgument(nunits: nat): int {
    var bytes := (if nunits < MINUNITS then MINUNITS else nunits) * HEADER % UINT;
    if bytes < UINT / 2 then bytes else bytes - UINT
  }

  const MAXREQUEST: nat := 0x7FFF_FFF0

  // The largest request for which no 32-bit computation overflows: exactly up to there, the
  // payload holds nbytes and sbrk is asked for what malloc needs.
  lemma {:induction false} RequestFits(nbytes: nat)
    requires nbytes < UINT
    ensures nbytes <= MAXREQUEST <==>
              (NUnits(nbytes) - 1) * HEADER >= nbytes && SbrkArgument(NUnits(nbytes)) >= NUnits(nbytes) * HEADER
  {
  }

  // sbrk is asked for what malloc needs: exactly for requests up to MAXREQUEST, and for the
  // very largest, whose number of units wraps around to 1.
  predicate SbrkFits(nunits: nat) {
    SbrkArgument(nunits) == Max(nunits, MINUNITS) * HEADER
  }

  // The payload of a block of that many units is large enough.
  predicate HoldsBytes(nunits: nat, nbytes: nat) {
    (nunits - 1) * HEADER >= nbytes
  }

  lemma {:induction false} LargeRequests(nbytes: nat)
    requires nbytes < UINT
    ensures SbrkFits(NUnits(nbytes)) <==> nbytes <= MAXREQUEST || nbytes > UINT - HEADER
    ensures HoldsBytes(NUnits(nbytes), nbytes) <==> nbytes <= UINT - HEADER
    // no more units than the payload and one header need
    ensures nbytes <= UINT - HEADER ==> nbytes <= (NUnits(nbytes) - 1) * 8 < nbytes + 8
  {
  }

  function Max(a: nat, b: nat): nat {
    if a < b then b else a
  }

  // The units of the allocator, after morecore if it was called with the break at brk.
  ghost function With(units: set<nat>, grown: bool, brk: nat, nunits: nat): set<nat> {
    units + if grown then Units(brk, Max(nunits, MINUNITS)) else {}
  }

  lemma {:induction false} WithIs(units: set<nat>, brk: nat, nunits: nat)
    ensures With(units, false, brk, nunits) == units
    ensures With(units, true, brk, nunits) == units + Units(brk, Max(nunits, MINUNITS))
  {
  }

  class Allocator {
    const ptr: array<nat>
    const size: array<nat>
    var freep: nat
    var brk: nat // the first unit not yet handed out by sbrk
    ghost var heap: Heap

    ghost predicate Valid()
      reads this, ptr, size
    {
      && ptr.Length == size.Length <= MAXUNITS && ptr != size
      && BASE < brk <= ptr.Length
      && (forall u :: u in heap.owner ==> u < brk)
      && (freep == NULL ==> heap == Heap([], {}, {}, map[]))
      && (freep != NULL ==> Good(ptr[..], size[..], heap) && NoAdjacent(size[..], heap.ring) && freep in heap.ring)
    }

    // Every unit that the allocator has obtained from sbrk.
    ghost function Obtained(): set<nat>
      reads this
    {
      heap.owner.Keys
    }

    // u lies in a block that has been handed out.
    ghost predicate InUse(u: nat)
      reads this
    {
      u in heap.owner && heap.owner[u] in heap.live
    }

    constructor (units: nat)
      requires BASE + 1 < units <= MAXUNITS
      ensures Valid() && freep == NULL && Obtained() == {}
    {
      ptr, size := new nat[units], new nat[units];
      freep, brk := NULL, BASE + 1;
      heap := Heap([], {}, {}, map[]);
    }

    // sbrk: hand out n more units, if there are that many. The rest of the program may call
    // it too, so that the allocator's units need not be contiguous.
    method Sbrk(n: nat) returns (p: nat)
      requires Valid()
      modifies this`brk
      ensures Valid()
      ensures p == NULL <==> old(brk) + n > ptr.Length
      ensures p == NULL ==> brk == old(brk)
      ensures p != NULL ==> p == old(brk) && brk == p + n
    {
      if brk + n > ptr.Length {
        return NULL;
      }
      p := brk;
      brk := brk + n;
    }

    // The user may write anywhere in a block that was handed out, but not over its header.
    method UserWrite(u: nat, a: nat, b: nat)
      requires Valid() && InUse(u) && heap.owner[u] != u
      modifies ptr, size
      ensures Valid()
    {
      assert u in heap.blocks ==> Covers(size[..], u, u);
      assert u !in heap.ring;
      ptr[u] := a;
      size[u] := b;
      assert ptr[..] == old(ptr[..])[u := a] && size[..] == old(size[..])[u := b];
    }

    // free's search: the free block after which bp belongs. The ring is walked from freep,
    // and the walk ends even where it has to pass the wrap of the addresses.
    method Search(bp: nat) returns (p: nat, ghost t: nat)
      requires Valid() && freep != NULL && bp in heap.live
      ensures Between(heap.ring, t, bp) && p == heap.ring[t] && p != NULL
    {
      p := freep;
      ghost var ring := heap.ring;
      assert bp in heap.blocks && bp !in ring;
      t := Position(ring, bp);
      ghost var i: nat :| 0 <= i < |ring| && ring[i] == p;
      while !(bp > p && bp < ptr[p])
        invariant 0 <= i < |ring| && p == ring[i]
        decreases if i <= t then t - i else |ring| - i + t
      {
        assert ptr[p] == ring[Next(ring, i)];
        if p >= ptr[p] && (bp > p || bp < ptr[p]) {
          break;
        }
        p := ptr[p];
        i := Next(ring, i);
      }
    }

    // free: put the block back in the ring and join it with free neighbours.
    method Free(ap: nat)
      requires Valid() && freep != NULL && ap > 0 && ap - 1 in heap.live
      modifies this`freep, this`heap, ptr, size
      ensures Valid() && freep != NULL
      ensures heap.live == old(heap.live) - {ap - 1}
      ensures Obtained() == old(Obtained())
      ensures Kept(old(heap), old(ptr[..]), old(size[..]), heap, ptr[..], size[..])
      ensures exists k :: 0 <= k < |heap.ring| && heap.ring[k] < size.Length && size[heap.ring[k]] >= old(size[ap - 1])
    {
      var bp := ap - 1;
      hide Good, NoAdjacent, FreedHeap, Kept;
      var p;
      ghost var t;
      p, t := Search(bp);
      FreeIsGood(t, bp);
      if bp + size[bp] == ptr[p] {
        size[bp] := size[bp] + size[ptr[p]];
        ptr[bp] := ptr[ptr[p]];
      } else {
        ptr[bp] := ptr[p];
      }
      if p + size[p] == bp {
        size[p] := size[p] + size[bp];
        ptr[p] := ptr[bp];
      } else {
        ptr[p] := bp;
      }
      freep := p;
      ghost var r := FreeStores(old(ptr[..]), old(size[..]), p, bp);
      assert ptr[..] == r.0;
      assert size[..] == r.1;
      heap := FreedHeap(old(size[..]), heap, t, bp);
      assert heap.ring[t] == freep;
      assert forall u :: u in heap.owner ==> u in old(heap).owner.Keys;
    }

    // What free will have established once its stores are done.
    lemma {:induction false} FreeIsGood(t: nat, bp: nat)
      requires Valid() && freep != NULL && bp in heap.live && Between(heap.ring, t, bp)
      ensures heap.ring[t] < ptr.Length && bp < ptr.Length && ptr[heap.ring[t]] < ptr.Length
      ensures var r := FreeStores(ptr[..], size[..], heap.ring[t], bp);
              var h' := FreedHeap(size[..], heap, t, bp);
              && Good(r.0, r.1, h') && NoAdjacent(r.1, h'.ring)
              && h'.live == heap.live - {bp} && h'.owner.Keys == heap.owner.Keys
              && t < |h'.ring| && h'.ring[t] == heap.ring[t]
              && (exists k :: 0 <= k < |h'.ring| && h'.ring[k] < size.Length && r.1[h'.ring[k]] >= size[bp])
              && Kept(heap, ptr[..], size[..], h', r.0, r.1)
    {
      hide Good, NoAdjacent, FreedHeap, FreeStores;
      FreedGood(ptr[..], size[..], heap, t, bp);
      FreedKeepsUnits(ptr[..], size[..], heap, t, bp);
      var h' := FreedHeap(size[..], heap, t, bp);
      forall u | u in h'.owner && h'.owner[u] in h'.live
        ensures && u in heap.owner && heap.owner[u] == h'.owner[u] && u < ptr.Length
                && FreeStores(ptr[..], size[..], heap.ring[t], bp).0[u] == ptr[u]
                && FreeStores(ptr[..], size[..], heap.ring[t], bp).1[u] == size[u]
      {
        FreedKeepsLive(ptr[..], size[..], heap, t, bp, u);
      }
    }

    // morecore: obtain max(nu, 4096) fresh units and free them as one block.
    method MoreCore(nunits: nat) returns (p: nat)
      requires Valid() && freep != NULL && nunits > 0 && SbrkFits(nunits)
      modifies this`freep, this`brk, this`heap, ptr, size
      ensures Valid() && freep != NULL && heap.live == old(heap).live
      ensures p != NULL ==> Kept(old(heap), old(ptr[..]), old(size[..]), heap, ptr[..], size[..])
      ensures p == NULL <==> old(brk) + Max(nunits, MINUNITS) > ptr.Length
      ensures p == NULL ==> heap == old(heap) && ptr[..] == old(ptr[..]) && size[..] == old(size[..])
      ensures p == NULL ==> freep == old(freep) && brk == old(brk)
      ensures p != NULL ==>
                && p == freep && old(brk) + Max(nunits, MINUNITS) == brk
                && Obtained() == old(Obtained()) + Units(old(brk), Max(nunits, MINUNITS))
      ensures p != NULL ==> exists k :: 0 <= k < |heap.ring| && heap.ring[k] < size.Length && size[heap.ring[k]] >= nunits
    {
      hide Good, NoAdjacent, Kept, Grow, Units;
      var nu := nunits;
      if nu < MINUNITS {
        nu := MINUNITS;
      }
      p := Obtain(nu);
      if p == NULL {
        return;
      }
      var hp := p;
      Free(hp + 1);
      p := freep;
      GrowThenKept(old(heap), old(ptr[..]), old(size[..]), hp, nu, heap, ptr[..], size[..]);
    }

    // The first half of morecore: n fresh units with a header at their start. They count as
    // handed out until free puts them into the ring.
    method Obtain(n: nat) returns (hp: nat)
      requires Valid() && freep != NULL && n > 0
      modifies this`brk, this`heap, size
      ensures Valid() && ptr[..] == old(ptr[..])
      ensures hp == NULL <==> old(brk) + n > ptr.Length
      ensures hp == NULL ==> heap == old(heap) && size[..] == old(size[..]) && brk == old(brk)
      ensures hp != NULL ==>
                && hp == old(brk) && brk == hp + n && hp < size.Length && hp !in old(heap).live
                && heap == Grow(old(heap), hp, n) && size[..] == old(size[..])[hp := n] && size[hp] == n
                && heap.live == old(heap).live + {hp}
                && Obtained() == old(Obtained()) + Units(hp, n)
    {
      hide Good, NoAdjacent, Grow, Units;
      GrowIsGood(n);
      GrowKeys(heap, brk, n);
      hp := Sbrk(n);
      if hp == NULL {
        return;
      }
      size[hp] := n;
      heap := Grow(heap, hp, n);
      assert size[..] == old(size[..])[hp := n];
      assert Obtained() == old(Obtained()) + Units(hp, n);
    }

    // What the heap becomes when the next n units are obtained.
    lemma {:induction false} GrowIsGood(n: nat)
      requires Valid() && freep != NULL && n > 0
      ensures brk !in heap.live
      ensures brk + n <= ptr.Length ==>
                && Good(ptr[..], size[..][brk := n], Grow(heap, brk, n))
                && NoAdjacent(size[..][brk := n], heap.ring)
    {
      if brk in heap.live {
        assert Covers(size[..], brk, brk);
      }
      if brk + n <= ptr.Length {
        GrowGood(ptr[..], size[..], heap, brk, n);
        assert forall i :: 0 <= i < |heap.ring| ==> heap.ring[i] in heap.ring;
      }
    }

    // How many steps of the walk lead from position a to position b of the ring.
    ghost function Distance(a: nat, b: nat): int
      reads this
    {
      if a <= b then b - a else |heap.ring| - a + b
    }

    // Blocks that the walk still has to meet, from the successor of position i to freep at f.
    ghost function Ahead(i: nat, f: nat): nat
      requires i < |heap.ring| && f < |heap.ring|
      reads this
    {
      Distance(Next(heap.ring, i), f)
    }

    // malloc's first lines: an empty ring on the first call.
    method Start() returns (prevp: nat)
      requires Valid()
      modifies this`freep, this`heap, ptr, size
      ensures Valid() && prevp == freep != NULL
      ensures heap.live == old(heap).live && Obtained() == old(Obtained()) && brk == old(brk)
      ensures Kept(old(heap), old(ptr[..]), old(size[..]), heap, ptr[..], size[..])
    {
      prevp := freep;
      if prevp == NULL {
        ptr[BASE] := BASE;
        freep, prevp := BASE, BASE;
        size[BASE] := 0;
        heap := Heap([BASE], {}, {}, map[]);
      }
    }

    // malloc's success branch: p, the successor of prevp, has at least nunits units.
    method Take(prevp: nat, p: nat, nunits: nat, ghost i: nat) returns (ap: nat)
      requires Valid() && freep != NULL && nunits > 0
      requires i + 1 < |heap.ring| && heap.ring[i] == prevp != NULL && heap.ring[i + 1] == p
      requires p < size.Length && size[p] >= nunits
      modifies this`freep, this`heap, ptr, size
      ensures Valid() && freep != NULL
      ensures ap > 0 && ap - 1 !in old(heap).live && heap.live == old(heap).live + {ap - 1}
      ensures ap - 1 < size.Length && size[ap - 1] == nunits
      // the whole block, or the units at its end
      ensures freep == prevp && ap - 1 == p + (old(size[p]) - nunits)
      ensures old(size[p]) > nunits ==> size[p] == old(size[p]) - nunits
      ensures Obtained() == old(Obtained())
      ensures Kept(old(heap), old(ptr[..]), old(size[..]), heap.(live := old(heap).live), ptr[..], size[..])
    {
      hide Good, NoAdjacent, Kept, TakenHeap;
      ghost var t := i + 1;
      TakeGood(ptr[..], size[..], heap, t, nunits);
      TakeKeeps(ptr[..], size[..], heap, t, nunits);
      var q := p;
      if size[p] == nunits {
        ptr[prevp] := ptr[p];
      } else {
        size[p] := size[p] - nunits;
        q := q + size[p];
        size[q] := nunits;
      }
      freep := prevp;
      ghost var r := TakeStores(old(ptr[..]), old(size[..]), prevp, p, nunits);
      assert ptr[..] == r.0;
      assert size[..] == r.1;
      heap := TakenHeap(old(size[..]), heap, t, nunits);
      assert forall u :: u in heap.owner ==> u in old(heap).owner.Keys;
      return q + 1;
    }

    // The same, since the heap was h0 and the fields p0 and s0.
    method Found(ghost h0: Heap, ghost p0: seq<nat>, ghost s0: seq<nat>, prevp: nat, p: nat, nunits: nat, ghost i: nat)
      returns (ap: nat)
      requires Valid() && freep != NULL && nunits > 0
      requires i + 1 < |heap.ring| && heap.ring[i] == prevp != NULL && heap.ring[i + 1] == p
      requires p < size.Length && size[p] >= nunits
      requires heap.live == h0.live && Kept(h0, p0, s0, heap, ptr[..], size[..])
      modifies this`freep, this`heap, ptr, size
      ensures Valid() && freep != NULL
      ensures ap > 0 && ap - 1 !in h0.live && heap.live == h0.live + {ap - 1}
      ensures ap - 1 < size.Length && size[ap - 1] == nunits
      ensures Obtained() == old(Obtained())
      ensures Kept(h0, p0, s0, heap.(live := h0.live), ptr[..], size[..])
    {
      hide Good, NoAdjacent, Kept, Valid;
      ghost var h1, p1, s1 := heap, ptr[..], size[..];
      ap := Take(prevp, p, nunits, i);
      KeptTwice(h0, p0, s0, h1, p1, s1, heap.(live := h0.live), ptr[..], size[..]);
    }

    // malloc's refill branch: the walk restarts at the new freep, with a fitting block ahead.
    method Refill(nunits: nat) returns (p: nat, ghost f: nat, ghost big: nat)
      requires Valid() && freep != NULL && nunits > 0 && SbrkFits(nunits)
      modifies this`freep, this`brk, this`heap, ptr, size
      ensures Valid() && freep != NULL && heap.live == old(heap).live
      ensures p == NULL ==> brk + Max(nunits, MINUNITS) > ptr.Length
      ensures p == NULL ==> heap == old(heap) && ptr[..] == old(ptr[..]) && size[..] == old(size[..])
      ensures p != NULL ==>
                && p == freep && p < ptr.Length && ptr[p] < ptr.Length
                && f < |heap.ring| && heap.ring[f] == p && heap.ring[Next(heap.ring, f)] == ptr[p]
                && FitAhead(Next(heap.ring, f), f, big, nunits)
                && Obtained() == old(Obtained()) + Units(old(brk), Max(nunits, MINUNITS))
                && Kept(old(heap), old(ptr[..]), old(size[..]), heap, ptr[..], size[..])
    {
      hide Good, NoAdjacent, Units, Valid, Max, FitAhead;
      f, big := 0, 0;
      p := MoreCore(nunits);
      if p == NULL {
        return;
      }
      f := Where(p);
      RingAt(f);
      RingAt(Next(heap.ring, f));
      big :| 0 <= big < |heap.ring| && heap.ring[big] < size.Length && size[heap.ring[big]] >= nunits;
      FitStart(f, big, nunits);
    }

    // The same, since the heap was h0 and the fields p0 and s0.
    method Refilled(ghost h0: Heap, ghost p0: seq<nat>, ghost s0: seq<nat>, nunits: nat)
      returns (p: nat, ghost f: nat, ghost big: nat)
      requires Valid() && freep != NULL && nunits > 0 && SbrkFits(nunits)
      requires heap.live == h0.live && Kept(h0, p0, s0, heap, ptr[..], size[..])
      modifies this`freep, this`brk, this`heap, ptr, size
      ensures Valid() && freep != NULL && heap.live == h0.live
      ensures p == NULL ==> brk + Max(nunits, MINUNITS) > ptr.Length && heap == old(heap) && size[..] == old(size[..])
      ensures Kept(h0, p0, s0, heap, ptr[..], size[..])
      ensures p != NULL ==>
                && p == freep && p < ptr.Length && ptr[p] < ptr.Length
                && f < |heap.ring| && heap.ring[f] == p && heap.ring[Next(heap.ring, f)] == ptr[p]
                && FitAhead(Next(heap.ring, f), f, big, nunits)
      ensures Obtained() == With(old(Obtained()), p != NULL, old(brk), nunits)
    {
      hide Good, NoAdjacent, Kept, Valid, Units, Max, FitAhead, SbrkFits, With;
      ghost var h1, p1, s1 := heap, ptr[..], size[..];
      WithIs(heap.owner.Keys, brk, nunits);
      p, f, big := Refill(nunits);
      if p != NULL {
        KeptTwice(h0, p0, s0, h1, p1, s1, heap, ptr[..], size[..]);
      }
    }

    // malloc's loop, from the successor of prevp on. It stops with overflows where the source
    // would ask sbrk for a negative or too small number of bytes.
    method Walk(prevp0: nat, nunits: nat) returns (ap: nat, overflows: bool, ghost grown: bool)
      requires Valid() && freep != NULL && prevp0 == freep && nunits > 0
      modifies this`freep, this`brk, this`heap, ptr, size
      ensures Valid() && freep != NULL
      ensures overflows <==> ap == NULL && !SbrkFits(nunits)
      ensures ap == NULL ==>
                && !grown && heap.live == old(heap).live && AllSmall(heap.ring, size[..], nunits)
                && (!overflows ==> brk + Max(nunits, MINUNITS) > ptr.Length)
      ensures ap != NULL ==>
                && ap - 1 !in old(heap).live && heap.live == old(heap).live + {ap - 1}
                && ap - 1 < size.Length && size[ap - 1] == nunits
      ensures Obtained() == With(old(Obtained()), grown, old(brk), nunits)
      ensures Kept(old(heap), old(ptr[..]), old(size[..]), heap.(live := old(heap).live), ptr[..], size[..])
    {
      hide Good, NoAdjacent, Kept, Units, Valid, Max, FitAhead, SmallBehind, AllSmall, OnWalk, Distance, With, SbrkFits, Ahead;
      ghost var h0, p0, s0 := heap, ptr[..], size[..];
      var prevp := prevp0;
      grown, overflows := false, false;
      ghost var i: nat := Where(freep);
      ghost var f: nat := i; // where freep is
      ghost var big: nat := 0; // once morecore has succeeded, where a large enough block is
      NothingChanged();
      WalkAt(i, f, prevp);
      SmallStart(f, nunits);
      WithIs(h0.owner.Keys, brk, nunits);
      var p := ptr[prevp];
      while true
        invariant Valid() && freep != NULL && heap.live == h0.live && !overflows
        invariant Kept(h0, p0, s0, heap, ptr[..], size[..])
        invariant Obtained() == With(h0.owner.Keys, grown, old(brk), nunits)
        invariant !grown ==> brk == old(brk)
        invariant i < |heap.ring| && f < |heap.ring| && OnWalk(i, f, prevp, p)
        invariant !grown ==> SmallBehind(Next(heap.ring, i), f, nunits)
        invariant grown ==> FitAhead(Next(heap.ring, i), f, big, nunits)
        decreases if grown then 0 else 1, Ahead(i, f)
      {
        WalkStep(i, f, prevp, p);
        ghost var j := Next(heap.ring, i);
        if size[p] >= nunits {
          ap := Found(h0, p0, s0, prevp, p, nunits, i);
          return;
        }
        if grown {
          FitStep(j, f, big, nunits);
        } else {
          SmallStep(j, f, nunits);
        }
        if p == freep {
          assert !grown && AllSmall(heap.ring, size[..], nunits);
          if !SbrkFits(nunits) {
            LiveSame(heap, h0.live);
            return NULL, true, false;
          }
          p, f, big := Refilled(h0, p0, s0, nunits);
          if p == NULL {
            LiveSame(heap, h0.live);
            return NULL, false, false;
          }
          grown, i := true, f;
        } else {
          i := j;
        }
        WalkAt(i, f, p);
        prevp := p;
        p := ptr[p];
      }
    }

    lemma {:induction false} NothingChanged()
      requires Valid() && freep != NULL
      ensures Kept(heap, ptr[..], size[..], heap, ptr[..], size[..])
    {
    }

    lemma {:induction false} LiveSame(h: Heap, live: set<nat>)
      requires h.live == live
      ensures h.(live := live) == h
    {
    }

    // malloc. grown tells whether morecore was called and succeeded: at most once.
    method Malloc(nbytes: nat) returns (ap: nat, overflows: bool, ghost grown: bool)
      requires Valid() && nbytes < UINT
      modifies this`freep, this`brk, this`heap, ptr, size
      ensures Valid() && freep != NULL
      ensures overflows <==> ap == NULL && MAXREQUEST < nbytes <= UINT - HEADER
      ensures ap == NULL ==>
                && !grown && heap.live == old(heap).live && AllSmall(heap.ring, size[..], NUnits(nbytes))
                && (!overflows ==> brk + Max(NUnits(nbytes), MINUNITS) > ptr.Length)
      ensures ap != NULL ==>
                && ap - 1 !in old(heap).live && heap.live == old(heap).live + {ap - 1}
                && ap - 1 < size.Length && size[ap - 1] == NUnits(nbytes)
                && (HoldsBytes(size[ap - 1], nbytes) <==> nbytes <= UINT - HEADER)
                && (nbytes <= UINT - HEADER ==> nbytes <= (size[ap - 1] - 1) * 8 < nbytes + 8)
      ensures Obtained() == With(old(Obtained()), grown, old(brk), NUnits(nbytes))
      ensures Kept(old(heap), old(ptr[..]), old(size[..]), heap.(live := old(heap).live), ptr[..], size[..])
    {
      hide Good, NoAdjacent, Kept, Units, NUnits, Valid, Max, AllSmall, With, SbrkFits, HoldsBytes;
      ghost var h0, p0, s0 := heap, ptr[..], size[..];
      LargeRequests(nbytes);
      var nunits := NUnits(nbytes);
      var prevp := Start();
      ghost var h1, p1, s1 := heap, ptr[..], size[..];
      ap, overflows, grown := Walk(prevp, nunits);
      KeptTwice(h0, p0, s0, h1, p1, s1, heap.(live := h0.live), ptr[..], size[..]);
    }

    // The walk stands at position i: p is the successor of prevp, and freep is at f.
    ghost predicate OnWalk(i: nat, f: nat, prevp: nat, p: nat)
      reads this
    {
      && i < |heap.ring| && f < |heap.ring| && prevp == heap.ring[i] && p == heap.ring[Next(heap.ring, i)]
      && heap.ring[f] == freep
    }

    // A block of n units will be met on the way from position j to position f.
    ghost predicate FitAhead(j: nat, f: nat, big: nat, n: nat)
      reads this, size
    {
      && j < |heap.ring| && f < |heap.ring| && big < |heap.ring|
      && heap.ring[big] < size.Length && size[heap.ring[big]] >= n
      && Distance(j, big) <= Distance(j, f)
    }

    // No free block has n units.
    static ghost predicate AllSmall(ring: seq<nat>, size: seq<nat>, n: nat) {
      forall k :: 0 <= k < |ring| ==> ring[k] < |size| && size[ring[k]] < n
    }

    // Only blocks between position j and position f may have n units.
    ghost predicate SmallBehind(j: nat, f: nat, n: nat)
      reads this, size
    {
      forall k: nat :: k < |heap.ring| && Distance(j, k) > Distance(j, f) ==>
        heap.ring[k] < size.Length && size[heap.ring[k]] < n
    }

    lemma {:induction false} SmallStart(f: nat, n: nat)
      requires f < |heap.ring|
      ensures SmallBehind(Next(heap.ring, f), f, n)
    {
    }

    lemma {:induction false} SmallStep(j: nat, f: nat, n: nat)
      requires SmallBehind(j, f, n) && j < |heap.ring| && f < |heap.ring|
      requires heap.ring[j] < size.Length && size[heap.ring[j]] < n
      ensures j != f ==> SmallBehind(Next(heap.ring, j), f, n)
      ensures j == f ==> AllSmall(heap.ring, size[..], n)
    {
    }

    // What a turn of the loop may use, and where it leads.
    lemma {:induction false} WalkStep(i: nat, f: nat, prevp: nat, p: nat)
      requires Valid() && freep != NULL && OnWalk(i, f, prevp, p)
      ensures ptr.Length == size.Length && prevp != NULL && p < ptr.Length && Next(heap.ring, i) < |heap.ring|
      ensures heap.ring[i] == prevp && heap.ring[Next(heap.ring, i)] == p && heap.ring[f] == freep
      ensures p == freep <==> Next(heap.ring, i) == f
      ensures Next(heap.ring, i) != f ==> Ahead(Next(heap.ring, i), f) < Ahead(i, f)
      ensures size[p] > 0 ==> i + 1 < |heap.ring| && heap.ring[i + 1] == p
    {
      RingAt(i);
      RingAt(Next(heap.ring, i));
      if p == freep {
        RingInjective(Next(heap.ring, i), f);
      }
    }

    lemma {:induction false} WalkAt(i: nat, f: nat, prevp: nat)
      requires Valid() && freep != NULL && i < |heap.ring| && f < |heap.ring|
      requires heap.ring[i] == prevp && heap.ring[f] == freep
      ensures prevp < ptr.Length && OnWalk(i, f, prevp, ptr[prevp])
    {
      RingAt(i);
    }

    // Past a block that is too small, the fitting one is still ahead.
    lemma {:induction false} FitStep(j: nat, f: nat, big: nat, n: nat)
      requires FitAhead(j, f, big, n) && heap.ring[j] < size.Length && size[heap.ring[j]] < n
      ensures j != f && Next(heap.ring, j) < |heap.ring| && FitAhead(Next(heap.ring, j), f, big, n)
    {
    }

    // A full turn meets every block.
    lemma {:induction false} FitStart(f: nat, big: nat, n: nat)
      requires f < |heap.ring| && big < |heap.ring| && heap.ring[big] < size.Length && size[heap.ring[big]] >= n
      ensures FitAhead(Next(heap.ring, f), f, big, n)
    {
    }

    lemma {:induction false} Where(p: nat) returns (i: nat)
      requires Valid() && freep != NULL && p == freep
      ensures i < |heap.ring| && heap.ring[i] == p
    {
      i :| 0 <= i < |heap.ring| && heap.ring[i] == p;
    }

    // One step of the ring.
    lemma {:induction false} RingAt(i: nat)
      requires Valid() && freep != NULL && i < |heap.ring|
      ensures ptr.Length == size.Length && NULL != heap.ring[i] < ptr.Length
      ensures Next(heap.ring, i) < |heap.ring| && ptr[heap.ring[i]] == heap.ring[Next(heap.ring, i)]
      ensures size[heap.ring[i]] > 0 ==> i > 0
    {
      assert heap.ring[i] in heap.ring;
    }

    lemma {:induction false} RingInjective(i: nat, j: nat)
      requires Valid() && freep != NULL && i < |heap.ring| && j < |heap.ring| && heap.ring[i] == heap.ring[j]
      ensures i == j
    {
    }
  }
}
