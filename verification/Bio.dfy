// The buffer cache of bio.c over the synchronous disk of memide.c: NBUF buffers in a doubly
// linked ring in most-recently-used order, with the BUSY, VALID and DIRTY flags.
module Bio {
  import opened Blocks
  import opened MemIde

  const NBUF: nat := 30
  const HEAD: nat := NBUF // index of bcache.head among the links
  // The outcome of one pass of bget with bcache.lock held.
  datatype Bget = Got(i: nat) | Sleep(on: nat) | NoBuffers

  // ----- Rings -----

  // Distinct buffers.
  ghost predicate AllDifferent(order: seq<nat>) {
    && (forall i :: 0 <= i < |order| ==> order[i] < NBUF)
    && (forall i, j :: 0 <= i < j < |order| ==> order[i] != order[j])
  }

  // The node at position i of the ring; position 0 is the head.
  function Node(order: seq<nat>, i: nat): nat
    requires i <= |order|
  {
    if i == 0 then HEAD else order[i - 1]
  }

  // next and prev link the head, order[0], .., order[last] into one ring.
  ghost predicate Linked(next: seq<nat>, prev: seq<nat>, order: seq<nat>) {
    && |next| == |prev| == NBUF + 1 && AllDifferent(order)
    && (forall i :: 0 <= i < |order| ==> next[Node(order, i)] == Node(order, i + 1))
    && (forall i :: 0 <= i < |order| ==> prev[Node(order, i + 1)] == Node(order, i))
    && next[Node(order, |order|)] == HEAD && prev[HEAD] == Node(order, |order|)
  }

  ghost function Without(order: seq<nat>, k: nat): seq<nat>
    requires k < |order|
  {
    order[..k] + order[k + 1..]
  }

  lemma {:induction false} WithoutAt(order: seq<nat>, k: nat)
    requires k < |order|
    ensures |Without(order, k)| == |order| - 1
    ensures forall i :: 0 <= i < |order| - 1 ==> Without(order, k)[i] == order[if i < k then i else i + 1]
  {
  }

  lemma {:induction false} NodesDiffer(order: seq<nat>, i: nat, j: nat)
    requires AllDifferent(order) && i < j <= |order|
    ensures Node(order, i) != Node(order, j) && Node(order, j) < NBUF
  {
  }

  lemma {:induction false} WithoutNodes(order: seq<nat>, k: nat)
    requires k < |order|
    ensures |Without(order, k)| == |order| - 1
    ensures forall i :: 0 <= i < |order| ==> Node(Without(order, k), i) == Node(order, if i <= k then i else i + 1)
  {
    WithoutAt(order, k);
    hide Without;
  }

  // b->next->prev = b->prev; b->prev->next = b->next;
  lemma {:induction false} UnlinkKeeps(next: seq<nat>, prev: seq<nat>, order: seq<nat>, k: nat)
    requires Linked(next, prev, order) && k < |order|
    ensures order[k] < NBUF && next[order[k]] <= NBUF && prev[order[k]] <= NBUF
    ensures Linked(next[prev[order[k]] := next[order[k]]], prev[next[order[k]] := prev[order[k]]], Without(order, k))
  {
    hide Without;
    WithoutNodes(order, k);
    WithoutAt(order, k);
    assert Node(order, k + 1) == order[k];
    assert prev[order[k]] == Node(order, k) && next[order[k]] == After(order, k);
    UnlinkNexts(next, prev, order, k);
    UnlinkPrevs(next, prev, order, k, prev[After(order, k) := Node(order, k)], Without(order, k));
    if k + 1 < |order| {
      NodesDiffer(order, k, |order|);
    }
  }

  // The node after order[k].
  function After(order: seq<nat>, k: nat): nat
    requires k < |order|
  {
    if k + 1 < |order| then Node(order, k + 2) else HEAD
  }

  lemma {:induction false} UnlinkNexts(next: seq<nat>, prev: seq<nat>, order: seq<nat>, k: nat)
    requires Linked(next, prev, order) && k < |order|
    ensures Node(order, k) < |next|
    ensures forall i :: 0 <= i < |order| - 1 ==>
              Node(Without(order, k), i) < |next|
              && next[Node(order, k) := After(order, k)][Node(Without(order, k), i)] == Node(Without(order, k), i + 1)
  {
    hide Without;
    WithoutNodes(order, k);
    assert k < |order| ==> next[Node(order, k)] == Node(order, k + 1);
    forall i | 0 <= i < |order| - 1
      ensures Node(Without(order, k), i) < |next|
              && next[Node(order, k) := After(order, k)][Node(Without(order, k), i)] == Node(Without(order, k), i + 1)
    {
      if i < k {
        NodesDiffer(order, i, k);
      } else if i > k {
        NodesDiffer(order, k, i + 1);
      }
    }
  }

  lemma {:induction false} NodeBound(next: seq<nat>, prev: seq<nat>, order: seq<nat>, i: nat)
    requires Linked(next, prev, order) && i <= |order|
    ensures Node(order, i) <= NBUF
  {
    if i > 0 {
      NodesDiffer(order, 0, i);
    }
  }

  lemma {:induction false} UnlinkPrevs(next: seq<nat>, prev: seq<nat>, order: seq<nat>, k: nat, prev': seq<nat>, rest: seq<nat>)
    requires Linked(next, prev, order) && k < |order| && After(order, k) < |prev| && rest == Without(order, k)
    requires prev' == prev[After(order, k) := Node(order, k)] && |rest| == |order| - 1
    ensures forall i :: 0 <= i <= |rest| ==> Node(rest, i) < |prev'|
    ensures forall i :: 0 <= i < |rest| ==> prev'[Node(rest, i + 1)] == Node(rest, i)
  {
    hide Without;
    WithoutNodes(order, k);
    forall i | 0 <= i <= |rest| ensures Node(rest, i) < |prev'| {
      assert Node(order, if i <= k then i else i + 1) <= NBUF by { NodeBound(next, prev, order, if i <= k then i else i + 1); }
    }
    if k + 1 < |order| {
      NodesDiffer(order, k, k + 2);
    }
    forall i | 0 <= i < |rest|
      ensures prev'[Node(rest, i + 1)] == Node(rest, i)
    {
      if i + 1 <= k {
        if k + 1 < |order| {
          NodesDiffer(order, i + 1, k + 2);
        }
      } else {
        if i + 2 > k + 2 {
          NodesDiffer(order, k + 2, i + 2);
        }
      }
    }
  }

  // b->next = head.next; b->prev = &head; head.next->prev = b; head.next = b;
  lemma {:induction false} LinkFrontKeeps(next: seq<nat>, prev: seq<nat>, order: seq<nat>, b: nat)
    requires Linked(next, prev, order) && b < NBUF && b !in order
    ensures next[HEAD] <= NBUF
    ensures Linked(next[b := next[HEAD]][HEAD := b], prev[b := HEAD][next[HEAD] := b], [b] + order)
  {
    var order' := [b] + order;
    var first := if order == [] then HEAD else order[0];
    assert order != [] ==> next[Node(order, 0)] == Node(order, 1);
    assert next[HEAD] == first;
    var next', prev' := next[b := first][HEAD := b], prev[b := HEAD][first := b];
    forall i | 2 <= i <= |order'| ensures Node(order', i) == Node(order, i - 1) {
    }
    forall i | 0 <= i < |order'| ensures next'[Node(order', i)] == Node(order', i + 1) {
      if i >= 2 {
        NodesDiffer(order, 0, i - 1);
      }
    }
    forall i | 0 <= i < |order'| ensures prev'[Node(order', i + 1)] == Node(order', i) {
      if i >= 2 {
        NodesDiffer(order, 1, i);
      }
    }
  }

  // All NBUF buffers, each once.
  ghost predicate IsOrder(order: seq<nat>) {
    |order| == NBUF && AllDifferent(order)
  }

  // b moves to the front.
  ghost function MoveFront(order: seq<nat>, k: nat): seq<nat>
    requires k < |order|
  {
    [order[k]] + Without(order, k)
  }

  lemma {:induction false} MoveFrontIsOrder(order: seq<nat>, k: nat)
    requires IsOrder(order) && k < NBUF
    ensures IsOrder(MoveFront(order, k)) && order[k] !in Without(order, k)
    ensures multiset(MoveFront(order, k)) == multiset(order)
  {
    var r := MoveFront(order, k);
    assert order == order[..k] + [order[k]] + order[k + 1..];
    forall i | 0 <= i < NBUF ensures r[i] == (if i == 0 then order[k] else if i <= k then order[i - 1] else order[i]) {
    }
  }

  // Every buffer is somewhere in the ring: n distinct numbers below n are all of them.
  lemma {:induction false} Everywhere(order: seq<nat>, n: nat, b: nat)
    requires |order| == n && b < n
    requires forall i :: 0 <= i < |order| ==> order[i] < n
    requires forall i, j :: 0 <= i < j < |order| ==> order[i] != order[j]
    ensures b in order
    decreases n
  {
    if b !in order {
      var m := n - 1;
      // replace n - 1, if it occurs, by b; then drop the last element
      var swapped := seq(n, i requires 0 <= i < n => if order[i] == m then b else order[i]);
      if b == m {
        Everywhere(order[..m], m, order[m]);
      } else {
        Everywhere(swapped[..m], m, swapped[m]);
      }
    }
  }

  // ----- The cache -----

  // What the cache and the disk must satisfy, for all buffers. view holds for every sector the
  // data last recorded for it, by a disk write or by log_write.
  ghost predicate BufOk(b: Buf, disk: DiskMap, view: DiskMap) {
    var k := KeyOf(b);
    if b.dev == NODEV then !b.busy && !b.valid && !b.dirty
    else
      && k in disk && k in view
      && (b.valid && !b.busy ==> b.data == view[k])
      && (!b.dirty ==> view[k] == disk[k])
      && (b.dirty ==> b.valid)
  }

  // No two buffers hold the same sector.
  ghost predicate Unique(buf: seq<Buf>) {
    forall i, j :: 0 <= i < j < |buf| && buf[i].dev == buf[j].dev && buf[i].sector == buf[j].sector ==>
      buf[i].dev == NODEV
  }

  ghost predicate Cached(buf: seq<Buf>, k: Key) {
    exists i :: 0 <= i < |buf| && KeyOf(buf[i]) == k
  }

  ghost predicate CacheOk(buf: seq<Buf>, disk: DiskMap, view: DiskMap) {
    && |buf| == NBUF && Unique(buf) && view.Keys == disk.Keys
    && (forall i :: 0 <= i < NBUF ==> BufOk(buf[i], disk, view))
    && (forall k :: k in disk && k.dev != NODEV && !Cached(buf, k) ==> view[k] == disk[k])
  }

  class BCache {
    const buf: array<Buf>
    const next: array<nat>
    const prev: array<nat>
    var disk: DiskMap
    ghost var view: DiskMap
    ghost var order: seq<nat> // most recently used first

    ghost predicate Valid()
      reads this, buf, next, prev
    {
      && buf.Length == NBUF && next.Length == prev.Length == NBUF + 1 && next != prev
      && IsOrder(order) && Linked(next[..], prev[..], order)
      && CacheOk(buf[..], disk, view)
    }

    // binit, on a disk with the given content.
    constructor (disk: DiskMap)
      ensures Valid() && this.disk == disk == view
      ensures forall j :: 0 <= j < NBUF ==> order[j] == NBUF - 1 - j && KeyOf(buf[j]) == Key(NODEV, 0)
    {
      this.disk, view, order := disk, disk, [];
      buf := new Buf[NBUF](i => Buf(NODEV, 0, false, false, false, ZeroBlock()));
      next, prev := new nat[NBUF + 1](i => 0), new nat[NBUF + 1](i => 0);
      new;
      prev[HEAD], next[HEAD] := HEAD, HEAD;
      var b: nat := 0;
      while b < NBUF
        invariant b <= NBUF && |order| == b && Linked(next[..], prev[..], order)
        invariant forall j :: 0 <= j < b ==> order[j] == b - 1 - j
        invariant forall i :: 0 <= i < NBUF ==> buf[i] == Buf(NODEV, 0, false, false, false, ZeroBlock())
        invariant view == this.disk == disk
      {
        InsertFront(b);
        b := b + 1;
      }
      assert forall k :: k in disk && k.dev != NODEV ==> !Cached(buf[..], k);
    }

    // b->next = head.next; b->prev = &head; head.next->prev = b; head.next = b;
    method InsertFront(b: nat)
      requires next.Length == prev.Length == NBUF + 1 && next != prev
      requires Linked(next[..], prev[..], order) && b < NBUF && b !in order
      modifies this`order, next, prev
      ensures order == [b] + old(order) && Linked(next[..], prev[..], order)
    {
      ghost var n: seq<nat>, p: seq<nat> := next[..], prev[..];
      LinkFrontKeeps(n, p, order, b);
      next[b] := next[HEAD];
      prev[b] := HEAD;
      prev[next[HEAD]] := b;
      next[HEAD] := b;
      order := [b] + order;
      assert next[..] == n[b := n[HEAD]][HEAD := b];
      assert prev[..] == p[b := HEAD][n[HEAD] := b];
    }

    // One pass of bget with bcache.lock held. A hit on a busy buffer sleeps; a miss recycles
    // the least recently used buffer that is neither busy nor dirty.
    method Get(dev: nat, sector: nat) returns (r: Bget)
      requires Valid() && dev != NODEV && Key(dev, sector) in disk
      modifies buf
      ensures Valid()
      ensures !r.Got? ==> buf[..] == old(buf[..])
      ensures r.NoBuffers? ==> !Cached(buf[..], Key(dev, sector)) && AllTaken(buf[..])
      ensures r.Sleep? ==> r.on < NBUF && KeyOf(buf[r.on]) == Key(dev, sector) && buf[r.on].busy
      ensures r.Got? ==> r.i < NBUF && Taken(old(buf[..]), buf[..], r.i, Key(dev, sector))
      ensures r.Got? && !Cached(old(buf[..]), Key(dev, sector)) ==> LeastRecent(old(buf[..]), r.i)
    {
      hide Linked, CacheOk, Taken;
      ghost var was, k := buf[..], Key(dev, sector);
      RingNext(0);
      var b := next[HEAD];
      ghost var p: nat := 0;
      // from the most recently used end, a buffer of this sector
      while b != HEAD
        invariant p <= NBUF && b == (if p < NBUF then order[p] else HEAD)
        invariant buf[..] == was && Valid()
        invariant forall q :: 0 <= q < p ==> KeyOf(was[order[q]]) != k
        decreases NBUF - p
      {
        RingNext(p);
        if buf[b].dev == dev && buf[b].sector == sector {
          if !buf[b].busy {
            HitOk(was, disk, view, b, k);
            buf[b] := buf[b].(busy := true);
            assert buf[..] == was[b := was[b].(busy := true)];
            return Got(b);
          }
          return Sleep(b);
        }
        b := next[b];
        p := p + 1;
      }
      NotCached(was, k);
      // from the other end, a buffer that nobody holds and the log does not pin
      RingNext(0);
      b := prev[HEAD];
      p := NBUF;
      while b != HEAD
        invariant p <= NBUF && b == (if p > 0 then order[p - 1] else HEAD)
        invariant buf[..] == was && Valid()
        invariant forall q :: p <= q < NBUF ==> was[order[q]].busy || was[order[q]].dirty
        decreases p
      {
        RingNext(p - 1);
        if !buf[b].busy && !buf[b].dirty {
          RecycleOk(was, disk, view, b, k);
          buf[b] := Buf(dev, sector, true, false, false, buf[b].data);
          assert buf[..] == was[b := Buf(dev, sector, true, false, false, was[b].data)];
          return Got(b);
        }
        b := prev[b];
        p := p - 1;
      }
      forall i | 0 <= i < NBUF ensures was[i].busy || was[i].dirty {
        Everywhere(order, NBUF, i);
      }
      return NoBuffers;
    }

    lemma {:induction false} NotCached(was: seq<Buf>, k: Key)
      requires |was| == NBUF && IsOrder(order)
      requires forall q :: 0 <= q < NBUF ==> KeyOf(was[order[q]]) != k
      ensures !Cached(was, k)
    {
      forall i | 0 <= i < NBUF ensures KeyOf(was[i]) != k {
        Everywhere(order, NBUF, i);
      }
    }

    lemma {:induction false} RingNext(p: nat)
      requires Valid() && p < NBUF
      ensures order[p] < NBUF && next[order[p]] == (if p + 1 < NBUF then order[p + 1] else HEAD)
      ensures prev[order[p]] == (if p > 0 then order[p - 1] else HEAD)
      ensures next[HEAD] == order[0] && prev[HEAD] == order[NBUF - 1]
    {
      assert Node(order, p + 1) == order[p];
      assert p + 1 < NBUF ==> next[Node(order, p + 1)] == Node(order, p + 2);
      assert prev[Node(order, p + 1)] == Node(order, p);
      assert next[Node(order, 0)] == Node(order, 1);
    }

    // iderw of memide.c.
    method Iderw(i: nat)
      requires buf.Length == NBUF && i < NBUF && CanSync(buf[i], disk)
      modifies buf, this`disk
      ensures (buf[i], disk) == Sync(old(buf[i]), old(disk))
      ensures buf[..] == old(buf[..])[i := buf[i]]
      // a dirty buffer is written, another one read, and then it is valid and clean
      ensures buf[i] == old(buf[i]).(valid := true, dirty := false, data := buf[i].data)
      ensures if old(buf[i]).dirty then buf[i].data == old(buf[i]).data && disk == old(disk)[KeyOf(buf[i]) := buf[i].data]
              else buf[i].data == disk[KeyOf(buf[i])] && disk == old(disk)
    {
      var b := buf[i];
      if b.dirty {
        buf[i] := b.(dirty := false);
        disk := disk[KeyOf(b) := b.data];
      } else {
        buf[i] := b.(data := disk[KeyOf(b)]);
      }
      buf[i] := buf[i].(valid := true);
    }

    // bread: a held buffer with the data last recorded for the sector.
    method Bread(dev: nat, sector: nat) returns (r: Bget)
      requires Valid() && dev != NODEV && Key(dev, sector) in disk
      modifies buf, this`disk
      ensures Valid() && disk == old(disk)
      ensures !r.Got? ==> buf[..] == old(buf[..])
      ensures r.Got? ==>
                && r.i < NBUF && KeyOf(buf[r.i]) == Key(dev, sector)
                && buf[r.i].busy && buf[r.i].valid && buf[r.i].data == view[Key(dev, sector)]
                && forall j :: 0 <= j < NBUF && j != r.i ==> buf[j] == old(buf[j])
    {
      hide Linked, CacheOk;
      r := Get(dev, sector);
      if r.Got? {
        ghost var now := buf[..];
        TakenOk(old(buf[..]), now, disk, view, r.i, Key(dev, sector));
        if !buf[r.i].valid {
          ReadOk(now, disk, view, r.i);
          Iderw(r.i);
        }
      }
    }

    // The holder of a buffer changes its data.
    method Change(i: nat, data: Block)
      requires Valid() && i < NBUF && buf[i].busy
      modifies buf
      ensures Valid() && buf[..] == old(buf[..])[i := old(buf[i]).(data := data)]
    {
      hide Linked;
      SameKeys(buf[..], buf[..][i := buf[i].(data := data)]);
      buf[i] := buf[i].(data := data);
      assert buf[..] == old(buf[..])[i := old(buf[i]).(data := data)];
    }

    // bwrite: record the data of a held buffer and write it to disk.
    method Bwrite(i: nat)
      requires Valid() && i < NBUF && buf[i].busy
      modifies buf, this`disk, this`view
      ensures Valid() && buf[..] == old(buf[..])[i := old(buf[i]).(dirty := false, valid := true)]
      ensures disk == old(disk)[KeyOf(buf[i]) := buf[i].data]
      ensures view == old(view)[KeyOf(buf[i]) := buf[i].data]
    {
      hide Linked, CacheOk;
      WriteOk(buf[..], disk, view, i);
      buf[i] := buf[i].(dirty := true);
      Iderw(i);
      view := view[KeyOf(buf[i]) := buf[i].data];
      assert buf[..] == old(buf[..])[i := old(buf[i]).(dirty := false, valid := true)];
    }

    // The end of log_write: record the data of a held buffer and pin it in the cache.
    method Pin(i: nat)
      requires Valid() && i < NBUF && buf[i].busy && buf[i].valid
      modifies buf, this`view
      ensures Valid() && buf[..] == old(buf[..])[i := old(buf[i]).(dirty := true)]
      ensures view == old(view)[KeyOf(buf[i]) := buf[i].data]
    {
      hide Linked, CacheOk;
      PinOk(buf[..], disk, view, i);
      buf[i] := buf[i].(dirty := true);
      view := view[KeyOf(buf[i]) := buf[i].data];
      assert buf[..] == old(buf[..])[i := old(buf[i]).(dirty := true)];
    }

    // brelse: the holder has recorded its changes and lets the buffer go; it becomes the most
    // recently used one.
    method Brelse(i: nat)
      requires Valid() && i < NBUF && buf[i].busy
      requires buf[i].valid ==> buf[i].data == view[KeyOf(buf[i])]
      modifies buf, next, prev, this`order
      ensures Valid() && buf[..] == old(buf[..])[i := old(buf[i]).(busy := false)]
      ensures exists k :: 0 <= k < NBUF && old(order)[k] == i && order == MoveFront(old(order), k)
      ensures exists k :: 0 <= k < NBUF && old(order)[k] == i && order == [i] + (old(order)[..k] + old(order)[k + 1..])
    {
      hide CacheOk;
      Everywhere(order, NBUF, i);
      ghost var k: nat :| k < NBUF && order[k] == i;
      HeldOk(buf[..], disk, view, i);
      ReleaseOk(buf[..], disk, view, i);
      UnlinkKeeps(next[..], prev[..], order, k);
      MoveFrontIsOrder(order, k);
      ghost var n: seq<nat>, p: seq<nat> := next[..], prev[..];
      prev[next[i]] := prev[i];
      next[prev[i]] := next[i];
      assert next[..] == n[p[i] := n[i]];
      assert prev[..] == p[n[i] := p[i]];
      order := Without(order, k);
      InsertFront(i);
      buf[i] := buf[i].(busy := false);
      assert buf[..] == old(buf[..])[i := old(buf[i]).(busy := false)];
    }

    // Buffer i is the last one of the ring, in buf, that is neither busy nor dirty.
    ghost predicate LeastRecent(buf: seq<Buf>, i: nat)
      requires |buf| == NBUF && IsOrder(order)
      reads this`order
    {
      exists k :: 0 <= k < NBUF && order[k] == i && !buf[i].busy && !buf[i].dirty
        && forall q :: k < q < NBUF ==> buf[order[q]].busy || buf[order[q]].dirty
    }
  }

  // Every buffer is in use.
  ghost predicate AllTaken(buf: seq<Buf>) {
    forall i :: 0 <= i < |buf| ==> buf[i].busy || buf[i].dirty
  }

  // A hit.
  lemma {:induction false} HitOk(was: seq<Buf>, disk: DiskMap, view: DiskMap, b: nat, k: Key)
    requires CacheOk(was, disk, view) && b < NBUF && KeyOf(was[b]) == k && !was[b].busy
    requires k.dev != NODEV
    ensures CacheOk(was[b := was[b].(busy := true)], disk, view)
    ensures Taken(was, was[b := was[b].(busy := true)], b, k)
  {
    SameKeys(was, was[b := was[b].(busy := true)]);
  }

  // Buffers for the same sectors.
  lemma {:induction false} SameKeys(was: seq<Buf>, now: seq<Buf>)
    requires |now| == |was|
    requires forall i :: 0 <= i < |was| ==> now[i].dev == was[i].dev && now[i].sector == was[i].sector
    ensures Unique(was) ==> Unique(now)
    ensures forall k :: Cached(now, k) <==> Cached(was, k)
  {
    forall k ensures Cached(now, k) <==> Cached(was, k) {
      if i :| 0 <= i < |was| && KeyOf(was[i]) == k {
        assert KeyOf(now[i]) == k;
      }
      if i :| 0 <= i < |now| && KeyOf(now[i]) == k {
        assert KeyOf(was[i]) == k;
      }
    }
  }

  // A miss: the buffer's old content is already on disk.
  lemma {:induction false} RecycleOk(was: seq<Buf>, disk: DiskMap, view: DiskMap, b: nat, k: Key)
    requires CacheOk(was, disk, view) && b < NBUF && !was[b].busy && !was[b].dirty
    requires k.dev != NODEV && k in disk && !Cached(was, k)
    ensures CacheOk(was[b := Buf(k.dev, k.sector, true, false, false, was[b].data)], disk, view)
    ensures Taken(was, was[b := Buf(k.dev, k.sector, true, false, false, was[b].data)], b, k)
  {
    var now := was[b := Buf(k.dev, k.sector, true, false, false, was[b].data)];
    assert forall i :: 0 <= i < NBUF ==> KeyOf(was[i]) != k;
    forall x | x in disk && x.dev != NODEV && !Cached(now, x) ensures view[x] == disk[x] {
      if i :| 0 <= i < NBUF && KeyOf(was[i]) == x {
        assert i != b ==> KeyOf(now[i]) == x;
        assert BufOk(was[b], disk, view);
      }
    }
  }

  lemma {:induction false} TakenOk(was: seq<Buf>, now: seq<Buf>, disk: DiskMap, view: DiskMap, i: nat, k: Key)
    requires CacheOk(was, disk, view) && CacheOk(now, disk, view) && Taken(was, now, i, k) && k in disk && k.dev != NODEV
    ensures i < NBUF && now[i].busy && KeyOf(now[i]) == k && k in view
    ensures now[i].valid ==> now[i].data == view[k]
  {
    assert BufOk(was[i], disk, view);
  }

  lemma {:induction false} HeldOk(was: seq<Buf>, disk: DiskMap, view: DiskMap, i: nat)
    requires CacheOk(was, disk, view) && i < NBUF && was[i].busy
    ensures KeyOf(was[i]) in disk && KeyOf(was[i]) in view && was[i].dev != NODEV
    ensures was[i].dirty ==> was[i].valid
  {
    assert BufOk(was[i], disk, view);
  }

  // Reading an invalid buffer brings in what was last recorded.
  lemma {:induction false} ReadOk(was: seq<Buf>, disk: DiskMap, view: DiskMap, i: nat)
    requires CacheOk(was, disk, view) && i < NBUF && was[i].busy && !was[i].valid
    ensures CanSync(was[i], disk) && Sync(was[i], disk).1 == disk
    ensures Sync(was[i], disk).0.data == view[KeyOf(was[i])]
    ensures CacheOk(was[i := Sync(was[i], disk).0], disk, view)
  {
    assert BufOk(was[i], disk, view);
    SameKeys(was, was[i := Sync(was[i], disk).0]);
  }

  lemma {:induction false} WriteOk(was: seq<Buf>, disk: DiskMap, view: DiskMap, i: nat)
    requires CacheOk(was, disk, view) && i < NBUF && was[i].busy
    ensures var k := KeyOf(was[i]);
            && k in disk && k in view
            && CacheOk(was[i := was[i].(dirty := false, valid := true)],
                       disk[k := was[i].data], view[k := was[i].data])
  {
    assert BufOk(was[i], disk, view);
    SameKeys(was, was[i := was[i].(dirty := false, valid := true)]);
  }

  lemma {:induction false} PinOk(was: seq<Buf>, disk: DiskMap, view: DiskMap, i: nat)
    requires CacheOk(was, disk, view) && i < NBUF && was[i].busy && was[i].valid
    ensures KeyOf(was[i]) in view
    ensures CacheOk(was[i := was[i].(dirty := true)], disk, view[KeyOf(was[i]) := was[i].data])
  {
    assert BufOk(was[i], disk, view);
    SameKeys(was, was[i := was[i].(dirty := true)]);
    assert Cached(was, KeyOf(was[i]));
  }

  lemma {:induction false} ReleaseOk(was: seq<Buf>, disk: DiskMap, view: DiskMap, i: nat)
    requires CacheOk(was, disk, view) && i < NBUF && was[i].busy
    requires was[i].valid ==> KeyOf(was[i]) in view && was[i].data == view[KeyOf(was[i])]
    ensures CacheOk(was[i := was[i].(busy := false)], disk, view)
  {
    assert BufOk(was[i], disk, view);
    SameKeys(was, was[i := was[i].(busy := false)]);
  }

  // now is was, except that the caller holds buffer i for sector k: either the buffer that
  // cached it, or one that was neither busy nor dirty and has forgotten its old content.
  ghost predicate Taken(was: seq<Buf>, now: seq<Buf>, i: nat, k: Key) {
    && i < |was| == |now| && !was[i].busy
    && now == was[i := now[i]]
    && if Cached(was, k) then KeyOf(was[i]) == k && now[i] == was[i].(busy := true)
       else !was[i].dirty && now[i] == Buf(k.dev, k.sector, true, false, false, was[i].data)
  }

  function ZeroBlock(): Block {
    seq(BSIZE, i => 0)
  }
}
