// Files as byte sequences, and how block allocation and block writes act on them.
module FsFiles {
  import opened Blocks
  import opened FsState
  import opened FsBlocks

  // ----- Meaning of a file -----

  // The bytes of inode i, up to its size.
  function Contents(s: State, i: nat): (r: seq<Byte>)
    requires i < |s.inodes| && s.inodes[i].size <= MAXFILE * BSIZE
    ensures |r| == s.inodes[i].size
  {
    seq(s.inodes[i].size, o requires 0 <= o < s.inodes[i].size => FileBlock(s, i, o / BSIZE)[o % BSIZE])
  }

  // Blocks that a file of this size occupies.
  function BlockCount(size: nat): nat {
    (size + BSIZE - 1) / BSIZE
  }

  // Exactly the blocks below n are mapped, and the indirect block is there if they need it.
  ghost predicate MapsExactly(s: State, i: nat, n: nat)
    requires i < |s.inodes|
  {
    && n <= MAXFILE
    && (forall bn :: 0 <= bn < MAXFILE ==> (Addr(s, i, DataSlot(bn)) != 0 <==> bn < n))
    && (Addr(s, i, NDIRECT) != 0 <==> n > NDIRECT)
  }

  // The shape every inode has between operations.
  ghost predicate Shaped(s: State, i: nat)
    requires i < |s.inodes|
  {
    s.inodes[i].size <= MAXFILE * BSIZE && MapsExactly(s, i, BlockCount(s.inodes[i].size))
  }

  // The disk inode is the cached one.
  ghost predicate OnDisk(g: Super, s: State, i: nat)
    requires i < |s.inodes|
  {
    g.InodeBlock(i) < |s.view| && DiskInode(g, s.view, i) == s.inodes[i]
  }

  // Between operations: ownership and bitmap in order, every file shaped and on disk.
  ghost predicate Settled(g: Super, s: State, owner: Owners) {
    && Good(g, s, owner)
    && (forall i :: 0 <= i < |s.inodes| ==> Shaped(s, i))
    && (forall i :: 0 <= i < |s.inodes| ==> OnDisk(g, s, i))
  }

  // Below its size, a shaped file maps every block: reading never allocates.
  lemma {:induction false} MappedBelowSize(g: Super, s: State, owner: Owners, i: nat, o: nat)
    requires Good(g, s, owner) && i < |s.inodes| && Shaped(s, i) && o < s.inodes[i].size
    ensures o / BSIZE < MAXFILE && Addr(s, i, DataSlot(o / BSIZE)) != 0
    ensures Addr(s, i, DataSlot(o / BSIZE)) < |s.view|
    ensures s.view[Addr(s, i, DataSlot(o / BSIZE))] == FileBlock(s, i, o / BSIZE)
  {
    Owner(g, s, owner, i, DataSlot(o / BSIZE));
  }

  // The bytes of a file, from the raw blocks: the first twelve blocks are those that addrs names,
  // the others those that the 32-bit words, low byte first, of block addrs[12] name.
  lemma {:induction false} ContentsAt(g: Super, s: State, owner: Owners, i: nat, o: nat)
    requires Good(g, s, owner) && i < |s.inodes| && Shaped(s, i) && o < s.inodes[i].size
    ensures var addrs, bn := s.inodes[i].addrs, o / 512;
            if bn < 12 then 0 < addrs[bn] < |s.view| && Contents(s, i)[o] == s.view[addrs[bn]][o % 512]
            else
              && bn < 140 && 0 < addrs[12] < |s.view|
              && var a := Bytes4(s.view[addrs[12]], 4 * (bn - 12));
                 0 < a < |s.view| && Contents(s, i)[o] == s.view[a][o % 512]
  {
    MappedBelowSize(g, s, owner, i, o);
    if o / BSIZE >= NDIRECT {
      Owner(g, s, owner, i, NDIRECT);
    }
  }

  // A chunk of a file that lies in one block.
  lemma {:induction false} ReadChunk(s: State, i: nat, o: nat, m: nat)
    requires i < |s.inodes| && s.inodes[i].size <= MAXFILE * BSIZE
    requires o < o + m <= s.inodes[i].size && o % BSIZE + m <= BSIZE
    ensures o / BSIZE < MAXFILE
    ensures Contents(s, i)[o..o + m] == FileBlock(s, i, o / BSIZE)[o % BSIZE..o % BSIZE + m]
  {
    hide Addr, FileBlock;
    var b := FileBlock(s, i, o / BSIZE);
    var chunk := Contents(s, i)[o..o + m];
    forall k | 0 <= k < m ensures chunk[k] == b[o % BSIZE + k] {
      InBlock(o, k);
    }
  }

  lemma {:induction false} InBlock(o: nat, k: nat)
    requires o % BSIZE + k < BSIZE
    ensures (o + k) / BSIZE == o / BSIZE && (o + k) % BSIZE == o % BSIZE + k
  {
    assert o == o / BSIZE * BSIZE + o % BSIZE;
  }

  // ----- Growing: allocations for one inode -----

  // t is s after some allocations for inode i: old pointers stay, contents do not change, and
  // inode blocks and the log are untouched.
  ghost predicate Grown(g: Super, s: State, t: State, i: nat)
    requires i < |s.inodes|
  {
    && |t.view| == |s.view| && |t.inodes| == |s.inodes|
    && t.inodes == s.inodes[i := s.inodes[i].(addrs := t.inodes[i].addrs)]
    && (forall j, bn :: 0 <= j < |s.inodes| && 0 <= bn < MAXFILE ==> FileBlock(t, j, bn) == FileBlock(s, j, bn))
    && (forall j, l :: 0 <= j < |s.inodes| && 0 <= l < SLOTS && (j != i || Addr(s, j, l) != 0) ==>
          Addr(t, j, l) == Addr(s, j, l))
    && (forall x :: 0 <= x < |s.view| && g.Fixed(x) ==> t.view[x] == s.view[x])
  }

  lemma {:induction false} GrownSame(g: Super, s: State, i: nat)
    requires i < |s.inodes|
    ensures Grown(g, s, s, i)
  {
    assert s.inodes[i := s.inodes[i].(addrs := s.inodes[i].addrs)] == s.inodes;
  }

  lemma {:induction false} GrownTwice(g: Super, s: State, t: State, u: State, i: nat)
    requires i < |s.inodes| && Grown(g, s, t, i) && i < |t.inodes| && Grown(g, t, u, i)
    ensures Grown(g, s, u, i)
  {
    hide Addr, FileBlock;
  }

  lemma {:induction false} AllocFixed(g: Super, s: State, owner: Owners, i: nat, k: nat, b: nat)
    requires CanAlloc(g, s, owner, i, k, b)
    ensures forall x :: 0 <= x < |s.view| && g.Fixed(x) ==> Alloc(g, s, owner, i, k, b).view[x] == s.view[x]
  {
    hide Good, Used, Addr, Balloc;
    AllocBounds(g, s, owner, i, k, b);
    FreeBlock(g, s, owner, b);
    BallocFixed(g, s.view, b);
    if k > NDIRECT {
      IndirectNotFixed(g, s, owner, i);
    }
  }

  lemma {:induction false} BallocFixed(g: Super, view: seq<Block>, b: nat)
    requires b < |view| && g.BitmapBlock(b) < |view| && g.BitmapBlock(b) < g.DataStart() && g.Ok() && !g.Reserved(b)
    ensures forall x :: 0 <= x < |view| && g.Fixed(x) ==> Balloc(g, view, b)[x] == view[x]
  {
    assert g.BitmapBlock(0) <= g.BitmapBlock(b);
  }

  lemma {:induction false} IndirectNotFixed(g: Super, s: State, owner: Owners, i: nat)
    requires Good(g, s, owner) && i < |s.inodes| && s.inodes[i].addrs[NDIRECT] != 0
    ensures !g.Fixed(s.inodes[i].addrs[NDIRECT])
  {
    Owner(g, s, owner, i, NDIRECT);
    MetaBlocks(g, 0);
  }

  lemma {:induction false} AllocGrows(g: Super, s: State, owner: Owners, i: nat, k: nat, b: nat)
    requires CanAlloc(g, s, owner, i, k, b)
    ensures Grown(g, s, Alloc(g, s, owner, i, k, b), i)
  {
    var t := Alloc(g, s, owner, i, k, b);
    AllocBounds(g, s, owner, i, k, b);
    assert t.inodes == s.inodes[i := s.inodes[i].(addrs := t.inodes[i].addrs)];
    AllocFixed(g, s, owner, i, k, b);
    hide Addr, FileBlock, Alloc, Good;
    forall j, bn | 0 <= j < |s.inodes| && 0 <= bn < MAXFILE
      ensures FileBlock(t, j, bn) == FileBlock(s, j, bn)
    {
      AllocFiles(g, s, owner, i, k, b, j, bn);
    }
    forall j, l | 0 <= j < |s.inodes| && 0 <= l < SLOTS && (j != i || Addr(s, j, l) != 0)
      ensures Addr(t, j, l) == Addr(s, j, l)
    {
      AllocAddr(g, s, owner, i, k, b, j, l);
    }
  }

  // What bmap(i, bn) does to the state: position bn is mapped, with the indirect block if
  // needed, and no other position of i changes from empty to mapped.
  ghost predicate Bmapped(g: Super, s: State, t: State, i: nat, bn: nat)
    requires i < |s.inodes| && bn < MAXFILE
  {
    && Grown(g, s, t, i)
    && Addr(t, i, DataSlot(bn)) != 0
    && (bn >= NDIRECT ==> Addr(t, i, NDIRECT) != 0)
    && (forall l :: 0 <= l < SLOTS && l != DataSlot(bn) && (l != NDIRECT || bn < NDIRECT) ==>
          Addr(t, i, l) == Addr(s, i, l))
  }

  // bmap on a position that is mapped already.
  lemma {:induction false} BmapSame(g: Super, s: State, owner: Owners, i: nat, bn: nat)
    requires Good(g, s, owner) && i < |s.inodes| && bn < MAXFILE && Addr(s, i, DataSlot(bn)) != 0
    ensures Bmapped(g, s, s, i, bn)
  {
    GrownSame(g, s, i);
  }

  // bmap by one allocation: a direct block, or an entry of the indirect block.
  lemma {:induction false} BmapOne(g: Super, s: State, owner: Owners, i: nat, bn: nat, b: nat)
    requires bn < MAXFILE && CanAlloc(g, s, owner, i, DataSlot(bn), b)
    ensures Bmapped(g, s, Alloc(g, s, owner, i, DataSlot(bn), b), i, bn)
    ensures Addr(Alloc(g, s, owner, i, DataSlot(bn), b), i, DataSlot(bn)) == b
  {
    hide Addr, FileBlock, Alloc, Good;
    AllocGrows(g, s, owner, i, DataSlot(bn), b);
    forall l | 0 <= l < SLOTS
      ensures Addr(Alloc(g, s, owner, i, DataSlot(bn), b), i, l) == if l == DataSlot(bn) then b else Addr(s, i, l)
    {
      AllocAddr(g, s, owner, i, DataSlot(bn), b, i, l);
    }
    BmapOneBounds(g, s, owner, i, bn, b);
  }

  lemma {:induction false} BmapOneBounds(g: Super, s: State, owner: Owners, i: nat, bn: nat, b: nat)
    requires bn < MAXFILE && CanAlloc(g, s, owner, i, DataSlot(bn), b)
    ensures b != 0 && (bn >= NDIRECT ==> Addr(s, i, NDIRECT) != 0)
  {
    AllocBounds(g, s, owner, i, DataSlot(bn), b);
  }

  // bmap that first has to allocate the indirect block.
  lemma {:induction false} BmapAfterIndirect(g: Super, s: State, t: State, u: State, owner: Owners, i: nat, bn: nat, b: nat)
    requires NDIRECT <= bn < MAXFILE && CanAlloc(g, s, owner, i, NDIRECT, b)
    requires t == Alloc(g, s, owner, i, NDIRECT, b) && Bmapped(g, t, u, i, bn)
    ensures Bmapped(g, s, u, i, bn)
  {
    hide Addr, FileBlock, Alloc, Good;
    AllocGrows(g, s, owner, i, NDIRECT, b);
    GrownTwice(g, s, t, u, i);
    forall l | 0 <= l < SLOTS && l != NDIRECT
      ensures Addr(t, i, l) == Addr(s, i, l)
    {
      AllocAddr(g, s, owner, i, NDIRECT, b, i, l);
    }
  }

  // On a file that maps its first n blocks, bmap of block bn <= n keeps that shape.
  lemma {:induction false} BmapKeepsShape(g: Super, s: State, t: State, i: nat, n: nat, bn: nat)
    requires i < |s.inodes| && bn < MAXFILE && Bmapped(g, s, t, i, bn)
    requires MapsExactly(s, i, n) && bn <= n
    ensures MapsExactly(t, i, if bn < n then n else n + 1)
  {
    hide Addr, FileBlock;
    assert Addr(s, i, NDIRECT) != 0 ==> Addr(t, i, NDIRECT) == Addr(s, i, NDIRECT);
    forall bm | 0 <= bm < MAXFILE
      ensures Addr(t, i, DataSlot(bm)) != 0 <==> bm < (if bn < n then n else n + 1)
    {
      if bm == bn {
      } else {
        assert DataSlot(bm) != DataSlot(bn) && DataSlot(bm) != NDIRECT;
      }
    }
  }

  // ----- Writing a range of bytes -----

  // Block bn of a file after src has been written at offset off.
  function Patch(b: Block, bn: nat, off: nat, src: seq<Byte>): (r: Block)
    ensures forall x :: 0 <= x < BSIZE ==>
              r[x] == (if off <= bn * BSIZE + x < off + |src| then src[bn * BSIZE + x - off] else b[x])
  {
    seq(BSIZE, x requires 0 <= x < BSIZE =>
      if off <= bn * BSIZE + x < off + |src| then src[bn * BSIZE + x - off] else b[x])
  }

  // A block with some bytes replaced.
  function Splice(b: Block, x: nat, chunk: seq<Byte>): Block
    requires x + |chunk| <= BSIZE
  {
    b[..x] + chunk + b[x + |chunk|..]
  }

  lemma {:induction false} PatchNothing(b: Block, bn: nat, off: nat)
    ensures Patch(b, bn, off, []) == b
  {
  }

  // The next chunk of writei: m bytes that lie in one block.
  lemma {:induction false} PatchChunk(b: Block, bm: nat, off: nat, src: seq<Byte>, tot: nat, m: nat)
    requires 0 < m && tot + m <= |src| && (off + tot) % BSIZE + m <= BSIZE
    ensures var bn, x := (off + tot) / BSIZE, (off + tot) % BSIZE;
            var was := Patch(b, bm, off, src[..tot]);
            Patch(b, bm, off, src[..tot + m])
            == if bm == bn then Splice(was, x, src[tot..tot + m]) else was
  {
    var bn, x := (off + tot) / BSIZE, (off + tot) % BSIZE;
    assert off + tot == bn * BSIZE + x;
    var was := Patch(b, bm, off, src[..tot]);
    var now := Patch(b, bm, off, src[..tot + m]);
    if bm == bn {
      var put := Splice(was, x, src[tot..tot + m]);
      forall y | 0 <= y < BSIZE ensures now[y] == put[y] {
      }
    } else {
      forall y | 0 <= y < BSIZE ensures now[y] == was[y] {
        assert !(off + tot <= bm * BSIZE + y < off + tot + m);
      }
    }
  }

  // File i of t is file i of s with src written at off; the other files are the same.
  ghost predicate Patched(s: State, t: State, i: nat, off: nat, src: seq<Byte>)
    requires i < |s.inodes| == |t.inodes|
  {
    && (forall j, bn :: 0 <= j < |s.inodes| && j != i && 0 <= bn < MAXFILE ==> FileBlock(t, j, bn) == FileBlock(s, j, bn))
    && (forall bn :: 0 <= bn < MAXFILE ==> FileBlock(t, i, bn) == Patch(FileBlock(s, i, bn), bn, off, src))
  }

  // Blocks in place, the bytes of the file are spliced.
  lemma {:induction false} PatchedContents(s: State, t: State, i: nat, off: nat, src: seq<Byte>)
    requires i < |s.inodes| == |t.inodes| && Patched(s, t, i, off, src)
    requires off <= s.inodes[i].size <= MAXFILE * BSIZE && off + |src| <= MAXFILE * BSIZE
    requires t.inodes[i].size == if off + |src| > s.inodes[i].size then off + |src| else s.inodes[i].size
    ensures Contents(t, i)
         == Contents(s, i)[..off] + src
            + Contents(s, i)[if off + |src| > s.inodes[i].size then s.inodes[i].size else off + |src|..]
  {
    hide Addr, FileBlock;
    var tail := if off + |src| > s.inodes[i].size then s.inodes[i].size else off + |src|;
    var r := Contents(s, i)[..off] + src + Contents(s, i)[tail..];
    forall o | 0 <= o < t.inodes[i].size
      ensures Contents(t, i)[o] == r[o]
    {
      assert o == o / BSIZE * BSIZE + o % BSIZE;
      assert FileBlock(t, i, o / BSIZE) == Patch(FileBlock(s, i, o / BSIZE), o / BSIZE, off, src);
    }
  }

  lemma {:induction false} SameContents(s: State, t: State, j: nat)
    requires j < |s.inodes| == |t.inodes| && t.inodes[j].size == s.inodes[j].size <= MAXFILE * BSIZE
    requires forall bn :: 0 <= bn < MAXFILE ==> FileBlock(t, j, bn) == FileBlock(s, j, bn)
    ensures Contents(t, j) == Contents(s, j)
  {
    hide Addr, FileBlock;
  }

  // ----- The loop of writei -----

  function Max(a: nat, b: nat): nat {
    if a < b then b else a
  }

  // After tot bytes of src: the bytes are in place, the blocks up to there are mapped, no
  // other file has changed, and the inode has changed only if the file must grow.
  ghost predicate Writing(g: Super, s: State, t: State, owner: Owners, i: nat, off: nat, src: seq<Byte>, tot: nat)
    requires i < |s.inodes|
  {
    && Good(g, t, owner) && tot <= |src| && |t.view| == |s.view| && |t.inodes| == |s.inodes|
    && t.inodes == s.inodes[i := s.inodes[i].(addrs := t.inodes[i].addrs)]
    && (t.inodes == s.inodes || off + tot > s.inodes[i].size)
    && Patched(s, t, i, off, src[..tot])
    && MapsExactly(t, i, Max(BlockCount(s.inodes[i].size), BlockCount(off + tot)))
    && OthersKept(g, s, t, i)
  }

  // The pointers of the other inodes, all inode blocks and the log are as before.
  ghost predicate OthersKept(g: Super, s: State, t: State, i: nat)
    requires |t.view| == |s.view| && |t.inodes| == |s.inodes|
  {
    && (forall j, l :: 0 <= j < |s.inodes| && j != i && 0 <= l < SLOTS ==> Addr(t, j, l) == Addr(s, j, l))
    && (forall x :: 0 <= x < |s.view| && g.Fixed(x) ==> t.view[x] == s.view[x])
  }

  lemma {:induction false} WriteStart(g: Super, s: State, owner: Owners, i: nat, off: nat, src: seq<Byte>)
    requires Settled(g, s, owner) && i < |s.inodes| && off <= s.inodes[i].size
    ensures Writing(g, s, s, owner, i, off, src, 0)
  {
    hide Addr, FileBlock, Good;
    assert Shaped(s, i);
    assert src[..0] == [];
    assert s.inodes[i := s.inodes[i].(addrs := s.inodes[i].addrs)] == s.inodes;
    forall bn | 0 <= bn < MAXFILE ensures FileBlock(s, i, bn) == Patch(FileBlock(s, i, bn), bn, off, src[..0]) {
      PatchNothing(FileBlock(s, i, bn), bn, off);
    }
    assert BlockCount(off) <= BlockCount(s.inodes[i].size);
  }

  // How many blocks are mapped after the next chunk.
  lemma {:induction false} ChunkShape(size: nat, at: nat, m: nat)
    requires 0 < m && at % BSIZE + m <= BSIZE
    ensures var n, bn := Max(BlockCount(size), BlockCount(at)), at / BSIZE;
            && bn <= n
            && Max(BlockCount(size), BlockCount(at + m)) == (if bn < n then n else n + 1)
            && (n <= bn ==> at + m > size)
  {
    assert BlockCount(at + m) == at / BSIZE + 1 by {
      assert at == at / BSIZE * BSIZE + at % BSIZE;
    }
    assert at / BSIZE <= BlockCount(at) <= at / BSIZE + 1;
    assert size <= BlockCount(size) * BSIZE;
  }

  // One turn: bmap leads from t to u, then m bytes go into block bn.
  lemma {:induction false} WriteStep(g: Super, s: State, t: State, owner: Owners, u: State, owner': Owners,
                  i: nat, off: nat, src: seq<Byte>, tot: nat, m: nat)
    requires i < |s.inodes| && Writing(g, s, t, owner, i, off, src, tot)
    requires 0 < m && tot + m <= |src| && (off + tot) % BSIZE + m <= BSIZE && (off + tot) / BSIZE < MAXFILE
    requires Good(g, u, owner') && Bmapped(g, t, u, i, (off + tot) / BSIZE)
    requires Addr(t, i, DataSlot((off + tot) / BSIZE)) != 0 ==> u == t
    ensures var bn, x := (off + tot) / BSIZE, (off + tot) % BSIZE;
            && Addr(u, i, DataSlot(bn)) < |u.view|
            && var bp := u.view[Addr(u, i, DataSlot(bn))];
               Writing(g, s, WriteBlock(u, i, bn, Splice(bp, x, src[tot..tot + m])), owner', i, off, src, tot + m)
  {
    hide Addr, FileBlock, Good;
    var bn, x := (off + tot) / BSIZE, (off + tot) % BSIZE;
    ChunkShape(s.inodes[i].size, off + tot, m);
    WriteGood(g, u, owner', i, bn, ZeroBlock());
    var bp := u.view[Addr(u, i, DataSlot(bn))];
    var data := Splice(bp, x, src[tot..tot + m]);
    var v := WriteBlock(u, i, bn, data);
    WriteGood(g, u, owner', i, bn, data);
    WriteStepBytes(g, s, t, owner, u, owner', i, off, src, tot, m);
    WriteStepShape(g, s, t, owner, u, owner', i, off, src, tot, m, data);
    WriteStepOthers(g, s, t, owner, u, owner', i, off, src, tot, m, data);
    assert v.inodes == u.inodes;
  }

  lemma {:induction false} WriteStepBytes(g: Super, s: State, t: State, owner: Owners, u: State, owner': Owners,
                       i: nat, off: nat, src: seq<Byte>, tot: nat, m: nat)
    requires i < |s.inodes| && Writing(g, s, t, owner, i, off, src, tot)
    requires 0 < m && tot + m <= |src| && (off + tot) % BSIZE + m <= BSIZE && (off + tot) / BSIZE < MAXFILE
    requires Good(g, u, owner') && Bmapped(g, t, u, i, (off + tot) / BSIZE)
    ensures var bn, x := (off + tot) / BSIZE, (off + tot) % BSIZE;
            && Addr(u, i, DataSlot(bn)) < |u.view|
            && var bp := u.view[Addr(u, i, DataSlot(bn))];
               Patched(s, WriteBlock(u, i, bn, Splice(bp, x, src[tot..tot + m])), i, off, src[..tot + m])
  {
    hide Addr, Good, Patch, MapsExactly, OthersKept;
    var bn, x := (off + tot) / BSIZE, (off + tot) % BSIZE;
    Owner(g, u, owner', i, DataSlot(bn));
    var bp := u.view[Addr(u, i, DataSlot(bn))];
    assert bp == FileBlock(u, i, bn);
    hide FileBlock;
    var data := Splice(bp, x, src[tot..tot + m]);
    var v := WriteBlock(u, i, bn, data);
    assert FileBlock(u, i, bn) == FileBlock(t, i, bn) == Patch(FileBlock(s, i, bn), bn, off, src[..tot]);
    forall j, bm | 0 <= j < |s.inodes| && 0 <= bm < MAXFILE
      ensures FileBlock(v, j, bm) == if j == i && bm == bn then data else FileBlock(t, j, bm)
    {
      WriteFiles(g, u, owner', i, bn, data, j, bm);
    }
    forall bm | 0 <= bm < MAXFILE
      ensures FileBlock(v, i, bm) == Patch(FileBlock(s, i, bm), bm, off, src[..tot + m])
    {
      PatchChunk(FileBlock(s, i, bm), bm, off, src, tot, m);
    }
  }

  lemma {:induction false} WriteStepShape(g: Super, s: State, t: State, owner: Owners, u: State, owner': Owners,
                       i: nat, off: nat, src: seq<Byte>, tot: nat, m: nat, data: Block)
    requires i < |s.inodes| && Writing(g, s, t, owner, i, off, src, tot)
    requires 0 < m && tot + m <= |src| && (off + tot) % BSIZE + m <= BSIZE && (off + tot) / BSIZE < MAXFILE
    requires Good(g, u, owner') && Bmapped(g, t, u, i, (off + tot) / BSIZE)
    requires Addr(u, i, DataSlot((off + tot) / BSIZE)) < |u.view|
    ensures MapsExactly(WriteBlock(u, i, (off + tot) / BSIZE, data), i,
                        Max(BlockCount(s.inodes[i].size), BlockCount(off + tot + m)))
  {
    hide Addr, Good, Patched, OthersKept, FileBlock, BlockCount, Max;
    var bn := (off + tot) / BSIZE;
    ChunkShape(s.inodes[i].size, off + tot, m);
    BmapKeepsShape(g, t, u, i, Max(BlockCount(s.inodes[i].size), BlockCount(off + tot)), bn);
    var v := WriteBlock(u, i, bn, data);
    forall l | 0 <= l < SLOTS ensures Addr(v, i, l) == Addr(u, i, l) {
      WriteAddr(g, u, owner', i, bn, data, i, l);
    }
  }

  lemma {:induction false} WriteStepOthers(g: Super, s: State, t: State, owner: Owners, u: State, owner': Owners,
                        i: nat, off: nat, src: seq<Byte>, tot: nat, m: nat, data: Block)
    requires i < |s.inodes| && Writing(g, s, t, owner, i, off, src, tot)
    requires (off + tot) / BSIZE < MAXFILE
    requires Good(g, u, owner') && Bmapped(g, t, u, i, (off + tot) / BSIZE)
    requires Addr(u, i, DataSlot((off + tot) / BSIZE)) < |u.view|
    ensures OthersKept(g, s, WriteBlock(u, i, (off + tot) / BSIZE, data), i)
  {
    hide Addr, Patched, MapsExactly, FileBlock;
    var bn := (off + tot) / BSIZE;
    Owner(g, u, owner', i, DataSlot(bn));
    MetaBlocks(g, 0);
    var v := WriteBlock(u, i, bn, data);
    forall j, l | 0 <= j < |s.inodes| && j != i && 0 <= l < SLOTS ensures Addr(v, j, l) == Addr(s, j, l) {
      WriteAddr(g, u, owner', i, bn, data, j, l);
    }
  }

  // The effect of a successful writei: the file is spliced, the others keep their contents.
  ghost predicate Written(s: State, t: State, i: nat, off: nat, src: seq<Byte>)
    requires i < |s.inodes| == |t.inodes|
  {
    && off <= s.inodes[i].size <= MAXFILE * BSIZE
    && t.inodes[i].size == Max(s.inodes[i].size, off + |src|) <= MAXFILE * BSIZE
    && Contents(t, i) == Contents(s, i)[..off] + src
                         + (if off + |src| < s.inodes[i].size then Contents(s, i)[off + |src|..] else [])
    && t.inodes[i] == s.inodes[i].(size := t.inodes[i].size, addrs := t.inodes[i].addrs)
    && forall j :: 0 <= j < |s.inodes| && j != i ==>
         && t.inodes[j] == s.inodes[j]
         && (s.inodes[j].size <= MAXFILE * BSIZE ==> Contents(t, j) == Contents(s, j))
  }

  // What is written is read back, and what was there before and after it as well.
  lemma {:induction false} WriteThenRead(s: State, t: State, i: nat, off: nat, src: seq<Byte>)
    requires i < |s.inodes| == |t.inodes| && Written(s, t, i, off, src)
    ensures off + |src| <= t.inodes[i].size == |Contents(t, i)|
    ensures Contents(t, i)[off..off + |src|] == src
    ensures Contents(t, i)[..off] == Contents(s, i)[..off]
    ensures off + |src| <= s.inodes[i].size ==> Contents(t, i)[off + |src|..] == Contents(s, i)[off + |src|..]
  {
    hide Contents;
  }

  // ----- The end of writei -----

  // The size grows if the write went past it.
  function Resized(s: State, i: nat, size: Word): State
    requires i < |s.inodes|
  {
    s.(inodes := s.inodes[i := s.inodes[i].(size := size)])
  }

  function Synced(g: Super, s: State, i: nat): State
    requires i < |s.inodes| && g.InodeBlock(i) < |s.view|
  {
    s.(view := Update(g, s.view, i, s.inodes[i]))
  }

  lemma {:induction false} ResizedSame(g: Super, s: State, owner: Owners, i: nat, size: Word)
    requires Good(g, s, owner) && i < |s.inodes|
    ensures SameFiles(g, s, Resized(s, i, size), owner) && Good(g, Resized(s, i, size), owner)
  {
    SameGood(g, s, Resized(s, i, size), owner);
  }

  lemma {:induction false} SyncedSame(g: Super, s: State, owner: Owners, i: nat)
    requires Good(g, s, owner) && i < |s.inodes|
    ensures g.InodeBlock(i) < |s.view|
    ensures SameFiles(g, s, Synced(g, s, i), owner) && Good(g, Synced(g, s, i), owner)
  {
    MetaBlocks(g, i);
    var t := Synced(g, s, i);
    forall a | a in owner ensures a >= g.DataStart() {
      assert !g.Reserved(a);
    }
    SameGood(g, s, t, owner);
  }

  // Storing inode i makes its disk copy current and leaves the other disk inodes alone.
  lemma {:induction false} SyncedDisk(g: Super, s: State, i: nat, j: nat)
    requires i < |s.inodes| && j < |s.inodes| && g.InodeBlock(i) < |s.view| && g.InodeBlock(j) < |s.view|
    ensures OnDisk(g, Synced(g, s, i), i)
    ensures j != i && OnDisk(g, s, j) ==> OnDisk(g, Synced(g, s, i), j)
  {
    hide DiskInode, Update;
    UpdateInodes(g, s.view, i, s.inodes[i], i);
    UpdateInodes(g, s.view, i, s.inodes[i], j);
  }

  // The state in which writei returns.
  ghost function WriteResult(g: Super, t: State, i: nat, end: nat): State
    requires i < |t.inodes| && g.InodeBlock(i) < |t.view| && end < 0x1_0000_0000
  {
    if end > t.inodes[i].size then Synced(g, Resized(t, i, end), i) else t
  }

  lemma {:induction false} WriteEndFiles(g: Super, t: State, owner: Owners, i: nat, end: nat)
    requires Good(g, t, owner) && i < |t.inodes| && end < 0x1_0000_0000
    ensures g.InodeBlock(i) < |t.view|
    ensures Good(g, WriteResult(g, t, i, end), owner)
    ensures forall j, bn :: 0 <= j < |t.inodes| && 0 <= bn < MAXFILE ==>
              FileBlock(WriteResult(g, t, i, end), j, bn) == FileBlock(t, j, bn)
    ensures forall j, l :: 0 <= j < |t.inodes| && 0 <= l < SLOTS ==>
              Addr(WriteResult(g, t, i, end), j, l) == Addr(t, j, l)
  {
    hide Good, Addr, FileBlock, SameFiles, Resized, Synced;
    MetaBound(g, t, owner, i);
    if end > t.inodes[i].size {
      var t1 := Resized(t, i, end);
      ResizedSame(g, t, owner, i, end);
      SyncedSame(g, t1, owner, i);
      forall j, bn | 0 <= j < |t.inodes| && 0 <= bn < MAXFILE
        ensures FileBlock(Synced(g, t1, i), j, bn) == FileBlock(t, j, bn)
      {
        SameFileBlock(g, t, t1, owner, j, bn);
        SameFileBlock(g, t1, Synced(g, t1, i), owner, j, bn);
      }
      forall j, l | 0 <= j < |t.inodes| && 0 <= l < SLOTS
        ensures Addr(Synced(g, t1, i), j, l) == Addr(t, j, l)
      {
        SameAddr(g, t, t1, owner, j, l);
        SameAddr(g, t1, Synced(g, t1, i), owner, j, l);
      }
    }
  }

  lemma {:induction false} MetaBound(g: Super, t: State, owner: Owners, i: nat)
    requires Good(g, t, owner) && i < |t.inodes|
    ensures g.InodeBlock(i) < |t.view| && g.InodeBlock(i) < g.BitmapBlock(0)
    ensures |Resized(t, i, 0).inodes| == |t.inodes| && Resized(t, i, 0).view == t.view
  {
    MetaBlocks(g, i);
  }

  // Nothing has been written to the boot block, the superblock and the log, nor will iupdate.
  lemma {:induction false} WritingFixed(g: Super, s: State, t: State, owner: Owners, i: nat, off: nat, src: seq<Byte>, tot: nat)
    requires i < |s.inodes| && Writing(g, s, t, owner, i, off, src, tot)
    ensures |t.view| == |s.view|
    ensures forall x :: 0 <= x < |s.view| && (x < 2 || x + g.nlog >= g.size) ==>
              t.view[x] == s.view[x] && x != g.InodeBlock(i)
  {
    hide Patched, MapsExactly;
    MetaBound(g, t, owner, i);
    MetaBlocks(g, i);
    assert g.Ok();
  }

  // writei leaves every file shaped and every inode on disk, and the bytes in place.
  lemma {:induction false} WriteEnd(g: Super, s: State, w: Owners, t: State, owner: Owners, i: nat, off: nat, src: seq<Byte>)
    requires Settled(g, s, w) && i < |s.inodes| && Writing(g, s, t, owner, i, off, src, |src|)
    requires off <= s.inodes[i].size && off + |src| <= MAXFILE * BSIZE
    ensures g.InodeBlock(i) < |t.view| && t.inodes[i].size == s.inodes[i].size
    ensures var f := WriteResult(g, t, i, off + |src|);
            Settled(g, f, owner) && Written(s, f, i, off, src)
  {
    hide Good, Addr, FileBlock;
    WriteEndFiles(g, t, owner, i, off + |src|);
    var f := WriteResult(g, t, i, off + |src|);
    forall j | 0 <= j < |s.inodes| ensures Shaped(f, j) {
      WriteEndShaped(g, s, w, t, owner, i, off, src, j);
    }
    forall j | 0 <= j < |s.inodes| ensures OnDisk(g, f, j) {
      WriteEndOnDisk(g, s, w, t, owner, i, off, src, j);
    }
    WriteEndWritten(g, s, w, t, owner, i, off, src);
  }

  lemma {:induction false} WriteEndShaped(g: Super, s: State, w: Owners, t: State, owner: Owners, i: nat, off: nat, src: seq<Byte>, j: nat)
    requires Settled(g, s, w) && i < |s.inodes| && Writing(g, s, t, owner, i, off, src, |src|)
    requires off <= s.inodes[i].size && off + |src| <= MAXFILE * BSIZE && j < |s.inodes|
    ensures g.InodeBlock(i) < |t.view| && Shaped(WriteResult(g, t, i, off + |src|), j)
  {
    hide Good, Addr, FileBlock, Patched;
    WriteEndFiles(g, t, owner, i, off + |src|);
    assert Shaped(s, j);
    assert off + |src| <= s.inodes[i].size ==> BlockCount(off + |src|) <= BlockCount(s.inodes[i].size);
    assert off + |src| >= s.inodes[i].size ==> BlockCount(off + |src|) >= BlockCount(s.inodes[i].size);
    hide BlockCount;
  }

  lemma {:induction false} WriteEndOnDisk(g: Super, s: State, w: Owners, t: State, owner: Owners, i: nat, off: nat, src: seq<Byte>, j: nat)
    requires Settled(g, s, w) && i < |s.inodes| && Writing(g, s, t, owner, i, off, src, |src|)
    requires off <= s.inodes[i].size && off + |src| <= MAXFILE * BSIZE && j < |s.inodes|
    ensures g.InodeBlock(i) < |t.view| && OnDisk(g, WriteResult(g, t, i, off + |src|), j)
  {
    hide Good, Addr, FileBlock, Patched, MapsExactly, DiskInode;
    assert OnDisk(g, s, j);
    MetaBound(g, t, owner, i);
    MetaBound(g, t, owner, j);
    DiskFrame(g, s.view, t.view, j);
    if off + |src| > t.inodes[i].size {
      SyncedDisk(g, Resized(t, i, off + |src|), i, j);
    }
  }

  lemma {:induction false} DiskFrame(g: Super, v: seq<Block>, w: seq<Block>, j: nat)
    requires g.InodeBlock(j) < |v| == |w| && v[g.InodeBlock(j)] == w[g.InodeBlock(j)]
    ensures DiskInode(g, v, j) == DiskInode(g, w, j)
  {
  }

  lemma {:induction false} WriteEndWritten(g: Super, s: State, w: Owners, t: State, owner: Owners, i: nat, off: nat, src: seq<Byte>)
    requires Settled(g, s, w) && i < |s.inodes| && Writing(g, s, t, owner, i, off, src, |src|)
    requires off <= s.inodes[i].size && off + |src| <= MAXFILE * BSIZE
    ensures g.InodeBlock(i) < |t.view| && Written(s, WriteResult(g, t, i, off + |src|), i, off, src)
  {
    hide Good, Addr, FileBlock, MapsExactly, DiskInode, Patch, OthersKept, Contents;
    WriteEndFiles(g, t, owner, i, off + |src|);
    var f := WriteResult(g, t, i, off + |src|);
    assert Shaped(s, i);
    assert src[..|src|] == src;
    PatchedContents(s, f, i, off, src);
    forall j | 0 <= j < |s.inodes| && j != i && s.inodes[j].size <= MAXFILE * BSIZE
      ensures Contents(f, j) == Contents(s, j)
    {
      SameContents(s, f, j);
    }
  }

  // ----- Truncation -----

  // t is s after the positions in done of inode i have given up their blocks.
  ghost predicate Trimmed(g: Super, s: State, w: Owners, t: State, owner: Owners, i: nat, done: set<nat>)
    requires i < |s.inodes|
  {
    && Good(g, t, owner) && |t.view| == |s.view| && |t.inodes| == |s.inodes|
    && t.inodes == s.inodes[i := s.inodes[i].(addrs := t.inodes[i].addrs)]
    && (forall l :: 0 <= l < SLOTS ==> Addr(t, i, l) == (if l in done then 0 else Addr(s, i, l)))
    && OthersKept(g, s, t, i)
    && (forall j, bn :: 0 <= j < |s.inodes| && j != i && 0 <= bn < MAXFILE ==> FileBlock(t, j, bn) == FileBlock(s, j, bn))
    && (forall a :: a in owner <==> a in w && !(w[a].inum == i && w[a].k in done))
    && (forall a :: a in owner ==> owner[a] == w[a])
  }

  lemma {:induction false} TrimStart(g: Super, s: State, w: Owners, i: nat)
    requires Good(g, s, w) && i < |s.inodes|
    ensures Trimmed(g, s, w, s, w, i, {})
  {
    hide Good, Addr, FileBlock;
    assert s.inodes[i := s.inodes[i].(addrs := s.inodes[i].addrs)] == s.inodes;
  }

  // A position that is empty anyway.
  lemma {:induction false} TrimSkip(g: Super, s: State, w: Owners, t: State, owner: Owners, i: nat, done: set<nat>, k: nat)
    requires i < |s.inodes| && Trimmed(g, s, w, t, owner, i, done) && k < SLOTS && Addr(t, i, k) == 0
    ensures Trimmed(g, s, w, t, owner, i, done + {k})
  {
    hide Good, OthersKept, FileBlock, Addr;
    NothingThere(g, t, owner, i, k);
  }

  lemma {:induction false} NothingThere(g: Super, t: State, owner: Owners, i: nat, k: nat)
    requires Good(g, t, owner) && i < |t.inodes| && k < SLOTS && Addr(t, i, k) == 0
    ensures forall a :: a in owner ==> !(owner[a].inum == i && owner[a].k == k)
  {
    hide Addr, PointersOwned, BitmapExact;
  }

  // A position that gives up its block.
  lemma {:induction false} TrimStep(g: Super, s: State, w: Owners, t: State, owner: Owners, i: nat, done: set<nat>, k: nat)
    requires i < |s.inodes| && Trimmed(g, s, w, t, owner, i, done) && CanFree(g, t, owner, i, k)
    ensures Good(g, Release(g, t, owner, i, k), owner - {Addr(t, i, k)})
    ensures Trimmed(g, s, w, Release(g, t, owner, i, k), owner - {Addr(t, i, k)}, i, done + {k})
  {
    var u := Release(g, t, owner, i, k);
    TrimStepPointers(g, s, w, t, owner, i, done, k);
    TrimStepOwners(g, s, w, t, owner, i, done, k);
    ReleaseGood(g, t, owner, i, k);
    FreeBounds(g, t, owner, i, k);
    assert u.inodes == s.inodes[i := s.inodes[i].(addrs := u.inodes[i].addrs)];
    hide Good, Addr, FileBlock, Release, OthersKept;
    forall j, bn | 0 <= j < |s.inodes| && j != i && 0 <= bn < MAXFILE
      ensures FileBlock(u, j, bn) == FileBlock(s, j, bn)
    {
      ReleaseFiles(g, t, owner, i, k, j, bn);
    }
  }

  lemma {:induction false} ReleaseFixed(g: Super, t: State, owner: Owners, i: nat, k: nat)
    requires CanFree(g, t, owner, i, k)
    ensures forall x :: 0 <= x < |t.view| && g.Fixed(x) ==> Release(g, t, owner, i, k).view[x] == t.view[x]
  {
    hide Good, Used, Addr, Unmark;
    FreeBounds(g, t, owner, i, k);
    UnmarkFixed(g, t.view, Addr(t, i, k));
    if k > NDIRECT {
      IndirectNotFixed(g, t, owner, i);
    }
  }

  lemma {:induction false} UnmarkFixed(g: Super, view: seq<Block>, b: nat)
    requires g.BitmapBlock(b) < |view| && g.BitmapBlock(b) < g.DataStart() && g.Ok()
    ensures forall x :: 0 <= x < |view| && g.Fixed(x) ==> Unmark(g, view, b)[x] == view[x]
  {
    assert g.BitmapBlock(0) <= g.BitmapBlock(b);
  }

  lemma {:induction false} TrimStepPointers(g: Super, s: State, w: Owners, t: State, owner: Owners, i: nat, done: set<nat>, k: nat)
    requires i < |s.inodes| && Trimmed(g, s, w, t, owner, i, done) && CanFree(g, t, owner, i, k)
    ensures var u := Release(g, t, owner, i, k);
            && (forall l :: 0 <= l < SLOTS ==> Addr(u, i, l) == (if l in done + {k} then 0 else Addr(s, i, l)))
            && OthersKept(g, s, u, i)
  {
    hide Addr, FileBlock, OwnersPoint, PointersOwned, BitmapExact;
    var u := Release(g, t, owner, i, k);
    forall j, l | 0 <= j < |s.inodes| && 0 <= l < SLOTS
      ensures Addr(u, j, l) == if j == i && l == k then 0 else Addr(t, j, l)
    {
      ReleaseAddr(g, t, owner, i, k, j, l);
    }
    ReleaseFixed(g, t, owner, i, k);
  }

  lemma {:induction false} TrimStepOwners(g: Super, s: State, w: Owners, t: State, owner: Owners, i: nat, done: set<nat>, k: nat)
    requires i < |s.inodes| && Trimmed(g, s, w, t, owner, i, done) && CanFree(g, t, owner, i, k)
    ensures var owner' := owner - {Addr(t, i, k)};
            && (forall a :: a in owner' <==> a in w && !(w[a].inum == i && w[a].k in done + {k}))
            && (forall a :: a in owner' ==> owner'[a] == w[a])
  {
    hide OthersKept, FileBlock, Addr;
    var b := Addr(t, i, k);
    Owner(g, t, owner, i, k);
    forall a | a in owner && owner[a] == Slot(i, k) ensures a == b {
      assert Addr(t, owner[a].inum, owner[a].k) == a;
    }
  }

  // The content of a block that nobody owns does not matter.
  lemma {:induction false} TrimFrame(g: Super, s: State, w: Owners, t: State, owner: Owners, i: nat, done: set<nat>, x: nat, b: Block)
    requires i < |s.inodes| && Trimmed(g, s, w, t, owner, i, done)
    requires g.DataStart() <= x < |t.view| && !g.Reserved(x) && x !in owner
    ensures Good(g, t.(view := t.view[x := b]), owner)
    ensures Trimmed(g, s, w, t.(view := t.view[x := b]), owner, i, done)
  {
    hide Good, Addr, FileBlock, Used;
    var u := t.(view := t.view[x := b]);
    MetaOk(g, t, owner);
    SameGood(g, t, u, owner);
    forall j, l | 0 <= j < |s.inodes| && 0 <= l < SLOTS ensures Addr(u, j, l) == Addr(t, j, l) {
      SameAddr(g, t, u, owner, j, l);
    }
    forall j, bn | 0 <= j < |s.inodes| && 0 <= bn < MAXFILE ensures FileBlock(u, j, bn) == FileBlock(t, j, bn) {
      SameFileBlock(g, t, u, owner, j, bn);
    }
  }

  lemma {:induction false} MetaOk(g: Super, t: State, owner: Owners)
    requires Good(g, t, owner)
    ensures g.BitmapBlock(0) < g.DataStart()
  {
  }

  ghost function Upto(n: nat): (r: set<nat>)
    ensures forall l: nat :: l in r <==> l < n
  {
    if n == 0 then {} else Upto(n - 1) + {n - 1}
  }

  // Positions of an inode: the direct ones below k; all direct ones and n entries; all.
  ghost function Direct(k: nat): set<nat> {
    Upto(k)
  }

  ghost function DirectAnd(n: nat): set<nat> {
    Upto(NDIRECT + 1 + n) - {NDIRECT}
  }

  ghost function All(): set<nat> {
    Upto(SLOTS)
  }

  // bfree on a bitmap block other than x does not see the content of x.
  lemma {:induction false} UnmarkFrame(g: Super, view: seq<Block>, x: nat, b: Block, a: nat)
    requires g.BitmapBlock(a) < |view| && x < |view| && x != g.BitmapBlock(a)
    ensures Unmark(g, view[x := b], a) == Unmark(g, view, a)[x := b]
    ensures Used(g, view[x := b], a) == Used(g, view, a)
  {
    hide ClearByte, TestBit;
  }

  // Before the entries are freed: they are those of the indirect block.
  lemma {:induction false} Entries(g: Super, s: State, w: Owners, t: State, owner: Owners, i: nat, j: nat)
    requires i < |s.inodes| && Trimmed(g, s, w, t, owner, i, DirectAnd(j)) && j < NINDIRECT
    requires Addr(s, i, NDIRECT) != 0
    ensures Good(g, t, owner)
    ensures Addr(t, i, NDIRECT) == Addr(s, i, NDIRECT) == t.inodes[i].addrs[NDIRECT] < |t.view| == |s.view|
    ensures Addr(t, i, NDIRECT + 1 + j) == Addr(s, i, NDIRECT + 1 + j)
    ensures Addr(t, i, NDIRECT + 1 + j) != 0 ==> CanFree(g, t, owner, i, NDIRECT + 1 + j)
  {
    hide OthersKept, FileBlock;
    assert Addr(t, i, NDIRECT) == Addr(s, i, NDIRECT);
    Owner(g, t, owner, i, NDIRECT);
  }

  // Nothing is left to free if there is no indirect block.
  lemma {:induction false} TrimRest(g: Super, s: State, w: Owners, t: State, owner: Owners, i: nat)
    requires i < |s.inodes| && Trimmed(g, s, w, t, owner, i, Direct(NDIRECT)) && t.inodes[i].addrs[NDIRECT] == 0
    ensures Trimmed(g, s, w, t, owner, i, All())
  {
    hide Good, OthersKept, FileBlock, Addr;
    NoIndirect(t, i);
    forall a | a in owner
      ensures !(w[a].inum == i && w[a].k in All())
    {
      if NDIRECT <= w[a].k < SLOTS {
        NothingThere(g, t, owner, i, w[a].k);
      }
    }
  }

  lemma {:induction false} NoIndirect(t: State, i: nat)
    requires i < |t.inodes| && t.inodes[i].addrs[NDIRECT] == 0
    ensures forall l :: NDIRECT <= l < SLOTS ==> Addr(t, i, l) == 0
  {
  }

  lemma {:induction false} NothingLeft(g: Super, t: State, owner: Owners, i: nat, a: nat)
    requires Good(g, t, owner) && a in owner
    ensures owner[a].k < SLOTS
  {
  }

  // All entries are gone: the indirect block can be freed.
  lemma {:induction false} IndirectLast(g: Super, s: State, w: Owners, t: State, owner: Owners, i: nat)
    requires i < |s.inodes| && Trimmed(g, s, w, t, owner, i, DirectAnd(NINDIRECT)) && Addr(s, i, NDIRECT) != 0
    ensures Good(g, t, owner) && CanFree(g, t, owner, i, NDIRECT)
    ensures Addr(t, i, NDIRECT) == t.inodes[i].addrs[NDIRECT] == Addr(s, i, NDIRECT)
    ensures !g.Reserved(Addr(t, i, NDIRECT))
    ensures DirectAnd(NINDIRECT) + {NDIRECT} == All()
  {
    hide Good, OthersKept, FileBlock;
    assert Addr(t, i, NDIRECT) == Addr(s, i, NDIRECT);
    Owner(g, t, owner, i, NDIRECT);
  }

  // What itrunc leaves: an empty file on disk, the others as they were.
  lemma {:induction false} TrimEnd(g: Super, s: State, w: Owners, t: State, owner: Owners, i: nat)
    requires Settled(g, s, w) && i < |s.inodes| && Trimmed(g, s, w, t, owner, i, All())
    ensures g.InodeBlock(i) < |t.view|
    ensures var f := Synced(g, Resized(t, i, 0), i);
            && Settled(g, f, owner)
            && f.inodes == s.inodes[i := s.inodes[i].(size := 0, addrs := f.inodes[i].addrs)]
            && (forall l :: 0 <= l < SLOTS ==> Addr(f, i, l) == 0)
            && (forall a :: a in owner <==> a in w && w[a].inum != i)
            && (forall j :: 0 <= j < |s.inodes| && j != i ==>
                  s.inodes[j].size <= MAXFILE * BSIZE && f.inodes[j] == s.inodes[j] && Contents(f, j) == Contents(s, j))
  {
    hide Good, Addr, FileBlock, SameFiles, Contents;
    forall a | a in w ensures w[a].k in All() {
      NothingLeft(g, s, w, i, a);
    }
    MetaBound(g, t, owner, i);
    var t1 := Resized(t, i, 0);
    var f := Synced(g, t1, i);
    ResizedSame(g, t, owner, i, 0);
    SyncedSame(g, t1, owner, i);
    forall j, l | 0 <= j < |s.inodes| && 0 <= l < SLOTS ensures Addr(f, j, l) == Addr(t, j, l) {
      SameAddr(g, t, t1, owner, j, l);
      SameAddr(g, t1, f, owner, j, l);
    }
    forall j, bn | 0 <= j < |s.inodes| && 0 <= bn < MAXFILE ensures FileBlock(f, j, bn) == FileBlock(t, j, bn) {
      SameFileBlock(g, t, t1, owner, j, bn);
      SameFileBlock(g, t1, f, owner, j, bn);
    }
    forall j | 0 <= j < |s.inodes|
      ensures Shaped(f, j) && s.inodes[j].size <= MAXFILE * BSIZE
      ensures j != i ==> f.inodes[j] == s.inodes[j] && Contents(f, j) == Contents(s, j)
    {
      assert Shaped(s, j);
      if j != i {
        SameContents(s, f, j);
      }
    }
    forall j | 0 <= j < |s.inodes| ensures OnDisk(g, f, j) {
      TrimEndOnDisk(g, s, w, t, owner, i, j);
    }
  }

  lemma {:induction false} TrimmedFixed(g: Super, s: State, w: Owners, t: State, owner: Owners, i: nat)
    requires i < |s.inodes| && Trimmed(g, s, w, t, owner, i, All())
    ensures |t.view| == |s.view| && i < |t.inodes|
    ensures forall x :: 0 <= x < |s.view| && (x < 2 || x + g.nlog >= g.size) ==>
              t.view[x] == s.view[x] && x != g.InodeBlock(i)
    ensures forall k :: 0 <= k <= NDIRECT ==> t.inodes[i].addrs[k] == 0
  {
    hide FileBlock;
    MetaBound(g, t, owner, i);
    MetaBlocks(g, i);
    assert g.Ok();
    forall k | 0 <= k <= NDIRECT ensures t.inodes[i].addrs[k] == 0 {
      assert Addr(t, i, k) == 0;
    }
  }

  lemma {:induction false} TrimEndOnDisk(g: Super, s: State, w: Owners, t: State, owner: Owners, i: nat, j: nat)
    requires Settled(g, s, w) && i < |s.inodes| && Trimmed(g, s, w, t, owner, i, All()) && j < |s.inodes|
    ensures g.InodeBlock(i) < |t.view| && OnDisk(g, Synced(g, Resized(t, i, 0), i), j)
  {
    hide Good, Addr, FileBlock, DiskInode;
    assert OnDisk(g, s, j);
    MetaBound(g, t, owner, i);
    MetaBound(g, t, owner, j);
    DiskFrame(g, s.view, t.view, j);
    SyncedDisk(g, Resized(t, i, 0), i, j);
  }

  // ----- A new file system -----

  function EmptyInode(): Inode {
    Inode(0, 0, 0, 0, 0, seq(NDIRECT + 1, _ => 0))
  }

  // The reserved blocks below n are marked.
  function MarkReserved(g: Super, view: seq<Block>, n: nat): (r: seq<Block>)
    requires g.Ok() && n <= g.size == |view|
    ensures |r| == |view|
  {
    if n == 0 then view
    else
      var v := MarkReserved(g, view, n - 1);
      MetaBlocks(g, n - 1);
      if g.Reserved(n - 1) then Mark(g, v, n - 1) else v
  }

  // An empty file system, its log marked in the bitmap.
  function EmptyImage(g: Super): State
    requires g.Ok()
  {
    State(MarkReserved(g, seq(g.size, _ => ZeroBlock()), g.size), seq(g.ninodes, _ => EmptyInode()))
  }

  lemma {:induction false} MarkedBits(g: Super, view: seq<Block>, n: nat, b: nat)
    requires g.Ok() && n <= g.size == |view| && b < g.size
    ensures Used(g, MarkReserved(g, view, n), b) <==> Used(g, view, b) || (b < n && g.Reserved(b))
  {
    if n > 0 {
      MarkedBits(g, view, n - 1, b);
      MetaBlocks(g, n - 1);
      MetaBlocks(g, b);
      MarkBits(g, MarkReserved(g, view, n - 1), n - 1, b);
    }
  }

  lemma {:induction false} MarkedInodes(g: Super, view: seq<Block>, n: nat, i: nat)
    requires g.Ok() && n <= g.size == |view| && i < g.ninodes
    ensures g.InodeBlock(i) < |view| && MarkReserved(g, view, n)[g.InodeBlock(i)] == view[g.InodeBlock(i)]
  {
    MetaBlocks(g, i);
    if n > 0 {
      MarkedInodes(g, view, n - 1, i);
      MetaBlocks(g, n - 1);
      assert g.BitmapBlock(n - 1) >= g.BitmapBlock(0);
    }
  }

  lemma {:induction false} NoBitIn(k: nat)
    ensures !TestBit(0, k)
  {
    if k > 0 {
      NoBitIn(k - 1);
    }
  }

  // The empty file system meets everything that the operations rely on.
  lemma {:induction false} EmptyImageSettled(g: Super)
    requires g.Ok()
    ensures Settled(g, EmptyImage(g), map[])
  {
    hide MarkReserved, TestBit;
    var zeros := seq(g.size, _ => ZeroBlock());
    var s := EmptyImage(g);
    forall b | 0 <= b < g.size ensures Used(g, s.view, b) <==> g.Reserved(b) {
      MarkedBits(g, zeros, g.size, b);
      NoBitIn(b % BPB % 8);
      MetaBlocks(g, b);
    }
    forall i | 0 <= i < g.ninodes ensures OnDisk(g, s, i) {
      MarkedInodes(g, zeros, g.size, i);
      ZeroInode(s.view[g.InodeBlock(i)], i % IPB * DWORDS);
    }
    forall i, k | 0 <= i < g.ninodes && 0 <= k < SLOTS ensures Addr(s, i, k) == 0 {}
  }

  lemma {:induction false} ZeroInode(b: Block, at: nat)
    requires b == ZeroBlock() && at + DWORDS <= WORDS
    ensures WordsInode(GetWords(b, at, DWORDS)) == EmptyInode()
  {
    hide GetWord;
    var w := GetWords(b, at, DWORDS);
    assert forall k :: 0 <= k < DWORDS ==> w[k] == 0;
  }

  // The bitmap that mkfs writes: all blocks below n.
  function MarkBelow(g: Super, view: seq<Block>, n: nat): (r: seq<Block>)
    requires g.Ok() && n <= g.size == |view|
    ensures |r| == |view|
  {
    if n == 0 then view
    else
      MetaBlocks(g, n - 1);
      Mark(g, MarkBelow(g, view, n - 1), n - 1)
  }

  lemma {:induction false} BelowBits(g: Super, view: seq<Block>, n: nat, b: nat)
    requires g.Ok() && n <= g.size == |view| && b < g.size
    ensures Used(g, MarkBelow(g, view, n), b) <==> Used(g, view, b) || b < n
  {
    if n > 0 {
      BelowBits(g, view, n - 1, b);
      MetaBlocks(g, n - 1);
      MetaBlocks(g, b);
      MarkBits(g, MarkBelow(g, view, n - 1), n - 1, b);
    }
  }

  // With the files of mkfs in the data blocks before `used`, that bitmap leaves the log free for
  // balloc: it is exact only if there is no log.
  lemma {:induction false} MkfsBitmap(g: Super, used: nat, inodes: seq<Inode>, owner: Owners)
    requires g.Ok() && g.DataStart() <= used <= g.size - g.nlog
    requires forall b :: b in owner <==> g.DataStart() <= b < used
    ensures var view := MarkBelow(g, seq(g.size, _ => ZeroBlock()), used);
            && (forall b :: used <= b < g.size ==> !Used(g, view, b))
            && (BitmapExact(g, State(view, inodes), owner) <==> g.nlog == 0)
  {
    hide TestBit, MarkBelow;
    var zeros := seq(g.size, _ => ZeroBlock());
    var view := MarkBelow(g, zeros, used);
    forall b | 0 <= b < g.size ensures Used(g, view, b) <==> b < used {
      BelowBits(g, zeros, used, b);
      NoBitIn(b % BPB % 8);
      MetaBlocks(g, b);
    }
    if g.nlog > 0 {
      assert g.Reserved(g.size - 1) && !Used(g, view, g.size - 1);
    }
  }
}
