// The block allocator and the file operations of fs.c. Every block change goes through
// log_write, so `view` is the cached content that the transaction will make durable.
// A method that reports `panics` stops the machine there.
module FsCode {
  import opened Blocks
  import opened FsState
  import opened FsBlocks
  import opened FsFiles

  class FileSystem {
    const sb: Super
    var view: seq<Block>
    var inodes: seq<Inode> // the in-memory copy of each inode, by inode number
    ghost var owner: Owners

    ghost function S(): State
      reads this`view, this`inodes
    {
      State(view, inodes)
    }

    ghost predicate Valid()
      reads this
    {
      Good(sb, S(), owner) && sb.size < 0x1_0000_0000
    }

    // A new file system without files, its log marked in the bitmap.
    constructor (sb: Super)
      requires sb.Ok() && sb.size < 0x1_0000_0000
      ensures Valid() && this.sb == sb && S() == EmptyImage(sb) && Settled(sb, S(), owner)
    {
      EmptyImageSettled(sb);
      this.sb, owner := sb, map[];
      view, inodes := EmptyImage(sb).view, EmptyImage(sb).inodes;
    }

    // ----- Blocks -----

    // Allocate a zeroed disk block: the first one whose bit is clear.
    method Balloc() returns (panics: bool, b: nat)
      requires sb.Ok() && |view| == sb.size
      modifies this`view
      ensures panics ==> view == old(view) && forall c :: 0 <= c < sb.size ==> Used(sb, view, c)
      ensures !panics ==>
                && b < sb.size && !Used(sb, old(view), b) && sb.BitmapBlock(b) < |view|
                && (forall c :: 0 <= c < b ==> Used(sb, old(view), c))
                && view == FsBlocks.Balloc(sb, old(view), b)
      ensures !panics ==> forall x :: 0 <= x < BSIZE ==> view[b][x] == 0
      ensures !panics ==>
                && |view| == |old(view)|
                && forall a :: 0 <= a < |view| && a != b && a != sb.BitmapBlock(b) ==> view[a] == old(view)[a]
      ensures !panics && sb.DataStart() <= b ==>
                forall c :: 0 <= c < sb.size ==> (Used(sb, view, c) <==> Used(sb, old(view), c) || c == b)
    {
      hide TestBit, OrByte, ZeroBlock, Used, FsBlocks.Balloc;
      ghost var v := view;
      b := 0;
      while b < sb.size
        invariant b % BPB == 0 && view == v
        invariant forall c :: 0 <= c < b && c < sb.size ==> Used(sb, v, c)
      {
        var bi := FirstClear(b);
        if bi < BPB && b + bi < sb.size {
          MetaBlocks(sb, b);
          InBitmap(b, bi);
          BitOf(sb, v, b, bi);
          var bp := view[sb.BitmapBlock(b)];
          view := view[sb.BitmapBlock(b) := bp[bi / 8 := OrByte(bp[bi / 8], bi % 8)]]; // the bit is set
          view := view[b + bi := ZeroBlock()];
          BallocEffect(sb, v, b + bi);
          return false, b + bi;
        }
        assert (b + BPB) % BPB == 0;
        b := b + BPB;
      }
      panics := true; // out of blocks
    }

    // balloc's inner loop, up to the first clear bit of a bitmap block or its end.
    method FirstClear(b: nat) returns (bi: nat)
      requires sb.Ok() && |view| == sb.size && b < sb.size && b % BPB == 0
      ensures bi <= BPB && forall c :: b <= c < b + bi && c < sb.size ==> Used(sb, view, c)
      ensures bi < BPB ==> b + bi >= sb.size || !Used(sb, view, b + bi)
    {
      hide TestBit, Used, FsBlocks.Balloc;
      MetaBlocks(sb, b);
      var bp := view[sb.BitmapBlock(b)];
      bi := 0;
      while bi < BPB && b + bi < sb.size
        invariant bi <= BPB
        invariant forall c :: b <= c < b + bi && c < sb.size ==> Used(sb, view, c)
      {
        InBitmap(b, bi);
        BitOf(sb, view, b, bi);
        if !TestBit(bp[bi / 8], bi % 8) { // clear
          return;
        }
        bi := bi + 1;
      }
    }

    // The bit of block b + bi lies in the bitmap block of b.
    lemma {:induction false} InBitmap(b: nat, bi: nat)
      requires b % BPB == 0 && bi < BPB
      ensures sb.BitmapBlock(b + bi) == sb.BitmapBlock(b) && (b + bi) % BPB == bi
    {
      assert b == b / BPB * BPB;
      assert (b + bi) / BPB == b / BPB;
    }

    // Free a disk block.
    method Bfree(b: nat) returns (panics: bool)
      requires sb.Ok() && |view| == sb.size && b < sb.size
      modifies this`view
      ensures panics <==> !Used(sb, old(view), b)
      ensures panics ==> view == old(view)
      ensures !panics ==> sb.BitmapBlock(b) < |view| && view == Unmark(sb, old(view), b)
      ensures !panics ==>
                && |view| == |old(view)|
                && (forall a :: 0 <= a < |view| && a != sb.BitmapBlock(b) ==> view[a] == old(view)[a])
                && (forall c :: 0 <= c < sb.size ==> (Used(sb, view, c) <==> Used(sb, old(view), c) && c != b))
    {
      MetaBlocks(sb, b);
      BfreeEffect(sb, view, b);
      var bp := view[sb.BitmapBlock(b)];
      var bi := b % BPB;
      if !TestBit(bp[bi / 8], bi % 8) {
        return true; // freeing free block
      }
      view := view[sb.BitmapBlock(b) := bp[bi / 8 := ClearByte(bp[bi / 8], bi % 8)]];
      return false;
    }

    // ----- Block map -----

    // ip->addrs[k] = balloc(dev), for a direct block or the indirect block.
    method AllocDirect(i: nat, k: nat) returns (panics: bool, addr: Word)
      requires Valid() && i < |inodes| && k <= NDIRECT && inodes[i].addrs[k] == 0
      modifies this`view, this`inodes, this`owner
      ensures panics ==> view == old(view) && forall c :: 0 <= c < sb.size ==> Used(sb, view, c)
      ensures !panics ==>
                && Valid() && CanAlloc(sb, old(S()), old(owner), i, k, addr)
                && S() == Alloc(sb, old(S()), old(owner), i, k, addr) && inodes[i].addrs[k] == addr != 0
    {
      ghost var s := S();
      var b;
      panics, b := Balloc();
      if panics {
        return true, 0;
      }
      addr := b;
      inodes := inodes[i := inodes[i].(addrs := inodes[i].addrs[k := addr])];
      AllocGood(sb, s, owner, i, k, addr);
      AllocBounds(sb, s, owner, i, k, addr);
      owner := owner[addr := Slot(i, k)];
    }

    // a[e] = balloc(dev) in the indirect block, whose buffer is bp.
    method AllocEntry(i: nat, e: nat, bp: Block) returns (panics: bool, addr: Word)
      requires Valid() && i < |inodes| && e < NINDIRECT && inodes[i].addrs[NDIRECT] != 0
      requires inodes[i].addrs[NDIRECT] < |view| && bp == view[inodes[i].addrs[NDIRECT]] && GetWord(bp, e) == 0
      modifies this`view, this`owner
      ensures panics ==> view == old(view) && forall c :: 0 <= c < sb.size ==> Used(sb, view, c)
      ensures !panics ==>
                && Valid() && CanAlloc(sb, old(S()), old(owner), i, NDIRECT + 1 + e, addr)
                && S() == Alloc(sb, old(S()), old(owner), i, NDIRECT + 1 + e, addr)
    {
      hide Good, FsBlocks.Balloc, Used, SetWord;
      ghost var s := S();
      GoodSizes(sb, s, owner);
      var b;
      panics, b := Balloc();
      if panics {
        return true, 0;
      }
      addr := b;
      AllocBounds(sb, s, owner, i, NDIRECT + 1 + e, addr);
      AllocGood(sb, s, owner, i, NDIRECT + 1 + e, addr);
      BallocKeeps(sb, s.view, b, inodes[i].addrs[NDIRECT]);
      view := view[inodes[i].addrs[NDIRECT] := SetWord(bp, e, addr)];
      owner := owner[addr := Slot(i, NDIRECT + 1 + e)];
    }

    // The disk block of the bn-th block of inode i, allocating it if there is none.
    method Bmap(i: nat, bn: nat) returns (panics: bool, addr: Word)
      requires Valid() && i < |inodes|
      modifies this`view, this`inodes, this`owner
      ensures panics ==> bn >= MAXFILE || forall c :: 0 <= c < sb.size ==> Used(sb, view, c)
      ensures !panics ==> Valid() && bn < MAXFILE && Bmapped(sb, old(S()), S(), i, bn)
      ensures !panics ==> |inodes| == |old(inodes)| && |view| == |old(view)|
      ensures !panics ==> addr == Addr(S(), i, DataSlot(bn)) && addr != 0
      // the block number stands in addrs, or in the indirect block that addrs[NDIRECT] names
      ensures !panics && bn < NDIRECT ==> addr == inodes[i].addrs[bn]
      ensures !panics && bn >= NDIRECT ==>
                && bn - NDIRECT < NINDIRECT && 0 < inodes[i].addrs[NDIRECT] < |view|
                && addr == GetWord(view[inodes[i].addrs[NDIRECT]], bn - NDIRECT)
      ensures bn < MAXFILE && Addr(old(S()), i, DataSlot(bn)) != 0 ==> !panics && S() == old(S())
      ensures bn < NDIRECT && old(inodes)[i].addrs[bn] != 0 ==> !panics && S() == old(S())
      ensures var ind := old(inodes)[i].addrs[NDIRECT];
              NDIRECT <= bn < MAXFILE && 0 < ind < |old(view)| && GetWord(old(view)[ind], bn - NDIRECT) != 0 ==>
                !panics && S() == old(S())
    {
      hide Good, Alloc, CanAlloc, FileBlock;
      ghost var s := S();
      if bn < NDIRECT {
        addr := inodes[i].addrs[bn];
        if addr == 0 {
          ghost var o := owner;
          panics, addr := AllocDirect(i, bn);
          if !panics {
            BmapOne(sb, s, o, i, bn, addr);
          }
          return;
        }
        BmapSame(sb, s, owner, i, bn);
        return false, addr;
      }
      var e := bn - NDIRECT;
      if e < NINDIRECT {
        // The block is an entry of the indirect block, which may have to be made first.
        addr := inodes[i].addrs[NDIRECT];
        ghost var o, ind := owner, addr;
        if addr == 0 {
          panics, addr := AllocDirect(i, NDIRECT);
          if panics {
            return;
          }
        }
        ghost var t, o1, ind1 := S(), owner, addr;
        panics, addr := BmapEntry(i, e, addr);
        if !panics && ind == 0 {
          BmapAfterIndirect(sb, s, t, S(), o, i, bn, ind1);
        }
        return;
      }
      return true, 0; // bmap: out of range
    }

    // bmap once the indirect block addr is there: its e-th entry, allocated if empty.
    method BmapEntry(i: nat, e: nat, ind: Word) returns (panics: bool, addr: Word)
      requires Valid() && i < |inodes| && e < NINDIRECT && inodes[i].addrs[NDIRECT] == ind != 0
      modifies this`view, this`owner
      ensures panics ==> forall c :: 0 <= c < sb.size ==> Used(sb, view, c)
      ensures !panics ==> Valid() && Bmapped(sb, old(S()), S(), i, NDIRECT + e)
      ensures !panics ==> addr == Addr(S(), i, DataSlot(NDIRECT + e))
      ensures Addr(old(S()), i, DataSlot(NDIRECT + e)) != 0 ==> !panics && S() == old(S())
    {
      hide Good, Grown, Alloc, CanAlloc, FileBlock;
      ghost var s, o := S(), owner;
      Owner(sb, s, o, i, NDIRECT);
      var bp := view[ind];
      addr := GetWord(bp, e);
      if addr == 0 {
        panics, addr := AllocEntry(i, e, bp);
        if !panics {
          BmapOne(sb, s, o, i, NDIRECT + e, addr);
        }
        return;
      }
      BmapSame(sb, s, o, i, NDIRECT + e);
      return false, addr;
    }

    // ----- Reading and writing -----

    // The dinode of inode i becomes equal to inodes[i].
    method Iupdate(i: nat)
      requires Valid() && i < |inodes|
      modifies this`view
      ensures Valid() && sb.InodeBlock(i) < |view| && view == Update(sb, old(view), i, inodes[i])
      ensures |view| == |old(view)| && forall x :: 0 <= x < |view| && x != sb.InodeBlock(i) ==> view[x] == old(view)[x]
      ensures forall j :: 0 <= j < |inodes| ==>
                && sb.InodeBlock(j) < |view|
                && DiskInode(sb, view, j) == if j == i then inodes[i] else DiskInode(sb, old(view), j)
    {
      hide Addr, Used, PutWords, DiskInode;
      ghost var s := S();
      forall j | 0 <= j < |inodes|
        ensures sb.InodeBlock(j) < |view| && sb.InodeBlock(i) < |view|
        ensures DiskInode(sb, Update(sb, view, i, inodes[i]), j) == if j == i then inodes[i] else DiskInode(sb, view, j)
      {
        MetaBlocks(sb, i);
        MetaBlocks(sb, j);
        UpdateInodes(sb, view, i, inodes[i], j);
      }
      MetaBlocks(sb, i);
      var n := sb.InodeBlock(i);
      view := view[n := PutWords(view[n], i % IPB * DWORDS, InodeWords(inodes[i]))];
      forall a | a in owner ensures a != n {
        assert !sb.Reserved(a);
      }
      SameGood(sb, s, S(), owner);
    }

    // readi on a plain file: at most |dst| bytes from offset off.
    method Readi(i: nat, dst: array<Byte>, off: nat) returns (panics: bool, r: int)
      requires Valid() && i < |inodes| && Shaped(S(), i) && off < 0x1_0000_0000 && dst.Length < 0x8000_0000
      modifies this`view, this`inodes, this`owner, dst
      ensures !panics && S() == old(S()) && Valid()
      ensures var size := inodes[i].size;
              if off > size || off + dst.Length >= 0x1_0000_0000 then r == -1 && dst[..] == old(dst[..])
              else
                && r == (if off + dst.Length > size then size - off else dst.Length)
                && dst[..] == Filled(old(dst[..]), Contents(S(), i)[off..off + r])
                && (forall k :: 0 <= k < r ==> dst[k] == Contents(S(), i)[off + k])
                && (forall k :: r <= k < dst.Length ==> dst[k] == old(dst[k]))
    {
      hide Good, Addr, FileBlock, Bmapped, Contents, MapsExactly, Overwrite, Filled;
      var n := dst.Length;
      if off > inodes[i].size || off + n >= 0x1_0000_0000 {
        return false, -1;
      }
      if off + n > inodes[i].size {
        n := inodes[i].size - off;
      }
      ghost var s, d := S(), dst[..];
      ghost var c := Contents(s, i);
      FillNothing(d, c[off..off]);
      var tot, o := 0, off;
      while tot < n
        invariant S() == s && Valid()
        invariant tot <= n <= dst.Length && o == off + tot && off + n <= s.inodes[i].size
        invariant dst[..] == Filled(d, c[off..o])
      {
        var addr;
        MappedBelowSize(sb, s, owner, i, o);
        panics, addr := Bmap(i, o / BSIZE);
        var bp := view[addr];
        var m := Min(n - tot, BSIZE - o % BSIZE);
        ReadChunk(s, i, o, m);
        FillMore(d, c[off..o], c[o..o + m]);
        assert c[off..o + m] == c[off..o] + c[o..o + m];
        Memmove(dst, tot, bp, o % BSIZE, m);
        tot, o := tot + m, o + m;
      }
      FilledAt(d, c[off..o]);
      assert forall k :: 0 <= k < dst.Length ==> dst[k] == dst[..][k];
      return false, n;
    }

    // writei on a plain file: all of src at offset off, or -1.
    method Writei(i: nat, src: seq<Byte>, off: nat) returns (panics: bool, r: int)
      requires Valid() && Settled(sb, S(), owner) && i < |inodes| && off < 0x1_0000_0000 && |src| < 0x8000_0000
      modifies this`view, this`inodes, this`owner
      ensures panics ==> forall c :: 0 <= c < sb.size ==> Used(sb, view, c) // out of blocks
      ensures !panics ==> Valid() && Settled(sb, S(), owner) && |inodes| == |old(inodes)|
      ensures !panics ==> (r == -1 <==>
                off > old(inodes)[i].size || off + |src| >= 0x1_0000_0000 || off + |src| > MAXFILE * BSIZE)
      ensures !panics && r == -1 ==> S() == old(S())
      ensures !panics && r != -1 ==> r == |src| && Written(old(S()), S(), i, off, src)
      // the boot block, the superblock and the log are never written
      ensures !panics ==>
                && |view| == |old(view)|
                && forall x :: 0 <= x < |view| && (x < 2 || x + sb.nlog >= sb.size) ==> view[x] == old(view)[x]
    {
      hide Good, Addr, FileBlock, Grown, Writing, Splice, Settled, Written, Used;
      var n := |src|;
      if off > inodes[i].size || off + n >= 0x1_0000_0000 {
        return false, -1;
      }
      if off + n > MAXFILE * BSIZE {
        return false, -1;
      }
      ghost var s, w0 := S(), owner;
      var tot, o := 0, off;
      WriteStart(sb, s, owner, i, off, src);
      while tot < n
        invariant Valid() && |inodes| == |s.inodes| && Writing(sb, s, S(), owner, i, off, src, tot)
        invariant tot <= n && o == off + tot
      {
        ghost var t, w := S(), owner;
        var addr;
        panics, addr := Bmap(i, o / BSIZE);
        if panics {
          return true, 0;
        }
        Owner(sb, S(), owner, i, DataSlot(o / BSIZE));
        var bp := view[addr];
        var m := Min(n - tot, BSIZE - o % BSIZE);
        WriteStep(sb, s, t, w, S(), owner, i, off, src, tot, m);
        WriteGood(sb, S(), owner, i, o / BSIZE, Splice(bp, o % BSIZE, src[tot..tot + m]));
        view := view[addr := Splice(bp, o % BSIZE, src[tot..tot + m])];
        tot, o := tot + m, o + m;
      }
      WriteEnd(sb, s, w0, S(), owner, i, off, src);
      ResizedSame(sb, S(), owner, i, o);
      ghost var u := S();
      WritingFixed(sb, s, u, owner, i, off, src, n);
      if n > 0 && o > inodes[i].size {
        inodes := inodes[i := inodes[i].(size := o)];
        Iupdate(i);
        assert S() == Synced(sb, Resized(u, i, o), i);
      }
      assert S() == WriteResult(sb, u, i, o);
      return false, n;
    }

    // ----- Truncation -----

    // All blocks of inode i become free and its size 0. No bfree in it can panic.
    method Itrunc(i: nat) returns (panics: bool)
      requires Valid() && Settled(sb, S(), owner) && i < |inodes|
      modifies this`view, this`inodes, this`owner
      ensures !panics && Valid() && Settled(sb, S(), owner) && |inodes| == |old(inodes)|
      ensures inodes == old(inodes)[i := old(inodes)[i].(size := 0, addrs := inodes[i].addrs)]
      ensures forall l :: 0 <= l < SLOTS ==> Addr(S(), i, l) == 0
      ensures forall k :: 0 <= k <= NDIRECT ==> inodes[i].addrs[k] == 0
      ensures |view| == |old(view)| && forall x :: 0 <= x < |view| && (x < 2 || x + sb.nlog >= sb.size) ==> view[x] == old(view)[x]
      ensures forall a :: a in owner <==> a in old(owner) && old(owner)[a].inum != i
      ensures forall j :: 0 <= j < |inodes| && j != i ==>
                inodes[j].size <= MAXFILE * BSIZE && Contents(S(), j) == Contents(old(S()), j)
    {
      hide Good, Addr, FileBlock, Trimmed, Settled, Contents;
      ghost var s, w := S(), owner;
      TrimStart(sb, s, w, i);
      assert Direct(0) == {};
      panics := false;
      var k := 0;
      while k < NDIRECT
        invariant Valid() && k <= NDIRECT && |inodes| == |s.inodes| && panics == false
        invariant Trimmed(sb, s, w, S(), owner, i, Direct(k))
      {
        panics := FreeDirect(s, w, i, k, Direct(k));
        assert Direct(k + 1) == Direct(k) + {k};
        k := k + 1;
      }
      panics := FreeIndirect(s, w, i);
      TrimEnd(sb, s, w, S(), owner, i);
      ResizedSame(sb, S(), owner, i, 0);
      TrimmedFixed(sb, s, w, S(), owner, i);
      inodes := inodes[i := inodes[i].(size := 0)];
      Iupdate(i);
      return false;
    }

    // The body of itrunc's first loop.
    method FreeDirect(ghost s: State, ghost w: Owners, i: nat, k: nat, ghost done: set<nat>) returns (panics: bool)
      requires Valid() && i < |s.inodes| == |inodes| && k < NDIRECT
      requires Trimmed(sb, s, w, S(), owner, i, done)
      modifies this`view, this`inodes, this`owner
      ensures !panics && Valid() && |inodes| == |s.inodes|
      ensures Trimmed(sb, s, w, S(), owner, i, done + {k})
    {
      hide Good, FileBlock, Trimmed, Unmark, Used;
      ghost var t, o := S(), owner;
      var a := inodes[i].addrs[k];
      if a == 0 {
        TrimSkip(sb, s, w, t, o, i, done, k);
        return false;
      }
      FreeBounds(sb, t, o, i, k);
      TrimStep(sb, s, w, t, o, i, done, k);
      panics := Bfree(a);
      inodes := inodes[i := inodes[i].(addrs := inodes[i].addrs[k := 0])];
      owner := owner - {a as nat};
      assert S() == Release(sb, t, o, i, k);
    }

    // The second half of itrunc: the entries of the indirect block, then the block itself.
    method FreeIndirect(ghost s: State, ghost w: Owners, i: nat) returns (panics: bool)
      requires Valid() && i < |s.inodes| == |inodes|
      requires Trimmed(sb, s, w, S(), owner, i, Direct(NDIRECT))
      modifies this`view, this`inodes, this`owner
      ensures !panics && Valid() && |inodes| == |s.inodes|
      ensures Trimmed(sb, s, w, S(), owner, i, All())
    {
      hide Good, FileBlock, Trimmed, Unmark, Used;
      var ind := inodes[i].addrs[NDIRECT];
      if ind == 0 {
        TrimRest(sb, s, w, S(), owner, i);
        return false;
      }
      ghost var G := S(); // the state in which the freed entries are also cleared
      IndirectStart(s, w, i);
      var bp := view[ind];
      var j := 0;
      while j < NINDIRECT
        invariant j <= NINDIRECT && Valid2(G, i, ind, bp) && |G.inodes| == |s.inodes|
        invariant Trimmed(sb, s, w, G, owner, i, DirectAnd(j))
        invariant forall e :: j <= e < NINDIRECT ==> Addr(s, i, NDIRECT + 1 + e) == GetWord(bp, e)
        invariant Addr(s, i, NDIRECT) == ind
      {
        G := FreeEntry(s, w, G, i, j, ind, bp);
        j := j + 1;
      }
      IndirectLast(sb, s, w, G, owner, i);
      FreeBounds(sb, G, owner, i, NDIRECT);
      UnmarkFrame(sb, G.view, ind, bp, ind);
      TrimStep(sb, s, w, G, owner, i, DirectAnd(NINDIRECT), NDIRECT);
      panics := Bfree(ind);
      inodes := inodes[i := inodes[i].(addrs := inodes[i].addrs[NDIRECT := 0])];
      G := Release(sb, G, owner, i, NDIRECT);
      owner := owner - {ind as nat};
      TrimFrame(sb, s, w, G, owner, i, All(), ind, bp);
      assert S() == G.(view := G.view[ind := bp]);
    }

    // The body of the loop over the entries.
    method FreeEntry(ghost s: State, ghost w: Owners, ghost G0: State, i: nat, j: nat, ind: Word, bp: Block) returns (ghost G: State)
      requires i < |s.inodes| && j < NINDIRECT && Valid2(G0, i, ind, bp) && |G0.inodes| == |s.inodes|
      requires Trimmed(sb, s, w, G0, owner, i, DirectAnd(j))
      requires Addr(s, i, NDIRECT + 1 + j) == GetWord(bp, j) && Addr(s, i, NDIRECT) == ind != 0
      modifies this`view, this`owner
      ensures Valid2(G, i, ind, bp) && |G.inodes| == |s.inodes|
      ensures Trimmed(sb, s, w, G, owner, i, DirectAnd(j + 1))
    {
      hide Good, FileBlock, Trimmed, Unmark, Used;
      G := G0;
      var a := GetWord(bp, j);
      Entries(sb, s, w, G, owner, i, j);
      assert DirectAnd(j + 1) == DirectAnd(j) + {NDIRECT + 1 + j};
      if a != 0 {
        FreeBounds(sb, G, owner, i, NDIRECT + 1 + j);
        UnmarkFrame(sb, G.view, ind, bp, a);
        TrimStep(sb, s, w, G, owner, i, DirectAnd(j), NDIRECT + 1 + j);
        var panics := Bfree(a);
        assert !panics; // no freeing of a free block
        G := Release(sb, G, owner, i, NDIRECT + 1 + j);
        owner := owner - {a as nat};
      } else {
        TrimSkip(sb, s, w, G, owner, i, DirectAnd(j), NDIRECT + 1 + j);
      }
    }

    // The real state is G, except that the indirect block still holds its old entries.
    ghost predicate Valid2(G: State, i: nat, ind: nat, bp: Block)
      reads this
    {
      && sb.size < 0x1_0000_0000 && Good(sb, G, owner)
      && i < |inodes| && inodes == G.inodes && ind < |G.view| && view == G.view[ind := bp]
    }

    lemma {:induction false} IndirectStart(s: State, w: Owners, i: nat)
      requires Valid() && i < |s.inodes| == |inodes| && inodes[i].addrs[NDIRECT] != 0
      requires Trimmed(sb, s, w, S(), owner, i, Direct(NDIRECT))
      ensures Trimmed(sb, s, w, S(), owner, i, DirectAnd(0))
      ensures inodes[i].addrs[NDIRECT] < |view| && Addr(s, i, NDIRECT) == inodes[i].addrs[NDIRECT]
      ensures forall e: nat :: e < NINDIRECT ==>
                Addr(s, i, NDIRECT + 1 + e) == GetWord(view[inodes[i].addrs[NDIRECT]], e)
      ensures view == view[inodes[i].addrs[NDIRECT] := view[inodes[i].addrs[NDIRECT]]]
    {
      hide Good, FileBlock, OthersKept;
      assert DirectAnd(0) == Direct(NDIRECT);
      Owner(sb, S(), owner, i, NDIRECT);
      var bp := view[inodes[i].addrs[NDIRECT]];
      forall e: nat | e < NINDIRECT
        ensures Addr(s, i, NDIRECT + 1 + e) == GetWord(bp, e)
      {
        assert Addr(S(), i, NDIRECT + 1 + e) == Addr(s, i, NDIRECT + 1 + e);
      }
    }
  }

  // The bit that balloc looks at, and what it does when this is clear.
  lemma {:induction false} BitOf(g: Super, view: seq<Block>, b: nat, bi: nat)
    requires g.Ok() && |view| == g.size && b + bi < g.size && bi < BPB
    requires g.BitmapBlock(b + bi) == g.BitmapBlock(b) && (b + bi) % BPB == bi
    ensures g.BitmapBlock(b) < |view|
    ensures var bp := view[g.BitmapBlock(b)];
            && Used(g, view, b + bi) == TestBit(bp[bi / 8], bi % 8)
            && FsBlocks.Balloc(g, view, b + bi)
            == view[g.BitmapBlock(b) := bp[bi / 8 := OrByte(bp[bi / 8], bi % 8)]][b + bi := ZeroBlock()]
  {
    hide TestBit, OrByte, ZeroBlock;
    MetaBlocks(g, b + bi);
  }

  // balloc clears the block, sets its bit and changes nothing else.
  lemma {:induction false} BallocEffect(g: Super, view: seq<Block>, b: nat)
    requires g.Ok() && |view| == g.size && b < g.size
    ensures g.BitmapBlock(b) < |view|
    ensures var r := FsBlocks.Balloc(g, view, b);
            && (forall x :: 0 <= x < BSIZE ==> r[b][x] == 0)
            && (forall a :: 0 <= a < |view| && a != b && a != g.BitmapBlock(b) ==> r[a] == view[a])
            && (g.DataStart() <= b ==> forall c :: 0 <= c < g.size ==> (Used(g, r, c) <==> Used(g, view, c) || c == b))
  {
    hide TestBit, OrByte;
    MetaBlocks(g, b);
    forall c | 0 <= c < g.size && g.DataStart() <= b
      ensures Used(g, FsBlocks.Balloc(g, view, b), c) <==> Used(g, view, c) || c == b
    {
      MetaBlocks(g, c);
      MarkBits(g, view, b, c);
    }
  }

  // bfree clears the bit and changes nothing else.
  lemma {:induction false} BfreeEffect(g: Super, view: seq<Block>, b: nat)
    requires g.Ok() && |view| == g.size && b < g.size
    ensures g.BitmapBlock(b) < |view|
    ensures var r := Unmark(g, view, b);
            && (forall a :: 0 <= a < |view| && a != g.BitmapBlock(b) ==> r[a] == view[a])
            && (forall c :: 0 <= c < g.size ==> (Used(g, r, c) <==> Used(g, view, c) && c != b))
  {
    hide TestBit, ClearByte;
    MetaBlocks(g, b);
    forall c | 0 <= c < g.size
      ensures Used(g, Unmark(g, view, b), c) <==> Used(g, view, c) && c != b
    {
      MetaBlocks(g, c);
      MarkBits(g, view, b, c);
    }
  }

  lemma {:induction false} BallocKeeps(g: Super, view: seq<Block>, b: nat, x: nat)
    requires b < |view| && g.BitmapBlock(b) < |view| && x < |view| && x != b && x != g.BitmapBlock(b)
    ensures FsBlocks.Balloc(g, view, b)[x] == view[x]
  {
  }

  lemma {:induction false} GoodSizes(g: Super, s: State, owner: Owners)
    requires Good(g, s, owner)
    ensures g.Ok() && |s.view| == g.size
  {
  }

  function Min(a: nat, b: nat): nat {
    if a < b then a else b
  }

  // A buffer whose front has been filled.
  function Filled(d: seq<Byte>, done: seq<Byte>): seq<Byte>
    requires |done| <= |d|
  {
    done + d[|done|..]
  }

  // A buffer with some bytes replaced.
  function Overwrite(d: seq<Byte>, at: nat, chunk: seq<Byte>): (r: seq<Byte>)
    requires at + |chunk| <= |d|
    ensures |r| == |d|
  {
    d[..at] + chunk + d[at + |chunk|..]
  }

  lemma {:induction false} FilledAt(d: seq<Byte>, done: seq<Byte>)
    requires |done| <= |d|
    ensures |Filled(d, done)| == |d|
    ensures forall k :: 0 <= k < |d| ==> Filled(d, done)[k] == if k < |done| then done[k] else d[k]
  {
  }

  lemma {:induction false} FillNothing(d: seq<Byte>, none: seq<Byte>)
    requires none == []
    ensures Filled(d, none) == d
  {
  }

  lemma {:induction false} FillMore(d: seq<Byte>, done: seq<Byte>, chunk: seq<Byte>)
    requires |done| + |chunk| <= |d|
    ensures |Filled(d, done)| == |d|
    ensures Overwrite(Filled(d, done), |done|, chunk) == Filled(d, done + chunk)
  {
  }

  // memmove(dst + at, src + from, n)
  method Memmove(dst: array<Byte>, at: nat, src: seq<Byte>, from: nat, n: nat)
    requires at + n <= dst.Length && from + n <= |src|
    modifies dst
    ensures dst[..] == Overwrite(old(dst[..]), at, src[from..from + n])
  {
    ghost var d := dst[..];
    var k := 0;
    while k < n
      invariant k <= n
      invariant |d| == dst.Length && forall j :: 0 <= j < dst.Length ==>
                  dst[j] == if at <= j < at + k then src[from + (j - at)] else d[j]
    {
      dst[at + k] := src[from + k];
      k := k + 1;
    }
    assert dst[..] == Overwrite(d, at, src[from..from + n]);
  }
}
