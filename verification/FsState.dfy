// The on-disk structures of fs.c as values: the free bitmap, inodes with direct and indirect
// blocks, and what they mean. view is the content of every block as bread returns it.
module FsState {
  import opened Blocks

  const NDIRECT: nat := 12
  const NINDIRECT: nat := WORDS // BSIZE / sizeof(uint)
  const MAXFILE: nat := NDIRECT + NINDIRECT
  const IPB: nat := 8 // BSIZE / sizeof(struct dinode)
  const BPB: nat := BSIZE * 8
  const SLOTS: nat := NDIRECT + 1 + NINDIRECT

  // memset(bp->data, 0, BSIZE)
  function ZeroBlock(): (r: Block)
    ensures forall i :: 0 <= i < BSIZE ==> r[i] == 0
    ensures forall j: nat :: j < WORDS ==> GetWord(r, j) == 0
  {
    seq(BSIZE, i => 0)
  }

  // ----- Superblock and layout -----

  // Block 0 is unused, block 1 the superblock, then inodes, bitmap, data, log.
  datatype Super = Super(size: nat, ninodes: nat, nlog: nat) {
    // IBLOCK
    function InodeBlock(i: nat): nat {
      i / IPB + 2
    }

    // BBLOCK
    function BitmapBlock(b: nat): nat {
      b / BPB + ninodes / IPB + 3
    }

    function DataStart(): nat {
      size / BPB + 1 + ninodes / IPB + 3
    }

    ghost predicate Ok() {
      nlog <= size && DataStart() <= size - nlog
    }

    // Everything but the data blocks: no file may own it.
    predicate Reserved(b: nat) {
      b < DataStart() || b + nlog >= size
    }

    // The boot block, the superblock, the inode blocks and the log: balloc and bfree do not
    // change them, and no file owns them.
    predicate Fixed(b: nat) {
      b < BitmapBlock(0) || b + nlog >= size
    }
  }

  // ----- Bits -----

  // (x & (1 << k)) != 0
  predicate TestBit(x: nat, k: nat) {
    if k == 0 then x % 2 == 1 else TestBit(x / 2, k - 1)
  }

  // x | (1 << k)
  function OrBit(x: nat, k: nat): nat {
    if k == 0 then x / 2 * 2 + 1 else OrBit(x / 2, k - 1) * 2 + x % 2
  }

  // x & ~(1 << k)
  function ClearBit(x: nat, k: nat): nat {
    if k == 0 then x / 2 * 2 else ClearBit(x / 2, k - 1) * 2 + x % 2
  }

  lemma {:induction false} OrBitTests(x: nat, k: nat, j: nat)
    ensures TestBit(OrBit(x, k), j) <==> TestBit(x, j) || j == k
  {
    if k > 0 && j > 0 {
      OrBitTests(x / 2, k - 1, j - 1);
    }
  }

  lemma {:induction false} ClearBitTests(x: nat, k: nat, j: nat)
    ensures TestBit(ClearBit(x, k), j) <==> TestBit(x, j) && j != k
  {
    if k > 0 && j > 0 {
      ClearBitTests(x / 2, k - 1, j - 1);
    }
  }

  function Pow2(n: nat): nat {
    if n == 0 then 1 else 2 * Pow2(n - 1)
  }

  // Setting or clearing a bit of an n-bit number leaves an n-bit number.
  lemma {:induction false} BitsFit(x: nat, k: nat, n: nat)
    requires x < Pow2(n) && k < n
    ensures OrBit(x, k) < Pow2(n) && ClearBit(x, k) < Pow2(n)
  {
    if k > 0 {
      BitsFit(x / 2, k - 1, n - 1);
    }
  }

  function OrByte(x: Byte, k: nat): (r: Byte)
    requires k < 8
    ensures forall j :: 0 <= j < 8 ==> (TestBit(r, j) <==> TestBit(x, j) || j == k)
  {
    assert Pow2(8) == 256;
    BitsFit(x, k, 8);
    assert forall j :: 0 <= j < 8 ==> (TestBit(OrBit(x, k), j) <==> TestBit(x, j) || j == k) by {
      forall j | 0 <= j < 8 ensures TestBit(OrBit(x, k), j) <==> TestBit(x, j) || j == k {
        OrBitTests(x, k, j);
      }
    }
    OrBit(x, k)
  }

  function ClearByte(x: Byte, k: nat): (r: Byte)
    requires k < 8
    ensures forall j :: 0 <= j < 8 ==> (TestBit(r, j) <==> TestBit(x, j) && j != k)
  {
    assert Pow2(8) == 256;
    BitsFit(x, k, 8);
    assert forall j :: 0 <= j < 8 ==> (TestBit(ClearBit(x, k), j) <==> TestBit(x, j) && j != k) by {
      forall j | 0 <= j < 8 ensures TestBit(ClearBit(x, k), j) <==> TestBit(x, j) && j != k {
        ClearBitTests(x, k, j);
      }
    }
    ClearBit(x, k)
  }

  // The bit of block b is set in the bitmap.
  predicate Used(g: Super, view: seq<Block>, b: nat) {
    && g.BitmapBlock(b) < |view|
    && TestBit(view[g.BitmapBlock(b)][b % BPB / 8], b % BPB % 8)
  }

  // bp->data[bi/8] |= m and bp->data[bi/8] &= ~m in the bitmap block of b.
  function Mark(g: Super, view: seq<Block>, b: nat): (r: seq<Block>)
    requires g.BitmapBlock(b) < |view|
    ensures |r| == |view|
  {
    var n, i := g.BitmapBlock(b), b % BPB / 8;
    view[n := view[n][i := OrByte(view[n][i], b % BPB % 8)]]
  }

  function Unmark(g: Super, view: seq<Block>, b: nat): (r: seq<Block>)
    requires g.BitmapBlock(b) < |view|
    ensures |r| == |view|
  {
    var n, i := g.BitmapBlock(b), b % BPB / 8;
    view[n := view[n][i := ClearByte(view[n][i], b % BPB % 8)]]
  }

  // Distinct blocks have distinct bits.
  lemma {:induction false} BitPlace(g: Super, b: nat, c: nat)
    requires g.BitmapBlock(b) == g.BitmapBlock(c)
    requires b % BPB / 8 == c % BPB / 8 && b % BPB % 8 == c % BPB % 8
    ensures b == c
  {
    assert b / BPB == c / BPB;
    assert b % BPB == b % BPB / 8 * 8 + b % BPB % 8;
    assert c % BPB == c % BPB / 8 * 8 + c % BPB % 8;
    assert b == b / BPB * BPB + b % BPB && c == c / BPB * BPB + c % BPB;
  }

  lemma {:induction false} MarkBits(g: Super, view: seq<Block>, b: nat, c: nat)
    requires g.BitmapBlock(b) < |view| && g.BitmapBlock(c) < |view|
    ensures Used(g, Mark(g, view, b), c) <==> Used(g, view, c) || c == b
    ensures Used(g, Unmark(g, view, b), c) <==> Used(g, view, c) && c != b
  {
    hide TestBit, OrByte, ClearByte;
    if g.BitmapBlock(b) == g.BitmapBlock(c) && b % BPB / 8 == c % BPB / 8 && b % BPB % 8 == c % BPB % 8 {
      BitPlace(g, b, c);
    }
  }

  // The bit of block b in the raw bytes: the bitmap comes after the inodes, one bit for each block,
  // the lowest bit of a byte first.
  lemma {:induction false} UsedIs(g: Super, view: seq<Block>, b: nat)
    requires 3 + g.ninodes / 8 + b / 4096 < |view|
    ensures Used(g, view, b) <==>
              view[3 + g.ninodes / 8 + b / 4096][b % 4096 / 8] / [1, 2, 4, 8, 16, 32, 64, 128][b % 8] % 2 == 1
  {
    hide TestBit;
    assert b % BPB % 8 == b % 8 by {
      assert b % BPB == b - 8 * (512 * (b / BPB));
    }
    assert g.BitmapBlock(b) == 3 + g.ninodes / 8 + b / 4096;
    BitIs(view[3 + g.ninodes / 8 + b / 4096][b % 4096 / 8], b % 8);
  }

  lemma {:induction false} BitIs(x: nat, k: nat)
    requires k < 8
    ensures TestBit(x, k) <==> x / [1, 2, 4, 8, 16, 32, 64, 128][k] % 2 == 1
    decreases k
  {
    if k > 0 {
      BitIs(x / 2, k - 1);
    }
  }

  // The order of the parts of an image: boot block and superblock, inode blocks, bitmap blocks,
  // data blocks, log.
  lemma {:induction false} LayoutOrder(g: Super, i: nat, b: nat, a: nat)
    requires g.Ok() && i < g.ninodes && b < g.size && a < g.size && !g.Reserved(a)
    ensures 2 <= g.InodeBlock(i) < g.BitmapBlock(b) < a < g.size - g.nlog
    ensures g.InodeBlock(i) == 2 + i / 8 && g.BitmapBlock(b) == 3 + g.ninodes / 8 + b / 4096
  {
    assert i / IPB <= g.ninodes / IPB && b / BPB <= g.size / BPB;
  }

  // ----- Inodes -----

  type Short = x: int | 0 <= x < 0x1_0000
  type Addrs = a: seq<Word> | |a| == NDIRECT + 1 witness seq(NDIRECT + 1, i => 0)

  // struct dinode, and the part of struct inode that mirrors it.
  datatype Inode = Inode(typ: Short, major: Short, minor: Short, nlink: Short, size: Word, addrs: Addrs)

  const DWORDS: nat := 16 // sizeof(struct dinode) / sizeof(uint)

  function InodeWords(ip: Inode): (r: seq<Word>)
    ensures |r| == DWORDS
  {
    [ip.typ + 0x1_0000 * ip.major, ip.minor + 0x1_0000 * ip.nlink, ip.size] + ip.addrs
  }

  function WordsInode(w: seq<Word>): Inode
    requires |w| == DWORDS
  {
    Inode(w[0] % 0x1_0000, w[0] / 0x1_0000, w[1] % 0x1_0000, w[1] / 0x1_0000, w[2], w[3..])
  }

  lemma {:induction false} InodeRoundTrip(ip: Inode)
    ensures WordsInode(InodeWords(ip)) == ip
  {
  }

  // The words of a block from position i on.
  function GetWords(b: Block, i: nat, n: nat): (r: seq<Word>)
    requires i + n <= WORDS
    ensures |r| == n
    ensures forall k :: 0 <= k < n ==> r[k] == GetWord(b, i + k)
  {
    if n == 0 then [] else GetWords(b, i, n - 1) + [GetWord(b, i + n - 1)]
  }

  function PutWords(b: Block, i: nat, w: seq<Word>): (r: Block)
    requires i + |w| <= WORDS
    ensures forall k: nat :: k < WORDS && !(i <= k < i + |w|) ==> GetWord(r, k) == GetWord(b, k)
    ensures forall k :: 0 <= k < |w| ==> GetWord(r, i + k) == w[k]
    decreases |w|
  {
    if w == [] then b else PutWords(SetWord(b, i, w[0]), i + 1, w[1..])
  }

  // (struct dinode*)bp->data + inum%IPB, read and written.
  function DiskInode(g: Super, view: seq<Block>, i: nat): Inode
    requires g.InodeBlock(i) < |view|
  {
    WordsInode(GetWords(view[g.InodeBlock(i)], i % IPB * DWORDS, DWORDS))
  }

  function Update(g: Super, view: seq<Block>, i: nat, ip: Inode): (r: seq<Block>)
    requires g.InodeBlock(i) < |view|
    ensures |r| == |view|
  {
    var n := g.InodeBlock(i);
    view[n := PutWords(view[n], i % IPB * DWORDS, InodeWords(ip))]
  }

  function Bytes2(b: Block, at: nat): nat
    requires at + 2 <= BSIZE
  {
    b[at] as int + 256 * b[at + 1] as int
  }

  function Bytes4(b: Block, at: nat): nat
    requires at + 4 <= BSIZE
  {
    b[at] as int + 256 * b[at + 1] as int + 65536 * b[at + 2] as int + 16777216 * b[at + 3] as int
  }

  // Where the fields of inode i stand, byte for byte: eight dinodes in a block, each of 64 bytes.
  lemma {:induction false} DinodeAt(g: Super, view: seq<Block>, i: nat)
    requires 2 + i / 8 < |view|
    ensures g.InodeBlock(i) == 2 + i / 8
    ensures var b, at, ip := view[2 + i / 8], i % 8 * 64, DiskInode(g, view, i);
            && ip.typ == Bytes2(b, at) && ip.major == Bytes2(b, at + 2) && ip.minor == Bytes2(b, at + 4)
            && ip.nlink == Bytes2(b, at + 6) && ip.size == Bytes4(b, at + 8)
            && forall k :: 0 <= k <= 12 ==> ip.addrs[k] == Bytes4(b, at + 12 + 4 * k)
  {
    hide GetWord, Bytes2, Bytes4;
    var b, j := view[2 + i / 8], i % IPB * DWORDS;
    WordParts(b, j);
    WordParts(b, j + 1);
    WordParts(b, j + 2);
    forall k | 0 <= k <= 12 ensures GetWords(b, j, DWORDS)[3..][k] == Bytes4(b, 4 * j + 12 + 4 * k) {
      WordParts(b, j + 3 + k);
    }
  }

  lemma {:induction false} WordParts(b: Block, j: nat)
    requires j < WORDS
    ensures GetWord(b, j) == Bytes4(b, 4 * j)
    ensures GetWord(b, j) % 0x1_0000 == Bytes2(b, 4 * j) && GetWord(b, j) / 0x1_0000 == Bytes2(b, 4 * j + 2)
  {
    assert GetWord(b, j) == Bytes2(b, 4 * j) + 0x1_0000 * Bytes2(b, 4 * j + 2);
  }

  // iupdate writes one disk inode and leaves the others alone.
  lemma {:induction false} UpdateInodes(g: Super, view: seq<Block>, i: nat, ip: Inode, j: nat)
    requires g.InodeBlock(i) < |view| && g.InodeBlock(j) < |view|
    ensures DiskInode(g, Update(g, view, i, ip), j) == if j == i then ip else DiskInode(g, view, j)
  {
    hide PutWords, GetWord;
    var v := Update(g, view, i, ip);
    InodeRoundTrip(ip);
    if g.InodeBlock(i) == g.InodeBlock(j) {
      var old_, new_ := view[g.InodeBlock(j)], v[g.InodeBlock(j)];
      if i == j {
        assert GetWords(new_, j % IPB * DWORDS, DWORDS) == InodeWords(ip);
      } else {
        assert i % IPB != j % IPB;
        assert GetWords(new_, j % IPB * DWORDS, DWORDS) == GetWords(old_, j % IPB * DWORDS, DWORDS);
      }
    }
  }

  // ----- Who owns which block -----

  // Block position k of inode i: 0..11 direct, 12 the indirect block, 13.. its entries.
  datatype Slot = Slot(inum: nat, k: nat)

  datatype State = State(view: seq<Block>, inodes: seq<Inode>)

  // The block number stored at a position; 0 if there is none.
  function Addr(s: State, i: nat, k: nat): (a: Word)
    requires i < |s.inodes| && k < SLOTS
  {
    var addrs := s.inodes[i].addrs;
    if k <= NDIRECT then addrs[k]
    else if 0 < addrs[NDIRECT] < |s.view| then GetWord(s.view[addrs[NDIRECT]], k - NDIRECT - 1)
    else 0
  }

  // The position that holds the number of the bn-th block of a file.
  function DataSlot(bn: nat): nat {
    if bn < NDIRECT then bn else bn + 1
  }

  // The bn-th block of a file; zeros where nothing is mapped.
  function FileBlock(s: State, i: nat, bn: nat): Block
    requires i < |s.inodes| && bn < MAXFILE
  {
    var a := Addr(s, i, DataSlot(bn));
    if 0 < a < |s.view| then s.view[a] else ZeroBlock()
  }

  type Owners = map<nat, Slot>

  // Every owned block is the one its owner points to, and lies among the data blocks.
  ghost predicate OwnersPoint(g: Super, s: State, owner: Owners) {
    forall a :: a in owner ==>
      && !g.Reserved(a) && owner[a].inum < |s.inodes| && owner[a].k < SLOTS
      && Addr(s, owner[a].inum, owner[a].k) == a
  }

  // Every block that an inode points to is owned by that position alone.
  ghost predicate PointersOwned(s: State, owner: Owners) {
    forall i, k :: 0 <= i < |s.inodes| && 0 <= k < SLOTS && Addr(s, i, k) != 0 ==>
      Addr(s, i, k) in owner && owner[Addr(s, i, k)] == Slot(i, k)
  }

  // The bitmap marks the reserved blocks and the owned ones.
  ghost predicate BitmapExact(g: Super, s: State, owner: Owners) {
    forall b :: 0 <= b < g.size ==> (Used(g, s.view, b) <==> g.Reserved(b) || b in owner)
  }

  ghost predicate Good(g: Super, s: State, owner: Owners) {
    && g.Ok() && |s.view| == g.size && |s.inodes| == g.ninodes
    && OwnersPoint(g, s, owner) && PointersOwned(s, owner) && BitmapExact(g, s, owner)
  }
}
