// Disk blocks as the file system sees them (fs.h, buf.h): BSIZE raw bytes that the
// code reinterprets, by pointer casts, as arrays of little-endian 32-bit words.
module Blocks {

  const BSIZE: nat := 512
  const WORDS: nat := 128 // BSIZE / sizeof(uint)

  type Byte = x: int | 0 <= x < 256
  type Word = x: int | 0 <= x < 0x1_0000_0000
  type Block = b: seq<Byte> | |b| == BSIZE witness seq(BSIZE, _ => 0)

  // The j-th uint of the block: ((uint*)data)[j].
  function GetWord(b: Block, j: nat): Word
    requires j < WORDS
  {
    b[4 * j] as int + 256 * b[4 * j + 1] as int + 65536 * b[4 * j + 2] as int + 16777216 * b[4 * j + 3] as int
  }

  // The four bytes a little-endian machine stores for w.
  function WordBytes(w: Word): (r: seq<Byte>)
    ensures |r| == 4
    ensures r[0] as int + 256 * r[1] as int + 65536 * r[2] as int + 16777216 * r[3] as int == w
  {
    var a, b, c := w / 256, w / 65536, w / 16777216;
    assert b == a / 256 && c == b / 256;
    [w % 256, a % 256, b % 256, c]
  }

  // ((uint*)data)[j] = w.
  function SetWord(b: Block, j: nat, w: Word): (r: Block)
    requires j < WORDS
    ensures GetWord(r, j) == w
    ensures forall k: nat :: k < WORDS && k != j ==> GetWord(r, k) == GetWord(b, k)
  {
    var r := b[..4 * j] + WordBytes(w) + b[4 * j + 4..];
    assert forall k :: 0 <= k < 4 ==> r[4 * j + k] == WordBytes(w)[k];
    assert forall i :: 0 <= i < BSIZE && i / 4 != j ==> r[i] == b[i];
    r
  }
}
