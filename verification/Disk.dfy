/** The disk as the ext2 reader sees it (fs/ext2.c:13-26, include/ext2.h): numbered blocks of 1024 bytes,
    every block number readable, and the little-endian fields in them. */
module Disk {
  import opened Bits

  const BLOCK_SIZE := 1024
  const PTRS_PER_BLOCK := 256

  type U32 = x: nat | x < 0x1_0000_0000

  /** Byte i of block b. */
  type Disk = (nat, nat) -> byte

  /** read_block. */
  function ReadBlock(d: Disk, b: nat): (r: seq<byte>)
    ensures |r| == BLOCK_SIZE && forall i | 0 <= i < BLOCK_SIZE :: r[i] == d(b, i)
  {
    seq(BLOCK_SIZE, i requires 0 <= i => d(b, i))
  }

  lemma {:induction false} WordBelow(s: seq<byte>)
    ensures WordValue(s) < Limit(|s|)
  {
    if s != [] { WordBelow(s[1..]); }
  }

  /** A field of `width` bytes of a structure in memory. */
  function Field(s: seq<byte>, at: nat, width: nat): (r: nat)
    requires at + width <= |s|
    ensures r < Limit(width)
  {
    WordBelow(s[at..at + width]);
    WordValue(s[at..at + width])
  }

  function U32At(s: seq<byte>, at: nat): U32
    requires at + 4 <= |s|
  {
    assert Limit(4) == 0x1_0000_0000;
    Field(s, at, 4)
  }

  /** Numbers as the format writes them, the lowest byte first. */
  ghost function Le2(a: nat, b: nat): nat {
    a + 256 * b
  }

  ghost function Le4(a: nat, b: nat, c: nat, e: nat): nat {
    a + 256 * b + 65536 * c + 16777216 * e
  }

  /** The 32-bit number at a place of a block. */
  ghost function Word(d: Disk, b: nat, at: nat): U32 {
    Le4(d(b, at), d(b, at + 1), d(b, at + 2), d(b, at + 3))
  }

  /** A two-byte field, byte by byte. */
  lemma FieldOf2(s: seq<byte>, at: nat)
    requires at + 2 <= |s|
    ensures Field(s, at, 2) == Le2(s[at], s[at + 1])
  {
    var w := s[at..at + 2];
    assert w == [w[0], w[1]] && w[1..] == [w[1]] && w[1..][1..] == [];
    assert WordValue(w[1..]) == w[1] + 256 * WordValue([]);
  }

  /** A four-byte field. */
  lemma FieldOf4(s: seq<byte>, at: nat)
    requires at + 4 <= |s|
    ensures U32At(s, at) == Le4(s[at], s[at + 1], s[at + 2], s[at + 3])
  {
    var w := s[at..at + 4];
    assert w[1..][1..] == w[2..] && w[2..][1..] == w[3..] && w[3..] == [w[3]] && w[3..][1..] == [];
    assert WordValue(w[3..]) == w[3] + 256 * WordValue([]);
    assert WordValue(w[2..]) == w[2] + 256 * WordValue(w[3..]);
    assert WordValue(w[1..]) == w[1] + 256 * WordValue(w[2..]);
  }

  /** Entry i of a pointer block is its i-th group of four bytes. */
  lemma PointerBytes(d: Disk, b: nat, i: nat)
    requires i < 256
    ensures PointerAt(d, b, i) == Word(d, b, 4 * i)
  {
    FieldOf4(ReadBlock(d, b), 4 * i);
  }

  /** Entry i of a block read as an array of block pointers. */
  function PointerAt(d: Disk, b: nat, i: nat): U32
    requires i < PTRS_PER_BLOCK
  {
    U32At(ReadBlock(d, b), 4 * i)
  }

  /** Places of a byte array that starts at a block boundary. */
  lemma SameBlock(at: nat, i: nat)
    requires at % BLOCK_SIZE + i < BLOCK_SIZE
    ensures (at + i) / BLOCK_SIZE == at / BLOCK_SIZE && (at + i) % BLOCK_SIZE == at % BLOCK_SIZE + i
  {
  }

  /** What the reader uses of an ext2_inode. */
  datatype Inode = Inode(mode: nat, size: U32, block: seq<U32>)

  predicate IsInode(ino: Inode) {
    |ino.block| == 15
  }
}
