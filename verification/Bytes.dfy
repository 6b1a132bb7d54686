/** Bytes, blocks and little-endian fields: the raw matter of a ParchFS image. */
module Bytes {
  type Byte = x: int | 0 <= x < 256

  /** BLK_SIZE */
  const BLK_SIZE: nat := 4096

  /** BLKNO_PER_BLK: a block number takes four bytes */
  const BLKNO_PER_BLK: nat := 1024

  function Zeros(n: nat): (r: seq<Byte>)
    ensures |r| == n
    ensures forall i | 0 <= i < n :: r[i] == 0
  {
    seq(n, _ => 0)
  }

  type Block = b: seq<Byte> | |b| == BLK_SIZE witness Zeros(BLK_SIZE)

  type Word = x: int | 0 <= x < 0x1_0000_0000

  /** What `memcpy(b + off, s, |s|)` leaves in `b`. */
  function Splice(b: Block, off: nat, s: seq<Byte>): (r: Block)
    requires off + |s| <= BLK_SIZE
  {
    b[..off] + s + b[off + |s|..]
  }

  lemma SpliceTwice(b: Block, off: nat, s: seq<Byte>, t: seq<Byte>)
    requires off + |s| <= BLK_SIZE && |t| == |s|
    ensures Splice(Splice(b, off, s), off, t) == Splice(b, off, t)
  {}

  /** The four bytes of a `uint32_t` on a little-endian machine. */
  function Le4(v: Word): (r: seq<Byte>)
    ensures |r| == 4
  {
    [v % 256, v / 256 % 256, v / 256 / 256 % 256, v / 256 / 256 / 256]
  }

  /** The two bytes of a `uint16_t`; a wider value is truncated as the C++ conversion does, any other comes back. */
  function Le2(v: nat): (r: seq<Byte>)
    ensures |r| == 2 && (v < 65536 ==> Val2(r[0], r[1]) == v)
  {
    [v % 256, v / 256 % 256]
  }

  function Val4(a: Byte, b: Byte, c: Byte, d: Byte): Word {
    a + 256 * (b + 256 * (c + 256 * d))
  }

  lemma Val4Le4(v: Word)
    ensures var r := Le4(v); Val4(r[0], r[1], r[2], r[3]) == v
  {}

  /** A number is zero exactly when its bytes are. */
  lemma Val4Zero(a: Byte, b: Byte, c: Byte, d: Byte)
    ensures Val4(a, b, c, d) == 0 <==> a == 0 && b == 0 && c == 0 && d == 0
  {}

  function Val2(a: Byte, b: Byte): nat {
    a + 256 * b
  }

  /** The block seen as 1024 block numbers. */
  function EntryOf(b: Block, i: nat): Word
    requires i < BLKNO_PER_BLK
  {
    Val4(b[4 * i], b[4 * i + 1], b[4 * i + 2], b[4 * i + 3])
  }

  /** Storing one number changes that entry and no other. */
  lemma EntryOfSplice(b: Block, i: nat, v: Word, j: nat)
    requires i < BLKNO_PER_BLK && j < BLKNO_PER_BLK
    ensures EntryOf(Splice(b, 4 * i, Le4(v)), j) == if j == i then v else EntryOf(b, j)
  {
    var r := Splice(b, 4 * i, Le4(v));
    if j == i {
      Val4Le4(v);
      assert forall k | 0 <= k < 4 :: r[4 * i + k] == Le4(v)[k];
    } else {
      assert forall k | 4 * j <= k < 4 * j + 4 :: r[k] == b[k];
    }
  }

  /** A block number stored as entry `i`: four bytes from 4 * i on, the lowest first; the rest of the block stays. */
  lemma EntryBytes(b: Block, i: nat, v: Word)
    requires i < 1024
    ensures var r := Splice(b, 4 * i, Le4(v));
      && r[4 * i] == v % 256 && r[4 * i + 1] == v / 256 % 256
      && r[4 * i + 2] == v / 256 / 256 % 256 && r[4 * i + 3] == v / 256 / 256 / 256
      && r[..4 * i] == b[..4 * i] && r[4 * i + 4..] == b[4 * i + 4..]
  {}
}
