/** The free bitmap of fs.c: one bit for each disk block, eight to a byte. */
module Bitmap {
  import opened Blocks

  const BPB: nat := BSIZE * 8

  type Disk = seq<Block>

  function Pow2(n: nat): nat { if n == 0 then 1 else 2 * Pow2(n - 1) }

  /** (x & (1 << k)) != 0 */
  predicate Test(x: nat, k: nat) {
    if k == 0 then x % 2 == 1 else Test(x / 2, k - 1)
  }

  /** x | (1 << k) */
  function Or(x: nat, k: nat): nat {
    if k == 0 then x / 2 * 2 + 1 else 2 * Or(x / 2, k - 1) + x % 2
  }

  /** x & ~(1 << k) */
  function AndNot(x: nat, k: nat): nat {
    if k == 0 then x / 2 * 2 else 2 * AndNot(x / 2, k - 1) + x % 2
  }

  /** The operators touch one bit, and keep a number of n bits one of n bits. */
  lemma {:induction false} OrBit(x: nat, k: nat, j: nat, n: nat)
    requires k < n && x < Pow2(n)
    ensures (Test(Or(x, k), j) <==> j == k || Test(x, j)) && Or(x, k) < Pow2(n)
    decreases k
  {
    if k > 0 {
      OrBit(x / 2, k - 1, if j == 0 then 0 else j - 1, n - 1);
    }
  }

  lemma {:induction false} AndNotBit(x: nat, k: nat, j: nat, n: nat)
    requires k < n && x < Pow2(n)
    ensures (Test(AndNot(x, k), j) <==> j != k && Test(x, j)) && AndNot(x, k) < Pow2(n)
    decreases k
  {
    if k > 0 {
      AndNotBit(x / 2, k - 1, if j == 0 then 0 else j - 1, n - 1);
    }
  }

  lemma ByteBits()
    ensures Pow2(8) == 256
  {
    assert Pow2(4) == 16;
  }

  function SetIn(x: Byte, k: nat): Byte
    requires k < 8
  {
    ByteBits();
    OrBit(x, k, 0, 8);
    Or(x, k)
  }

  function ClearIn(x: Byte, k: nat): Byte
    requires k < 8
  {
    ByteBits();
    AndNotBit(x, k, 0, 8);
    AndNot(x, k)
  }

  // ------------------------------------------------------------ on the disk

  /** BBLOCK(b) */
  function BBlock(start: nat, b: nat): nat { start + b / BPB }

  /** The bit of block b is set. */
  predicate Marked(disk: Disk, start: nat, b: nat)
    requires BBlock(start, b) < |disk|
  {
    Test(disk[BBlock(start, b)][b % BPB / 8], b % 8)
  }

  function MarkIn(blk: Block, bi: nat): Block
    requires bi < BPB
  {
    blk[bi / 8 := SetIn(blk[bi / 8], bi % 8)]
  }

  function UnmarkIn(blk: Block, bi: nat): Block
    requires bi < BPB
  {
    blk[bi / 8 := ClearIn(blk[bi / 8], bi % 8)]
  }

  lemma MarkOne(disk: Disk, start: nat, b: nat, c: nat)
    requires BBlock(start, b) < |disk| && BBlock(start, c) < |disk|
    ensures var k := BBlock(start, b);
      Marked(disk[k := MarkIn(disk[k], b % BPB)], start, c) <==> c == b || Marked(disk, start, c)
  {
    var x := disk[BBlock(start, b)][b % BPB / 8];
    ByteBits();
    OrBit(x, b % 8, c % 8, 8);
    SameBit(b, c);
  }

  lemma UnmarkOne(disk: Disk, start: nat, b: nat, c: nat)
    requires BBlock(start, b) < |disk| && BBlock(start, c) < |disk|
    ensures var k := BBlock(start, b);
      Marked(disk[k := UnmarkIn(disk[k], b % BPB)], start, c) <==> c != b && Marked(disk, start, c)
  {
    var x := disk[BBlock(start, b)][b % BPB / 8];
    ByteBits();
    AndNotBit(x, b % 8, c % 8, 8);
    SameBit(b, c);
  }

  lemma Eighths(b: nat, k: nat, r: nat)
    requires b == 8 * k + r && r < 8
    ensures b % 8 == r
  {
  }

  lemma BitParts(b: nat)
    ensures b % BPB % 8 == b % 8
    ensures b == 4096 * (b / BPB) + 8 * (b % BPB / 8) + b % 8
  {
    var q, r := b / BPB, b % BPB;
    assert b == 4096 * q + r;
    assert r == 8 * (r / 8) + r % 8;
    Eighths(b, 512 * q + r / 8, r % 8);
  }

  /** Block, byte and bit of the map together name one disk block. */
  lemma SameBit(b: nat, c: nat)
    ensures b % BPB % 8 == b % 8
    ensures b == c <==> b / BPB == c / BPB && b % BPB / 8 == c % BPB / 8 && b % 8 == c % 8
  {
    BitParts(b);
    BitParts(c);
  }
}
