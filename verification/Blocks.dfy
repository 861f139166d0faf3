/** Disk blocks: 512 bytes, read either as bytes or as little-endian 32-bit words. */
module Blocks {

  const BSIZE: nat := 512
  const NWORDS: nat := BSIZE / 4

  type Byte = x: nat | x < 256
  type Block = b: seq<Byte> | |b| == BSIZE witness seq(BSIZE, _ => 0)

  function ZeroBlock(): Block { seq(BSIZE, _ => 0) }

  function FromBytes(b0: int, b1: int, b2: int, b3: int): int {
    b0 + 0x100 * b1 + 0x1_0000 * b2 + 0x100_0000 * b3
  }

  function Word(b: Block, k: nat): (w: nat)
    requires k < NWORDS
    ensures w < 0x1_0000_0000
  {
    FromBytes(b[4 * k], b[4 * k + 1], b[4 * k + 2], b[4 * k + 3])
  }

  lemma SplitWord(w: nat)
    requires w < 0x1_0000_0000
    ensures w / 0x100 / 0x100 / 0x100 < 0x100
    ensures FromBytes(w % 0x100, w / 0x100 % 0x100, w / 0x100 / 0x100 % 0x100, w / 0x100 / 0x100 / 0x100) == w
  {
  }

  /** Storing a word changes exactly that word. */
  function PutWord(b: Block, k: nat, w: nat): (r: Block)
    requires k < NWORDS && w < 0x1_0000_0000
    ensures Word(r, k) == w
    ensures forall j {:trigger Word(r, j)} :: 0 <= j < NWORDS && j != k ==> Word(r, j) == Word(b, j)
  {
    SplitWord(w);
    PutBytes(b, k, w % 0x100, w / 0x100 % 0x100, w / 0x100 / 0x100 % 0x100, w / 0x100 / 0x100 / 0x100)
  }

  function PutBytes(b: Block, k: nat, b0: Byte, b1: Byte, b2: Byte, b3: Byte): (r: Block)
    requires k < NWORDS
    ensures Word(r, k) == FromBytes(b0, b1, b2, b3)
    ensures forall j {:trigger Word(r, j)} :: 0 <= j < NWORDS && j != k ==> Word(r, j) == Word(b, j)
  {
    b[..4 * k] + [b0, b1, b2, b3] + b[4 * k + 4..]
  }
}
