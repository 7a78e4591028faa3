/** Disk blocks: BSIZE bytes, read either as bytes, as little-endian 32-bit words
    (the indirect block and the log header) or as bits (the free map). */
module Blocks {
  import opened Prelude

  const BSIZE: nat := 512
  const WORDS: nat := 128

  type Block = b: seq<Byte> | |b| == BSIZE witness seq(BSIZE, _ => 0)
  type Image = seq<Block>

  function ZeroBlock(): (b: Block)
    ensures forall i :: 0 <= i < BSIZE ==> b[i] == 0
  {
    seq(BSIZE, _ => 0)
  }

  /** The j-th 32-bit word of a block. */
  function GetWord(b: Block, j: nat): Word
    requires j < WORDS
  {
    b[4 * j] as int + 0x100 * b[4 * j + 1] as int
    + 0x1_0000 * b[4 * j + 2] as int + 0x100_0000 * b[4 * j + 3] as int
  }

  /** Stores v in the j-th 32-bit word. */
  function PutWord(b: Block, j: nat, v: Word): Block
    requires j < WORDS
  {
    b[4 * j := v % 0x100]
     [4 * j + 1 := v / 0x100 % 0x100]
     [4 * j + 2 := v / 0x1_0000 % 0x100]
     [4 * j + 3 := v / 0x100_0000]
  }

  lemma Digits(v: Word)
    ensures v % 0x100 + 0x100 * (v / 0x100 % 0x100) + 0x1_0000 * (v / 0x1_0000 % 0x100)
            + 0x100_0000 * (v / 0x100_0000) == v
  {
    assert v / 0x1_0000 == v / 0x100 / 0x100 && v / 0x100_0000 == v / 0x1_0000 / 0x100;
  }

  /** A stored word reads back, and every other word is untouched. */
  lemma WordRoundTrip(b: Block, j: nat, v: Word)
    requires j < WORDS
    ensures GetWord(PutWord(b, j, v), j) == v
    ensures forall k: nat :: k < WORDS && k != j ==> GetWord(PutWord(b, j, v), k) == GetWord(b, k)
  {
    Digits(v);
  }

  function Pow256(i: nat): (p: nat)
    ensures p >= 1
  {
    if i == 0 then 1 else 256 * Pow256(i - 1)
  }

  /** The lowest byte of a word comes first, and no other byte of the block changes. */
  lemma WordBytes(b: Block, j: nat, v: Word, n: nat)
    requires j < WORDS && n < BSIZE
    ensures PutWord(b, j, v)[n] == if n / 4 == j then v / Pow256(n % 4) % 256 else b[n]
  {
    assert Pow256(1) == 256 && Pow256(2) == 0x1_0000 && Pow256(3) == 0x100_0000;
    assert n == 4 * (n / 4) + n % 4;
  }

  lemma ZeroWords(j: nat)
    requires j < WORDS
    ensures GetWord(ZeroBlock(), j) == 0
  {
  }
}
