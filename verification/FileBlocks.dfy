// Disk blocks as bytes: little-endian words for indirect blocks and inodes, bits for
// the free map.

module FileBlocks {
  import opened Bytes

  const BSIZE := 1024

  datatype Block = Block(bytes: seq<byte>)

  type Image = seq<Block>

  predicate Whole(b: Block) { |b.bytes| == BSIZE }

  function Zero(): (b: Block)
    ensures Whole(b) && forall i | 0 <= i < BSIZE :: b.bytes[i] == 0
  {
    Block(seq(BSIZE, _ => 0))
  }

  // The k-th uint of a block.
  function Word(b: Block, k: nat): nat
    requires Whole(b) && k < BSIZE / 4
  {
    GetWord(b.bytes, k)
  }

  function SetWord(b: Block, k: nat, v: nat): Block
    requires Whole(b) && k < BSIZE / 4 && v < WORD
  {
    Block(PutWord(b.bytes, k, v))
  }

  lemma SetWordAt(b: Block, k: nat, v: nat, j: nat)
    requires Whole(b) && k < BSIZE / 4 && v < WORD && j < BSIZE / 4
    ensures Whole(SetWord(b, k, v))
    ensures Word(SetWord(b, k, v), j) == if j == k then v else Word(b, j)
  {
    PutWordAt(b.bytes, k, v, j);
  }

  lemma ZeroWord(k: nat)
    requires k < BSIZE / 4
    ensures Word(Zero(), k) == 0
  {
  }

  // x & (1 << i)
  predicate BitOf(x: nat, i: nat) {
    if i == 0 then x % 2 == 1 else BitOf(x / 2, i - 1)
  }

  // x | (1 << i)
  function WithBit(x: nat, i: nat): nat {
    if i == 0 then x / 2 * 2 + 1 else WithBit(x / 2, i - 1) * 2 + x % 2
  }

  // x & ~(1 << i)
  function WithoutBit(x: nat, i: nat): nat {
    if i == 0 then x / 2 * 2 else WithoutBit(x / 2, i - 1) * 2 + x % 2
  }

  function Pow2(n: nat): nat { if n == 0 then 1 else 2 * Pow2(n - 1) }

  lemma {:induction false} BitBounds(x: nat, i: nat, n: nat)
    requires i < n && x < Pow2(n)
    ensures WithBit(x, i) < Pow2(n) && WithoutBit(x, i) < Pow2(n)
  {
    if i > 0 { BitBounds(x / 2, i - 1, n - 1); }
  }

  lemma {:induction false} WithBitAt(x: nat, i: nat, j: nat)
    ensures BitOf(WithBit(x, i), j) <==> BitOf(x, j) || i == j
  {
    if i > 0 && j > 0 { WithBitAt(x / 2, i - 1, j - 1); }
  }

  lemma {:induction false} WithoutBitAt(x: nat, i: nat, j: nat)
    ensures BitOf(WithoutBit(x, i), j) <==> BitOf(x, j) && i != j
  {
    if i > 0 && j > 0 { WithoutBitAt(x / 2, i - 1, j - 1); }
  }

  // Bit i of the block, counted from its first byte.
  predicate BlockBit(b: Block, i: nat)
    requires Whole(b) && i < 8 * BSIZE
  {
    BitOf(b.bytes[i / 8], i % 8)
  }

  function ByteWith(x: byte, i: nat): byte
    requires i < 8
  {
    BitBounds(x, i, 8);
    assert Pow2(8) == 256;
    WithBit(x, i)
  }

  function ByteWithout(x: byte, i: nat): byte
    requires i < 8
  {
    BitBounds(x, i, 8);
    assert Pow2(8) == 256;
    WithoutBit(x, i)
  }

  function MarkBit(b: Block, i: nat): Block
    requires Whole(b) && i < 8 * BSIZE
  {
    Block(b.bytes[i / 8 := ByteWith(b.bytes[i / 8], i % 8)])
  }

  function ClearBit(b: Block, i: nat): Block
    requires Whole(b) && i < 8 * BSIZE
  {
    Block(b.bytes[i / 8 := ByteWithout(b.bytes[i / 8], i % 8)])
  }

  lemma BitsAt(b: Block, i: nat, j: nat)
    requires Whole(b) && i < 8 * BSIZE && j < 8 * BSIZE
    ensures Whole(MarkBit(b, i)) && (BlockBit(MarkBit(b, i), j) <==> BlockBit(b, j) || i == j)
    ensures Whole(ClearBit(b, i)) && (BlockBit(ClearBit(b, i), j) <==> BlockBit(b, j) && i != j)
  {
    WithBitAt(b.bytes[i / 8], i % 8, j % 8);
    WithoutBitAt(b.bytes[i / 8], i % 8, j % 8);
  }
}
