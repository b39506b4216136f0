/**
 Disk blocks as the kernel sees them: BSIZE raw bytes, which the log header and the
 indirect blocks reinterpret as an array of little-endian 32-bit words, and which the
 free map reinterprets as an array of bits.

 Reading back a word or a bit that was stored gives it back, and leaves its neighbours alone.
 */
module Blocks {
  const BSIZE := 512
  const WORDS := 128
  const TWO32 := 0x1_0000_0000

  type byte = x: int | 0 <= x < 256
  type word = x: int | 0 <= x < 0x1_0000_0000
  type Block = b: seq<byte> | |b| == 512 witness seq(512, _ => 0)

  const ZERO: Block := seq(512, _ => 0)

  // ---- Words ------------------------------------------------------------------

  function GetWord(b: Block, j: nat): (w: word)
    requires j < WORDS
  {
    var b0: int, b1: int, b2: int, b3: int := b[4 * j], b[4 * j + 1], b[4 * j + 2], b[4 * j + 3];
    b0 + 0x100 * b1 + 0x1_0000 * b2 + 0x100_0000 * b3
  }

  function SetWord(b: Block, j: nat, w: word): (r: Block)
    requires j < WORDS
  {
    b[4 * j := w % 0x100]
     [4 * j + 1 := w / 0x100 % 0x100]
     [4 * j + 2 := w / 0x1_0000 % 0x100]
     [4 * j + 3 := w / 0x100_0000]
  }

  lemma WordBytes(w: word)
    ensures w == w % 0x100 + 0x100 * (w / 0x100 % 0x100) + 0x1_0000 * (w / 0x1_0000 % 0x100)
                 + 0x100_0000 * (w / 0x100_0000)
  {
    assert w / 0x1_0000 == w / 0x100 / 0x100;
    assert w / 0x100_0000 == w / 0x1_0000 / 0x100;
  }

  // A word store is read back, and leaves every other word as it was.
  lemma GetSetWord(b: Block, j: nat, w: word)
    requires j < WORDS
    ensures GetWord(SetWord(b, j, w), j) == w
    ensures forall k: nat | k < WORDS && k != j :: GetWord(SetWord(b, j, w), k) == GetWord(b, k)
  {
    WordBytes(w);
    forall k: nat | k < WORDS && k != j
      ensures GetWord(SetWord(b, j, w), k) == GetWord(b, k)
    {
    }
  }

  lemma ZeroWords(j: nat)
    requires j < WORDS
    ensures GetWord(ZERO, j) == 0
  {
  }

  // ---- Bits -------------------------------------------------------------------

  // Bit k of x: the source's (x & (1 << k)) != 0.
  predicate Bit(x: nat, k: nat) {
    if k == 0 then x % 2 == 1 else Bit(x / 2, k - 1)
  }

  // x with bit k replaced by v: x | (1 << k) or x & ~(1 << k).
  function PutBit(x: nat, k: nat, v: bool): nat {
    if k == 0 then x / 2 * 2 + (if v then 1 else 0) else 2 * PutBit(x / 2, k - 1, v) + x % 2
  }

  lemma {:induction false} GetPutBit(x: nat, k: nat, v: bool, j: nat)
    ensures Bit(PutBit(x, k, v), j) == if j == k then v else Bit(x, j)
  {
    if k > 0 && j > 0 {
      GetPutBit(x / 2, k - 1, v, j - 1);
    }
  }

  function Pow2(n: nat): nat {
    if n == 0 then 1 else 2 * Pow2(n - 1)
  }

  lemma {:induction false} PutBitBound(x: nat, k: nat, v: bool, n: nat)
    requires k < n && x < Pow2(n)
    ensures PutBit(x, k, v) < Pow2(n)
  {
    if k > 0 {
      PutBitBound(x / 2, k - 1, v, n - 1);
    }
  }

  function PutByteBit(x: byte, k: nat, v: bool): (r: byte)
    requires k < 8
  {
    assert Pow2(8) == 256;
    PutBitBound(x, k, v, 8);
    PutBit(x, k, v)
  }

  // Bit bi of a free-map block.
  predicate BlockBit(b: Block, bi: nat)
    requires bi < 8 * BSIZE
  {
    Bit(b[bi / 8], bi % 8)
  }

  function PutBlockBit(b: Block, bi: nat, v: bool): (r: Block)
    requires bi < 8 * BSIZE
  {
    b[bi / 8 := PutByteBit(b[bi / 8], bi % 8, v)]
  }

  // A bit store is read back, and leaves every other bit of the block as it was.
  lemma GetPutBlockBit(b: Block, bi: nat, v: bool)
    requires bi < 8 * BSIZE
    ensures BlockBit(PutBlockBit(b, bi, v), bi) == v
    ensures forall j: nat | j < 8 * BSIZE && j != bi :: BlockBit(PutBlockBit(b, bi, v), j) == BlockBit(b, j)
  {
    forall j: nat | j < 8 * BSIZE
      ensures BlockBit(PutBlockBit(b, bi, v), j) == if j == bi then v else BlockBit(b, j)
    {
      if j / 8 == bi / 8 {
        GetPutBit(b[bi / 8], bi % 8, v, j % 8);
      }
    }
  }
}
