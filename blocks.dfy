/** Shared vocabulary of the codec: the block size, bytes and 8x8 blocks. */
module Blocks {

  /** Side of a DCT block (Program.DCTSize). */
  const DCTSize := 8

  /** An unsigned 8-bit value, as C#'s `byte`. */
  type Byte = b: int | 0 <= b < 256

  /** `b` is a DCTSize x DCTSize block, indexed `b[row][column]`. */
  predicate IsBlock<T>(b: seq<seq<T>>)
  {
    |b| == DCTSize && forall y | 0 <= y < DCTSize :: |b[y]| == DCTSize
  }

  /** The contents of an 8x8 two-dimensional array as a block value. */
  function BlockOf<T>(a: array2<T>): (b: seq<seq<T>>)
    requires a.Length0 == DCTSize && a.Length1 == DCTSize
    reads a
    ensures IsBlock(b)
    ensures forall y, x | 0 <= y < DCTSize && 0 <= x < DCTSize :: b[y][x] == a[y, x]
  {
    seq(DCTSize, y requires 0 <= y < DCTSize reads a =>
      seq(DCTSize, x requires 0 <= x < DCTSize reads a => a[y, x]))
  }

  /** Two blocks are equal when they agree cell by cell. */
  lemma BlockExtensionality<T>(a: seq<seq<T>>, b: seq<seq<T>>)
    requires IsBlock(a) && IsBlock(b)
    requires forall y, x | 0 <= y < DCTSize && 0 <= x < DCTSize :: a[y][x] == b[y][x]
    ensures a == b
  {
    forall y | 0 <= y < DCTSize
      ensures a[y] == b[y]
    {
      assert forall x | 0 <= x < DCTSize :: a[y][x] == b[y][x];
    }
  }

  /** Products of non-negative numbers grow with their factors. */
  lemma MulMonotone(a: int, a': int, b: int, b': int)
    requires 0 <= a <= a' && 0 <= b <= b'
    ensures a * b <= a' * b'
  {
    assert a * b <= a' * b;
    assert a' * b <= a' * b';
  }
}
