/**
 * The block grid of Compress and Uncompress in Program.cs: where the 64
 * bytes of block row y, block column x and channel i live in the flat
 * buffer of quantized bytes.
 */
module BlockGrid {
  import opened Blocks

  /** Bytes per block and channel. */
  const SliceSize := 64

  /**
   * The offset both Compress and Uncompress compute for block row y, block
   * column x and channel i of an image `width` pixels wide. Block rows are
   * 24 * width bytes apart, blocks 192 and channels 64; when the width is a
   * multiple of 8 the offset is 64 times the index of (y, x, i) in the
   * loops' order.
   */
  function BlockOffset(y: int, x: int, i: int, width: int): (offset: int)
    ensures offset == 24 * width * y + 192 * x + 64 * i
    ensures width % 8 == 0 ==> offset == SliceSize * (3 * (width / 8 * y + x) + i)
  {
    var k := width / 8;
    assert width % 8 == 0 ==> y * DCTSize * width * 3 == 192 * (k * y) by {
      if width % 8 == 0 {
        assert width == 8 * k;
      }
    }
    y * DCTSize * width * 3 + x * DCTSize * DCTSize * 3 + i * DCTSize * DCTSize
  }

  /** (y, x, i) is a block position and channel the loops visit. */
  predicate InGrid(height: int, width: int, y: int, x: int, i: int)
  {
    0 <= y < height / DCTSize && 0 <= x < width / DCTSize && 0 <= i < 3
  }

  /** (y, x, i) comes strictly before (y', x', i') in the loops' order. */
  predicate Before(y: int, x: int, i: int, y': int, x': int, i': int)
  {
    y < y' || (y == y' && x < x') || (y == y' && x == x' && i < i')
  }

  /** Byte n lies in the slice of (y, x, i). */
  predicate Covers(y: int, x: int, i: int, width: int, n: int)
  {
    BlockOffset(y, x, i, width) <= n < BlockOffset(y, x, i, width) + SliceSize
  }

  /** Byte n lies in no slice that comes before (y, x, i) in the loops' order. */
  ghost predicate Uncovered(height: int, width: int, n: int, y: int, x: int, i: int)
  {
    forall y', x', i' | InGrid(height, width, y', x', i') && Before(y', x', i', y, x, i) ::
      !Covers(y', x', i', width, n)
  }

  /** Byte n lies in no slice at all. */
  ghost predicate InNoSlice(height: int, width: int, n: int)
  {
    forall y, x, i | InGrid(height, width, y, x, i) :: !Covers(y, x, i, width, n)
  }

  /** A slice lies within the 24 * width bytes of its block row. */
  lemma SliceWithinBlockRow(height: int, width: int, y: int, x: int, i: int)
    requires InGrid(height, width, y, x, i)
    ensures 24 * width * y <= BlockOffset(y, x, i, width)
    ensures BlockOffset(y, x, i, width) + SliceSize <= 24 * width * (y + 1)
  {
    var k := width / 8;
    assert 8 * k <= width;
    assert x * 192 + i * 64 + 64 <= 192 * k;
    assert 24 * width * (y + 1) == 24 * width * y + 24 * width;
  }

  /** Slices come in the loops' order and do not overlap. */
  lemma SlicesOrdered(height: int, width: int, y: int, x: int, i: int, y': int, x': int, i': int)
    requires InGrid(height, width, y, x, i) && InGrid(height, width, y', x', i')
    requires Before(y, x, i, y', x', i')
    ensures BlockOffset(y, x, i, width) + SliceSize <= BlockOffset(y', x', i', width)
  {
    SliceWithinBlockRow(height, width, y, x, i);
    SliceWithinBlockRow(height, width, y', x', i');
    if y < y' {
      MulMonotone(24 * width, 24 * width, y + 1, y');
    }
  }

  /** Distinct block positions or channels have disjoint slices. */
  lemma SlicesDisjoint(height: int, width: int, y: int, x: int, i: int, y': int, x': int, i': int)
    requires InGrid(height, width, y, x, i) && InGrid(height, width, y', x', i')
    requires (y, x, i) != (y', x', i')
    ensures BlockOffset(y, x, i, width) + SliceSize <= BlockOffset(y', x', i', width)
         || BlockOffset(y', x', i', width) + SliceSize <= BlockOffset(y, x, i, width)
  {
    if Before(y, x, i, y', x', i') {
      SlicesOrdered(height, width, y, x, i, y', x', i');
    } else {
      SlicesOrdered(height, width, y', x', i', y, x, i);
    }
  }

  /** Every slice lies within the height * width * 3 bytes of the buffer. */
  lemma SliceInsideBuffer(height: int, width: int, y: int, x: int, i: int)
    requires InGrid(height, width, y, x, i)
    ensures 0 <= BlockOffset(y, x, i, width)
    ensures BlockOffset(y, x, i, width) + SliceSize <= height * width * 3
  {
    SliceWithinBlockRow(height, width, y, x, i);
    var a := height / 8;
    MulMonotone(24 * width, 24 * width, y + 1, a);
    MulMonotone(3 * width, 3 * width, 8 * a, height);
    MulMonotone(24 * width, 24 * width, 0, y);
  }

  /**
   * When both sides are multiples of 8 the slices tile the buffer: every
   * byte lies in the slice of some block position and channel.
   */
  lemma SlicesTileBuffer(height: nat, width: nat, n: int)
    requires height % 8 == 0 && width % 8 == 0
    requires 0 <= n < height * width * 3
    ensures exists y, x, i :: InGrid(height, width, y, x, i) && Covers(y, x, i, width, n)
  {
    var a, k := height / 8, width / 8;
    BufferHoldsSlices(height, width, a, k);
    var j := n / 64;
    var t, i := j / 3, j % 3;
    assert t < a * k;
    var y, x := t / k, t % k;
    BlockIndexInGrid(a, k, t);
    assert InGrid(height, width, y, x, i);
    assert Covers(y, x, i, width, n);
  }

  /** An aligned buffer holds three 64-byte slices per block of its a x k grid. */
  lemma BufferHoldsSlices(height: nat, width: nat, a: nat, k: nat)
    requires height == 8 * a && width == 8 * k
    ensures height * width * 3 == 192 * (a * k)
    ensures height * width * 3 > 0 ==> k > 0
  {
  }

  /** The t-th block of an a x k grid, in row-major order, is in the grid. */
  lemma BlockIndexInGrid(a: nat, k: nat, t: nat)
    requires k > 0 && t < a * k
    ensures t / k < a
    ensures t == k * (t / k) + t % k && 0 <= t % k < k
  {
    if t / k >= a {
      MulMonotone(k, k, a, t / k);
    }
  }

  /**
   * When a side is not a multiple of 8 the slices leave the last byte of a
   * non-empty buffer uncovered, so they do not tile it.
   */
  lemma LastByteUncoveredUnlessAligned(height: int, width: int, y: int, x: int, i: int)
    requires height > 0 && width > 0
    requires height % 8 != 0 || width % 8 != 0
    requires InGrid(height, width, y, x, i)
    ensures !Covers(y, x, i, width, height * width * 3 - 1)
  {
    SliceEndsBeforeRowEnd(width, y, x, i);
    BlockRowsEndBeforeBuffer(height, width, y);
    if height % 8 != 0 {
      MulMonotone(3 * width, 3 * width, 1, height % 8);
    }
  }

  /** The slice of (y, x, i) ends 24 * (width % 8) bytes or more before its block row does. */
  lemma SliceEndsBeforeRowEnd(width: int, y: int, x: int, i: int)
    requires 0 <= x < width / 8 && 0 <= i < 3
    ensures BlockOffset(y, x, i, width) + SliceSize + 24 * (width % 8) <= 24 * width * (y + 1)
  {
    var k := width / 8;
    assert width == 8 * k + width % 8;
    assert 24 * width * (y + 1) == 24 * width * y + 192 * k + 24 * (width % 8);
    assert BlockOffset(y, x, i, width) == 24 * width * y + 192 * x + 64 * i;
  }

  /** Block row y ends 3 * width * (height % 8) bytes or more before the buffer does. */
  lemma BlockRowsEndBeforeBuffer(height: int, width: int, y: int)
    requires width > 0 && 0 <= y < height / 8
    ensures 24 * width * (y + 1) + 3 * width * (height % 8) <= height * width * 3
  {
    var a := height / 8;
    MulMonotone(24 * width, 24 * width, y + 1, a);
    assert height == 8 * a + height % 8;
    assert height * width * 3 == 24 * width * a + 3 * width * (height % 8);
  }
}
