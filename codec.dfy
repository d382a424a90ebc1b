/**
 * The block loops of Program.cs: Compress walks the block grid and fills
 * one flat buffer of quantized bytes, Uncompress walks it again and fills
 * a fresh Matrix. The floating-point stages (level shift, DCT, the
 * division of Quantize, inverse DCT) and the entropy coder are not
 * modelled: the first are passed in as functions, the second is left out.
 */
module Codec {
  import opened Blocks
  import opened Images
  import opened Quantization
  import opened ZigZag
  import opened BlockGrid

  /**
   * What Compress produces and Uncompress consumes, before the entropy
   * coder: quality, dimensions and the flat buffer of quantized bytes that
   * HuffmanCodec.Encode compresses and HuffmanCodec.Decode restores.
   */
  datatype CompressedImage = CompressedImage(Quality: int, Height: nat, Width: nat, QuantizedBytes: seq<Byte>)

  /**
   * Level shift by -128, DCT2D and Quantize's division by the quantization
   * matrix, truncated: an 8x8 channel block and the matrix to an 8x8 block
   * of quotients.
   */
  type ForwardStage = (seq<seq<real>>, seq<seq<int>>) -> seq<seq<int>>

  /** IDCT2D and the level shift by +128: an 8x8 coefficient block to 8x8 samples. */
  type InverseStage = seq<seq<int>> -> seq<seq<real>>

  /** The forward stage maps blocks to blocks, as DCT2D writes into an 8x8 array. */
  ghost predicate ForwardKeepsBlocks(transform: ForwardStage)
  {
    forall sub, qm {:trigger transform(sub, qm)} | IsBlock(sub) && IsBlock(qm) :: IsBlock(transform(sub, qm))
  }

  /** The inverse stage maps blocks to blocks, as IDCT2D writes into an 8x8 array. */
  ghost predicate InverseKeepsBlocks(inverse: InverseStage)
  {
    forall coeffs {:trigger inverse(coeffs)} | IsBlock(coeffs) :: IsBlock(inverse(coeffs))
  }

  /** One channel of the 8x8 window of `matrix` whose top-left pixel is (yOffset, xOffset). */
  function Window(matrix: Matrix, yOffset: int, xOffset: int, selector: Pixel -> real): (w: seq<seq<real>>)
    requires matrix.Valid()
    requires 0 <= yOffset && yOffset + DCTSize <= matrix.Height
    requires 0 <= xOffset && xOffset + DCTSize <= matrix.Width
    reads matrix.Pixels
    ensures IsBlock(w)
  {
    seq(DCTSize, j requires 0 <= j < DCTSize reads matrix.Pixels =>
      seq(DCTSize, i requires 0 <= i < DCTSize reads matrix.Pixels =>
        selector(matrix.Pixels[yOffset + j, xOffset + i])))
  }

  /**
   * GetSubMatrix: copies one channel of the yLength x xLength window at
   * (yOffset, xOffset) into the top-left corner of `output`; the rest of
   * `output` keeps its values.
   */
  method GetSubMatrix(matrix: Matrix, yOffset: int, yLength: int, xOffset: int, xLength: int,
                      componentSelector: Pixel -> real, output: array2<real>)
    requires matrix.Valid()
    requires 0 <= yOffset && 0 <= yLength && yOffset + yLength <= matrix.Height
    requires 0 <= xOffset && 0 <= xLength && xOffset + xLength <= matrix.Width
    requires yLength <= output.Length0 && xLength <= output.Length1
    modifies output
    ensures forall j, i | 0 <= j < output.Length0 && 0 <= i < output.Length1 ::
              output[j, i] == if j < yLength && i < xLength
                              then componentSelector(matrix.Pixels[yOffset + j, xOffset + i])
                              else old(output[j, i])
  {
    for j := 0 to yLength
      invariant forall j', i | 0 <= j' < output.Length0 && 0 <= i < output.Length1 ::
                  output[j', i] == if j' < j && i < xLength
                                   then componentSelector(matrix.Pixels[yOffset + j', xOffset + i])
                                   else old(output[j', i])
    {
      for i := 0 to xLength
        invariant forall j', i' | 0 <= j' < output.Length0 && 0 <= i' < output.Length1 ::
                    output[j', i'] == if (j' < j && i' < xLength) || (j' == j && i' < i)
                                      then componentSelector(matrix.Pixels[yOffset + j', xOffset + i'])
                                      else old(output[j', i'])
      {
        output[j, i] := componentSelector(matrix.Pixels[yOffset + j, xOffset + i]);
      }
    }
  }

  /**
   * SetPixelsYCbCr: overwrites the window of `matrix` at (yOffset, xOffset),
   * as large as `ys`, with the pixels built from `ys`, `cbs` and `crs`;
   * every pixel outside the window keeps its value.
   */
  method SetPixelsYCbCr(matrix: Matrix, ys: array2<real>, cbs: array2<real>, crs: array2<real>,
                        yOffset: int, xOffset: int)
    requires matrix.Valid()
    requires ys.Length0 <= cbs.Length0 && ys.Length1 <= cbs.Length1
    requires ys.Length0 <= crs.Length0 && ys.Length1 <= crs.Length1
    requires 0 <= yOffset && yOffset + ys.Length0 <= matrix.Height
    requires 0 <= xOffset && xOffset + ys.Length1 <= matrix.Width
    modifies matrix.Pixels
    ensures forall Y, X | 0 <= Y < matrix.Height && 0 <= X < matrix.Width ::
              matrix.Pixels[Y, X] ==
                if yOffset <= Y < yOffset + ys.Length0 && xOffset <= X < xOffset + ys.Length1
                then FromYCbCr(ys[Y - yOffset, X - xOffset], cbs[Y - yOffset, X - xOffset], crs[Y - yOffset, X - xOffset])
                else old(matrix.Pixels[Y, X])
  {
    var height := ys.Length0;
    var width := ys.Length1;
    for y := 0 to height
      invariant forall Y, X | 0 <= Y < matrix.Height && 0 <= X < matrix.Width ::
                  matrix.Pixels[Y, X] ==
                    if yOffset <= Y < yOffset + y && xOffset <= X < xOffset + width
                    then FromYCbCr(ys[Y - yOffset, X - xOffset], cbs[Y - yOffset, X - xOffset], crs[Y - yOffset, X - xOffset])
                    else old(matrix.Pixels[Y, X])
    {
      for x := 0 to width
        invariant forall Y, X | 0 <= Y < matrix.Height && 0 <= X < matrix.Width ::
                    matrix.Pixels[Y, X] ==
                      if (yOffset <= Y < yOffset + y && xOffset <= X < xOffset + width)
                         || (Y == yOffset + y && xOffset <= X < xOffset + x)
                      then FromYCbCr(ys[Y - yOffset, X - xOffset], cbs[Y - yOffset, X - xOffset], crs[Y - yOffset, X - xOffset])
                      else old(matrix.Pixels[Y, X])
      {
        matrix.Pixels[yOffset + y, xOffset + x] := FromYCbCr(ys[y, x], cbs[y, x], crs[y, x]);
      }
    }
  }

  /**
   * The 64 bytes Compress stores for block row y, block column x and
   * channel i: the channel's window, through the forward stage, narrowed
   * and read out in the order of the scan table.
   */
  function EncodedSlice(matrix: Matrix, quantizationMatrix: seq<seq<int>>, selectors: seq<Pixel -> real>,
                        transform: ForwardStage, scanTable: seq<ScanRow>, y: int, x: int, i: int): (run: seq<Byte>)
    requires matrix.Valid() && IsBlock(quantizationMatrix) && |selectors| == 3
    requires ForwardKeepsBlocks(transform) && |scanTable| == 8
    requires InGrid(matrix.Height, matrix.Width, y, x, i)
    reads matrix.Pixels
    ensures |run| == SliceSize
  {
    ScanBy(scanTable, QuantizeBlock(transform(Window(matrix, y * 8, x * 8, selectors[i]), quantizationMatrix)))
  }

  /** The slice of `bytes` that holds block row y, block column x and channel i. */
  function SliceOf(bytes: seq<Byte>, height: int, width: int, y: int, x: int, i: int): (run: seq<Byte>)
    requires InGrid(height, width, y, x, i) && height * width * 3 <= |bytes|
    ensures |run| == SliceSize
  {
    SliceInsideBuffer(height, width, y, x, i);
    bytes[BlockOffset(y, x, i, width)..BlockOffset(y, x, i, width) + SliceSize]
  }

  /**
   * `bytes` has three bytes per pixel of `matrix`, and each slice before
   * (y, x, i) holds what Compress stores for its block and channel.
   */
  ghost predicate HoldsEncodedSlices(bytes: seq<Byte>, matrix: Matrix, quantizationMatrix: seq<seq<int>>,
                                     selectors: seq<Pixel -> real>, transform: ForwardStage, scanTable: seq<ScanRow>, y: int, x: int, i: int)
    reads matrix.Pixels
  {
    && matrix.Valid() && IsBlock(quantizationMatrix) && |selectors| == 3
    && ForwardKeepsBlocks(transform) && |scanTable| == 8
    && |bytes| == matrix.Height * matrix.Width * 3
    && forall y', x', i' | InGrid(matrix.Height, matrix.Width, y', x', i') && Before(y', x', i', y, x, i) ::
         SliceOf(bytes, matrix.Height, matrix.Width, y', x', i')
           == EncodedSlice(matrix, quantizationMatrix, selectors, transform, scanTable, y', x', i')
  }

  /** Rewriting bytes from `offset` on leaves every slice that ends by `offset` as it was. */
  lemma SliceBeforeOffsetUnchanged(before: seq<Byte>, after: seq<Byte>, offset: int, o: int)
    requires |before| == |after| && 0 <= o && o + SliceSize <= offset <= |after|
    requires after[..offset] == before[..offset]
    ensures after[o..o + SliceSize] == before[o..o + SliceSize]
  {
    assert after[o..o + SliceSize] == after[..offset][o..o + SliceSize];
    assert before[o..o + SliceSize] == before[..offset][o..o + SliceSize];
  }

  /**
   * Writing the slice of (y, x, i) and nothing before it keeps every
   * earlier slice and adds that one.
   */
  lemma EncodedSlicesExtend(before: seq<Byte>, after: seq<Byte>, matrix: Matrix, quantizationMatrix: seq<seq<int>>,
                            selectors: seq<Pixel -> real>, transform: ForwardStage, scanTable: seq<ScanRow>, y: int, x: int, i: int)
    requires HoldsEncodedSlices(before, matrix, quantizationMatrix, selectors, transform, scanTable, y, x, i)
    requires InGrid(matrix.Height, matrix.Width, y, x, i) && |after| == |before|
    requires 0 <= BlockOffset(y, x, i, matrix.Width) <= |after|
    requires after[..BlockOffset(y, x, i, matrix.Width)] == before[..BlockOffset(y, x, i, matrix.Width)]
    requires SliceOf(after, matrix.Height, matrix.Width, y, x, i)
             == EncodedSlice(matrix, quantizationMatrix, selectors, transform, scanTable, y, x, i)
    ensures HoldsEncodedSlices(after, matrix, quantizationMatrix, selectors, transform, scanTable, y, x, i + 1)
  {
    forall y', x', i' | InGrid(matrix.Height, matrix.Width, y', x', i') && Before(y', x', i', y, x, i + 1)
      ensures SliceOf(after, matrix.Height, matrix.Width, y', x', i')
              == EncodedSlice(matrix, quantizationMatrix, selectors, transform, scanTable, y', x', i')
    {
      if (y', x', i') != (y, x, i) {
        EarlierSliceKept(before, after, matrix.Height, matrix.Width, y', x', i', y, x, i);
      }
    }
  }

  /** Rewriting bytes from the slice of (y, x, i) on keeps the slice of an earlier (y', x', i'). */
  lemma EarlierSliceKept(before: seq<Byte>, after: seq<Byte>, height: int, width: int,
                         y': int, x': int, i': int, y: int, x: int, i: int)
    requires InGrid(height, width, y', x', i') && InGrid(height, width, y, x, i)
    requires Before(y', x', i', y, x, i)
    requires |before| == |after| == height * width * 3
    requires 0 <= BlockOffset(y, x, i, width) <= |after|
    requires after[..BlockOffset(y, x, i, width)] == before[..BlockOffset(y, x, i, width)]
    ensures SliceOf(after, height, width, y', x', i') == SliceOf(before, height, width, y', x', i')
  {
    SliceInsideBuffer(height, width, y', x', i');
    SlicesOrdered(height, width, y', x', i', y, x, i);
    SliceBeforeOffsetUnchanged(before, after, BlockOffset(y, x, i, width), BlockOffset(y', x', i', width));
  }

  /** The slices before channel 3 of block (y, x) are those before block (y, x + 1). */
  lemma EncodedSlicesNextBlock(bytes: seq<Byte>, matrix: Matrix, quantizationMatrix: seq<seq<int>>,
                               selectors: seq<Pixel -> real>, transform: ForwardStage, scanTable: seq<ScanRow>, y: int, x: int)
    requires HoldsEncodedSlices(bytes, matrix, quantizationMatrix, selectors, transform, scanTable, y, x, 3)
    ensures HoldsEncodedSlices(bytes, matrix, quantizationMatrix, selectors, transform, scanTable, y, x + 1, 0)
  {
  }

  /** The slices before the end of block row y are those before block row y + 1. */
  lemma EncodedSlicesNextRow(bytes: seq<Byte>, matrix: Matrix, quantizationMatrix: seq<seq<int>>,
                             selectors: seq<Pixel -> real>, transform: ForwardStage, scanTable: seq<ScanRow>, y: int)
    requires HoldsEncodedSlices(bytes, matrix, quantizationMatrix, selectors, transform, scanTable, y, matrix.Width / 8, 0)
    ensures HoldsEncodedSlices(bytes, matrix, quantizationMatrix, selectors, transform, scanTable, y + 1, 0, 0)
  {
  }

  /** Every byte outside the slices before (y, x, i) still holds the 0 it was allocated with. */
  ghost predicate ZeroOutsideSlices(bytes: seq<Byte>, height: int, width: int, y: int, x: int, i: int)
  {
    forall n | 0 <= n < |bytes| && Uncovered(height, width, n, y, x, i) :: bytes[n] == 0
  }

  /**
   * Writing the slice of (y, x, i) and nothing outside it keeps every byte
   * outside the slices up to (y, x, i) at 0.
   */
  lemma ZerosExtend(before: seq<Byte>, after: seq<Byte>, height: int, width: int, y: int, x: int, i: int)
    requires InGrid(height, width, y, x, i) && |after| == |before|
    requires 0 <= BlockOffset(y, x, i, width) && BlockOffset(y, x, i, width) + SliceSize <= |after|
    requires after[..BlockOffset(y, x, i, width)] == before[..BlockOffset(y, x, i, width)]
    requires after[BlockOffset(y, x, i, width) + SliceSize..] == before[BlockOffset(y, x, i, width) + SliceSize..]
    requires ZeroOutsideSlices(before, height, width, y, x, i)
    ensures ZeroOutsideSlices(after, height, width, y, x, i + 1)
  {
    var offset := BlockOffset(y, x, i, width);
    forall n | 0 <= n < |after| && Uncovered(height, width, n, y, x, i + 1)
      ensures after[n] == 0
    {
      assert !Covers(y, x, i, width, n);
      assert Uncovered(height, width, n, y, x, i);
      if n < offset {
        assert after[n] == after[..offset][n];
      } else {
        assert after[n] == after[offset + SliceSize..][n - offset - SliceSize];
      }
    }
  }

  /** The bytes outside the slices before channel 3 of block (y, x) are those outside the slices before block (y, x + 1). */
  lemma ZerosNextBlock(bytes: seq<Byte>, height: int, width: int, y: int, x: int)
    requires ZeroOutsideSlices(bytes, height, width, y, x, 3)
    ensures ZeroOutsideSlices(bytes, height, width, y, x + 1, 0)
  {
    forall n | 0 <= n < |bytes| && Uncovered(height, width, n, y, x + 1, 0)
      ensures bytes[n] == 0
    {
      assert Uncovered(height, width, n, y, x, 3);
    }
  }

  /** The bytes outside the slices before the end of block row y are those outside the slices before row y + 1. */
  lemma ZerosNextRow(bytes: seq<Byte>, height: int, width: int, y: int)
    requires ZeroOutsideSlices(bytes, height, width, y, width / 8, 0)
    ensures ZeroOutsideSlices(bytes, height, width, y + 1, 0, 0)
  {
    forall n | 0 <= n < |bytes| && Uncovered(height, width, n, y + 1, 0, 0)
      ensures bytes[n] == 0
    {
      assert Uncovered(height, width, n, y, width / 8, 0);
    }
  }

  /** Equal suffixes from k on have equal suffixes from any later m. */
  lemma SuffixKept(a: seq<Byte>, b: seq<Byte>, k: int, m: int)
    requires 0 <= k <= m <= |a| == |b| && a[k..] == b[k..]
    ensures a[m..] == b[m..]
  {
    assert a[m..] == a[k..][m - k..];
    assert b[m..] == b[k..][m - k..];
  }

  /**
   * The body of Compress's loops for block row y, block column x and
   * channel i: window, forward stage, Quantize, ZigZagScan into the slice
   * of (y, x, i). No byte outside that slice changes.
   */
  method EncodeChannel(matrix: Matrix, quantizationMatrix: seq<seq<int>>, selectors: seq<Pixel -> real>,
                       transform: ForwardStage, scanTable: seq<ScanRow>, y: int, x: int, i: int,
                       subMatrix: array2<real>, quantizedFreqs: array2<Byte>, allQuantizedBytes: array<Byte>)
    requires matrix.Valid() && |selectors| == 3
    requires ForwardKeepsBlocks(transform) && |scanTable| == 8
    requires IsBlock(quantizationMatrix)
    requires subMatrix.Length0 == DCTSize && subMatrix.Length1 == DCTSize
    requires quantizedFreqs.Length0 == DCTSize && quantizedFreqs.Length1 == DCTSize
    requires InGrid(matrix.Height, matrix.Width, y, x, i)
    requires allQuantizedBytes.Length == matrix.Height * matrix.Width * 3
    modifies subMatrix, quantizedFreqs, allQuantizedBytes
    ensures 0 <= BlockOffset(y, x, i, matrix.Width) <= allQuantizedBytes.Length
    ensures allQuantizedBytes[..BlockOffset(y, x, i, matrix.Width)] == old(allQuantizedBytes[..BlockOffset(y, x, i, matrix.Width)])
    ensures BlockOffset(y, x, i, matrix.Width) + SliceSize <= allQuantizedBytes.Length
    ensures allQuantizedBytes[BlockOffset(y, x, i, matrix.Width) + SliceSize..]
            == old(allQuantizedBytes[BlockOffset(y, x, i, matrix.Width) + SliceSize..])
    ensures SliceOf(allQuantizedBytes[..], matrix.Height, matrix.Width, y, x, i)
            == EncodedSlice(matrix, quantizationMatrix, selectors, transform, scanTable, y, x, i)
  {
    ghost var window := Window(matrix, y * 8, x * 8, selectors[i]);
    GetSubMatrix(matrix, y * 8, DCTSize, x * 8, DCTSize, selectors[i], subMatrix);
    BlockExtensionality(BlockOf(subMatrix), window);
    Quantize(transform(BlockOf(subMatrix), quantizationMatrix), quantizedFreqs);
    ghost var quantized := BlockOf(quantizedFreqs);
    var offset := y * 8 * matrix.Width * 3 + x * 8 * DCTSize * 3 + i * DCTSize * DCTSize;
    SliceInsideBuffer(matrix.Height, matrix.Width, y, x, i);
    ZigZagScan(scanTable, quantizedFreqs, allQuantizedBytes, offset);
    assert SliceOf(allQuantizedBytes[..], matrix.Height, matrix.Width, y, x, i) == ScanBy(scanTable, quantized);
  }

  /**
   * Compress's innermost loop: the three channels of block (y, x), in
   * order. No byte after the block's last slice changes.
   */
  method EncodeBlock(matrix: Matrix, quantizationMatrix: seq<seq<int>>, selectors: seq<Pixel -> real>,
                     transform: ForwardStage, scanTable: seq<ScanRow>, y: int, x: int,
                     subMatrix: array2<real>, quantizedFreqs: array2<Byte>, allQuantizedBytes: array<Byte>)
    requires IsBlock(quantizationMatrix)
    requires subMatrix.Length0 == DCTSize && subMatrix.Length1 == DCTSize
    requires quantizedFreqs.Length0 == DCTSize && quantizedFreqs.Length1 == DCTSize
    requires 0 <= y < matrix.Height / 8 && 0 <= x < matrix.Width / 8
    requires HoldsEncodedSlices(allQuantizedBytes[..], matrix, quantizationMatrix, selectors, transform, scanTable, y, x, 0)
    requires ZeroOutsideSlices(allQuantizedBytes[..], matrix.Height, matrix.Width, y, x, 0)
    modifies subMatrix, quantizedFreqs, allQuantizedBytes
    ensures HoldsEncodedSlices(allQuantizedBytes[..], matrix, quantizationMatrix, selectors, transform, scanTable, y, x + 1, 0)
    ensures ZeroOutsideSlices(allQuantizedBytes[..], matrix.Height, matrix.Width, y, x + 1, 0)
    ensures BlockOffset(y, x, 2, matrix.Width) + SliceSize <= allQuantizedBytes.Length
    ensures allQuantizedBytes[BlockOffset(y, x, 2, matrix.Width) + SliceSize..]
            == old(allQuantizedBytes[BlockOffset(y, x, 2, matrix.Width) + SliceSize..])
  {
    SliceInsideBuffer(matrix.Height, matrix.Width, y, x, 2);
    ghost var start := BlockOffset(y, x, 0, matrix.Width);
    for i := 0 to |selectors|
      invariant HoldsEncodedSlices(allQuantizedBytes[..], matrix, quantizationMatrix, selectors, transform, scanTable, y, x, i)
      invariant ZeroOutsideSlices(allQuantizedBytes[..], matrix.Height, matrix.Width, y, x, i)
      invariant allQuantizedBytes[start + SliceSize * i..] == old(allQuantizedBytes[start + SliceSize * i..])
    {
      ghost var before := allQuantizedBytes[..];
      EncodeChannel(matrix, quantizationMatrix, selectors, transform, scanTable, y, x, i, subMatrix, quantizedFreqs, allQuantizedBytes);
      EncodedSlicesExtend(before, allQuantizedBytes[..], matrix, quantizationMatrix, selectors, transform, scanTable, y, x, i);
      ZerosExtend(before, allQuantizedBytes[..], matrix.Height, matrix.Width, y, x, i);
      SuffixKept(before, old(allQuantizedBytes[..]), start + SliceSize * i, start + SliceSize * (i + 1));
    }
    EncodedSlicesNextBlock(allQuantizedBytes[..], matrix, quantizationMatrix, selectors, transform, scanTable, y, x);
    ZerosNextBlock(allQuantizedBytes[..], matrix.Height, matrix.Width, y, x);
  }

  /** Once every block row is written, the bytes that are still 0 include every byte in no slice. */
  lemma ZerosInNoSlice(bytes: seq<Byte>, height: int, width: int)
    requires ZeroOutsideSlices(bytes, height, width, height / 8, 0, 0)
    ensures forall n | 0 <= n < |bytes| && InNoSlice(height, width, n) :: bytes[n] == 0
  {
    forall n | 0 <= n < |bytes| && InNoSlice(height, width, n)
      ensures bytes[n] == 0
    {
      assert Uncovered(height, width, n, height / 8, 0, 0);
    }
  }

  /**
   * When a side of a non-empty image is not a multiple of 8, the last byte
   * Compress produces is a 0 that no slice wrote.
   */
  lemma LastByteZeroUnlessAligned(bytes: seq<Byte>, height: int, width: int)
    requires height > 0 && width > 0 && (height % 8 != 0 || width % 8 != 0)
    requires |bytes| == height * width * 3
    requires forall n | 0 <= n < |bytes| && InNoSlice(height, width, n) :: bytes[n] == 0
    ensures bytes[|bytes| - 1] == 0
  {
    forall y, x, i | InGrid(height, width, y, x, i)
      ensures !Covers(y, x, i, width, height * width * 3 - 1)
    {
      LastByteUncoveredUnlessAligned(height, width, y, x, i);
    }
    assert InNoSlice(height, width, |bytes| - 1);
  }

  /**
   * Compress up to the entropy coder, with the scan table ZigZagScan reads
   * (the source's ZigZagScanTable, or CorrectedScanTable). It fails exactly
   * when the quality is outside [1, 99]; otherwise the buffer has three
   * bytes per pixel, the slice of every block and channel holds that
   * block's encoded channel, whatever order the slices were written in,
   * and every byte in no slice is 0.
   */
  method Compress(matrix: Matrix, quality: int, selectors: seq<Pixel -> real>, transform: ForwardStage,
                  scanTable: seq<ScanRow>)
    returns (result: Result<CompressedImage>)
    requires matrix.Valid() && |selectors| == 3
    requires ForwardKeepsBlocks(transform) && |scanTable| == 8
    ensures result.Failure? <==> quality < 1 || quality > 99
    ensures result.Failure? ==> result.message == QualityError
    ensures result.Success? ==>
              var image := result.value;
              image.Quality == quality && image.Height == matrix.Height && image.Width == matrix.Width
              && |image.QuantizedBytes| == matrix.Height * matrix.Width * 3
              && forall y, x, i | InGrid(matrix.Height, matrix.Width, y, x, i) ::
                   SliceOf(image.QuantizedBytes, matrix.Height, matrix.Width, y, x, i)
                     == EncodedSlice(matrix, QuantizationMatrix(quality).value, selectors, transform, scanTable, y, x, i)
    ensures result.Success? ==>
              forall n | 0 <= n < |result.value.QuantizedBytes| && InNoSlice(matrix.Height, matrix.Width, n) ::
                result.value.QuantizedBytes[n] == 0
  {
    var qmResult := GetQuantizationMatrix(quality);
    if qmResult.Failure? {
      return Failure(qmResult.message);
    }
    // Read-only from here on: the loops see it as a block value.
    var quantizationMatrix := BlockOf(qmResult.value);
    var allQuantizedBytes := new Byte[matrix.Height * matrix.Width * 3](_ => 0);
    var subMatrix := new real[DCTSize, DCTSize];
    var quantizedFreqs := new Byte[DCTSize, DCTSize];

    for y := 0 to matrix.Height / 8
      invariant HoldsEncodedSlices(allQuantizedBytes[..], matrix, quantizationMatrix, selectors, transform, scanTable, y, 0, 0)
      invariant ZeroOutsideSlices(allQuantizedBytes[..], matrix.Height, matrix.Width, y, 0, 0)
      modifies allQuantizedBytes, subMatrix, quantizedFreqs
    {
      for x := 0 to matrix.Width / 8
        invariant HoldsEncodedSlices(allQuantizedBytes[..], matrix, quantizationMatrix, selectors, transform, scanTable, y, x, 0)
        invariant ZeroOutsideSlices(allQuantizedBytes[..], matrix.Height, matrix.Width, y, x, 0)
        modifies allQuantizedBytes, subMatrix, quantizedFreqs
      {
        EncodeBlock(matrix, quantizationMatrix, selectors, transform, scanTable, y, x, subMatrix, quantizedFreqs, allQuantizedBytes);
      }
      EncodedSlicesNextRow(allQuantizedBytes[..], matrix, quantizationMatrix, selectors, transform, scanTable, y);
      ZerosNextRow(allQuantizedBytes[..], matrix.Height, matrix.Width, y);
    }
    assert HoldsEncodedSlices(allQuantizedBytes[..], matrix, quantizationMatrix, selectors, transform, scanTable, matrix.Height / 8, 0, 0);
    ZerosInNoSlice(allQuantizedBytes[..], matrix.Height, matrix.Width);
    return Success(CompressedImage(quality, matrix.Height, matrix.Width, allQuantizedBytes[..]));
  }

  /**
   * The samples Uncompress decodes for block row y, block column x and
   * channel i: the slice read back in zigzag order, dequantized and passed
   * through the inverse stage.
   */
  function DecodedChannel(image: CompressedImage, quantizationMatrix: seq<seq<int>>, inverse: InverseStage,
                          y: int, x: int, i: int): (samples: seq<seq<real>>)
    requires IsBlock(quantizationMatrix) && InverseKeepsBlocks(inverse)
    requires InGrid(image.Height, image.Width, y, x, i)
    requires image.Height * image.Width * 3 <= |image.QuantizedBytes|
    ensures IsBlock(samples)
  {
    inverse(DeQuantizeBlock(UnScanBy(ZigZagUnScanTable, SliceOf(image.QuantizedBytes, image.Height, image.Width, y, x, i)), quantizationMatrix))
  }

  /** The pixel Uncompress puts at row Y, column X of the covered region. */
  function DecodedPixel(image: CompressedImage, quantizationMatrix: seq<seq<int>>, inverse: InverseStage,
                        Y: int, X: int): Pixel
    requires IsBlock(quantizationMatrix) && InverseKeepsBlocks(inverse)
    requires 0 <= Y && Y / 8 < image.Height / 8 && 0 <= X && X / 8 < image.Width / 8
    requires image.Height * image.Width * 3 <= |image.QuantizedBytes|
  {
    var y, x := Y / 8, X / 8;
    FromYCbCr(DecodedChannel(image, quantizationMatrix, inverse, y, x, 0)[Y % 8][X % 8],
              DecodedChannel(image, quantizationMatrix, inverse, y, x, 1)[Y % 8][X % 8],
              DecodedChannel(image, quantizationMatrix, inverse, y, x, 2)[Y % 8][X % 8])
  }

  /**
   * What Uncompress has put at row Y, column X once every block before
   * block (y, x) is decoded: the decoded pixel inside such a block, Black
   * anywhere else.
   */
  ghost function ExpectedPixel(image: CompressedImage, quantizationMatrix: seq<seq<int>>, inverse: InverseStage,
                               y: int, x: int, Y: int, X: int): Pixel
    requires IsBlock(quantizationMatrix) && InverseKeepsBlocks(inverse)
    requires image.Height * image.Width * 3 <= |image.QuantizedBytes|
    requires 0 <= Y && 0 <= X
  {
    if Y / 8 < image.Height / 8 && X / 8 < image.Width / 8 && Before(Y / 8, X / 8, 0, y, x, 0)
    then DecodedPixel(image, quantizationMatrix, inverse, Y, X)
    else Black
  }

  /** `matrix` has the image's dimensions and holds ExpectedPixel(.., y, x, ..) everywhere. */
  ghost predicate HoldsDecodedPixels(matrix: Matrix, image: CompressedImage, quantizationMatrix: seq<seq<int>>,
                                     inverse: InverseStage, y: int, x: int)
    reads matrix.Pixels
  {
    && matrix.Valid() && matrix.Height == image.Height && matrix.Width == image.Width
    && IsBlock(quantizationMatrix) && InverseKeepsBlocks(inverse)
    && image.Height * image.Width * 3 <= |image.QuantizedBytes|
    && forall Y, X | 0 <= Y < matrix.Height && 0 <= X < matrix.Width ::
         matrix.Pixels[Y, X] == ExpectedPixel(image, quantizationMatrix, inverse, y, x, Y, X)
  }

  /**
   * Decoding block (y, x) changes the expected pixels of its window, to the
   * pixels built from its three channels, and no other.
   */
  lemma ExpectedPixelNextBlock(image: CompressedImage, quantizationMatrix: seq<seq<int>>, inverse: InverseStage,
                               y: int, x: int, Y: int, X: int, ys: seq<seq<real>>, cbs: seq<seq<real>>, crs: seq<seq<real>>)
    requires IsBlock(quantizationMatrix) && InverseKeepsBlocks(inverse)
    requires 0 <= y < image.Height / 8 && 0 <= x < image.Width / 8
    requires image.Height * image.Width * 3 <= |image.QuantizedBytes|
    requires 0 <= Y && 0 <= X
    requires ys == DecodedChannel(image, quantizationMatrix, inverse, y, x, 0)
    requires cbs == DecodedChannel(image, quantizationMatrix, inverse, y, x, 1)
    requires crs == DecodedChannel(image, quantizationMatrix, inverse, y, x, 2)
    ensures ExpectedPixel(image, quantizationMatrix, inverse, y, x + 1, Y, X) ==
              if y * 8 <= Y < y * 8 + 8 && x * 8 <= X < x * 8 + 8
              then FromYCbCr(ys[Y - y * 8][X - x * 8], cbs[Y - y * 8][X - x * 8], crs[Y - y * 8][X - x * 8])
              else ExpectedPixel(image, quantizationMatrix, inverse, y, x, Y, X)
  {
    if y * 8 <= Y < y * 8 + 8 && x * 8 <= X < x * 8 + 8 {
      assert Y / 8 == y && Y % 8 == Y - y * 8;
      assert X / 8 == x && X % 8 == X - x * 8;
    } else {
      assert !(Y / 8 == y && X / 8 == x);
    }
  }

  /** StoreBlock: writes an 8x8 block of samples into an 8x8 array. */
  method StoreBlock(samples: seq<seq<real>>, output: array2<real>)
    requires IsBlock(samples) && output.Length0 == DCTSize && output.Length1 == DCTSize
    modifies output
    ensures BlockOf(output) == samples
  {
    for y := 0 to DCTSize
      invariant forall y', x | 0 <= y' < y && 0 <= x < DCTSize :: output[y', x] == samples[y'][x]
    {
      for x := 0 to DCTSize
        invariant forall y', x' | 0 <= y' < y && 0 <= x' < DCTSize :: output[y', x'] == samples[y'][x']
        invariant forall x' | 0 <= x' < x :: output[y, x'] == samples[y][x']
      {
        output[y, x] := samples[y][x];
      }
    }
    BlockExtensionality(BlockOf(output), samples);
  }

  /**
   * The body of Uncompress's innermost loop for channel i of block (y, x):
   * ZigZagUnScan, DeQuantize, then the inverse stage into `channel`.
   */
  method DecodeChannel(image: CompressedImage, quantizationMatrix: array2<int>, ghost qm: seq<seq<int>>,
                       inverse: InverseStage, y: int, x: int, i: int,
                       quantizedFreqs: array2<Byte>, channelFreqs: array2<int>, channel: array2<real>)
    requires quantizationMatrix.Length0 == DCTSize && quantizationMatrix.Length1 == DCTSize
    requires BlockOf(quantizationMatrix) == qm
    requires quantizedFreqs.Length0 == DCTSize && quantizedFreqs.Length1 == DCTSize
    requires channelFreqs.Length0 == DCTSize && channelFreqs.Length1 == DCTSize
    requires channel.Length0 == DCTSize && channel.Length1 == DCTSize
    requires channelFreqs != quantizationMatrix
    requires InverseKeepsBlocks(inverse)
    requires InGrid(image.Height, image.Width, y, x, i)
    requires image.Height * image.Width * 3 <= |image.QuantizedBytes|
    modifies quantizedFreqs, channelFreqs, channel
    ensures BlockOf(channel) == DecodedChannel(image, qm, inverse, y, x, i)
  {
    var offset := y * 8 * image.Width * 3 + x * 8 * DCTSize * 3 + i * DCTSize * DCTSize;
    SliceInsideBuffer(image.Height, image.Width, y, x, i);
    ZigZagUnScan(ZigZagUnScanTable, image.QuantizedBytes, quantizedFreqs, offset);
    DeQuantize(quantizedFreqs, quantizationMatrix, channelFreqs);
    StoreBlock(inverse(BlockOf(channelFreqs)), channel);
  }

  /** A fresh Matrix, all Black, holds no decoded block yet. */
  lemma DecodedPixelsInitially(matrix: Matrix, image: CompressedImage, quantizationMatrix: seq<seq<int>>,
                               inverse: InverseStage)
    requires matrix.Valid() && matrix.Height == image.Height && matrix.Width == image.Width
    requires IsBlock(quantizationMatrix) && InverseKeepsBlocks(inverse)
    requires image.Height * image.Width * 3 <= |image.QuantizedBytes|
    requires forall Y, X | 0 <= Y < matrix.Height && 0 <= X < matrix.Width :: matrix.Pixels[Y, X] == Black
    ensures HoldsDecodedPixels(matrix, image, quantizationMatrix, inverse, 0, 0)
  {
  }

  /** The blocks before the end of block row y are those before block row y + 1. */
  lemma DecodedPixelsNextRow(matrix: Matrix, image: CompressedImage, quantizationMatrix: seq<seq<int>>,
                             inverse: InverseStage, y: int)
    requires HoldsDecodedPixels(matrix, image, quantizationMatrix, inverse, y, image.Width / 8)
    ensures HoldsDecodedPixels(matrix, image, quantizationMatrix, inverse, y + 1, 0)
  {
  }

  /** Uncompress's innermost loop: decodes the three channels of block (y, x) into ys, cbs and crs. */
  method DecodeChannels(image: CompressedImage, quantizationMatrix: array2<int>, ghost qm: seq<seq<int>>,
                        inverse: InverseStage, y: int, x: int, quantizedFreqs: array2<Byte>, channelFreqs: array2<int>,
                        ys: array2<real>, cbs: array2<real>, crs: array2<real>)
    requires quantizationMatrix.Length0 == DCTSize && quantizationMatrix.Length1 == DCTSize
    requires BlockOf(quantizationMatrix) == qm
    requires quantizedFreqs.Length0 == DCTSize && quantizedFreqs.Length1 == DCTSize
    requires channelFreqs.Length0 == DCTSize && channelFreqs.Length1 == DCTSize
    requires ys.Length0 == DCTSize && ys.Length1 == DCTSize
    requires cbs.Length0 == DCTSize && cbs.Length1 == DCTSize
    requires crs.Length0 == DCTSize && crs.Length1 == DCTSize
    requires channelFreqs != quantizationMatrix && ys != cbs && ys != crs && cbs != crs
    requires InverseKeepsBlocks(inverse)
    requires 0 <= y < image.Height / 8 && 0 <= x < image.Width / 8
    requires image.Height * image.Width * 3 <= |image.QuantizedBytes|
    modifies quantizedFreqs, channelFreqs, ys, cbs, crs
    ensures BlockOf(ys) == DecodedChannel(image, qm, inverse, y, x, 0)
    ensures BlockOf(cbs) == DecodedChannel(image, qm, inverse, y, x, 1)
    ensures BlockOf(crs) == DecodedChannel(image, qm, inverse, y, x, 2)
  {
    var channels := [ys, cbs, crs];
    for i := 0 to |channels|
      invariant i > 0 ==> BlockOf(ys) == DecodedChannel(image, qm, inverse, y, x, 0)
      invariant i > 1 ==> BlockOf(cbs) == DecodedChannel(image, qm, inverse, y, x, 1)
      invariant i > 2 ==> BlockOf(crs) == DecodedChannel(image, qm, inverse, y, x, 2)
      invariant BlockOf(quantizationMatrix) == qm
    {
      DecodeChannel(image, quantizationMatrix, qm, inverse, y, x, i, quantizedFreqs, channelFreqs, channels[i]);
    }
  }

  /**
   * The body of Uncompress's block loops: decodes the three channels of
   * block (y, x), then SetPixelsYCbCr writes its pixels, which extends the
   * decoded region by that block.
   */
  method DecodeBlock(matrix: Matrix, image: CompressedImage, quantizationMatrix: array2<int>, ghost qm: seq<seq<int>>,
                     inverse: InverseStage, y: int, x: int, quantizedFreqs: array2<Byte>, channelFreqs: array2<int>,
                     ys: array2<real>, cbs: array2<real>, crs: array2<real>)
    requires quantizationMatrix.Length0 == DCTSize && quantizationMatrix.Length1 == DCTSize
    requires BlockOf(quantizationMatrix) == qm
    requires quantizedFreqs.Length0 == DCTSize && quantizedFreqs.Length1 == DCTSize
    requires channelFreqs.Length0 == DCTSize && channelFreqs.Length1 == DCTSize
    requires ys.Length0 == DCTSize && ys.Length1 == DCTSize
    requires cbs.Length0 == DCTSize && cbs.Length1 == DCTSize
    requires crs.Length0 == DCTSize && crs.Length1 == DCTSize
    requires channelFreqs != quantizationMatrix && ys != cbs && ys != crs && cbs != crs
    requires 0 <= y < image.Height / 8 && 0 <= x < image.Width / 8
    requires HoldsDecodedPixels(matrix, image, qm, inverse, y, x)
    modifies matrix.Pixels, quantizedFreqs, channelFreqs, ys, cbs, crs
    ensures HoldsDecodedPixels(matrix, image, qm, inverse, y, x + 1)
  {
    DecodeChannels(image, quantizationMatrix, qm, inverse, y, x, quantizedFreqs, channelFreqs, ys, cbs, crs);
    ghost var yBlock, cbBlock, crBlock := BlockOf(ys), BlockOf(cbs), BlockOf(crs);
    assert HoldsDecodedPixels(matrix, image, qm, inverse, y, x);
    label Decoded:
    SetPixelsYCbCr(matrix, ys, cbs, crs, y * 8, x * 8);
    forall Y, X | 0 <= Y < matrix.Height && 0 <= X < matrix.Width
      ensures matrix.Pixels[Y, X] == ExpectedPixel(image, qm, inverse, y, x + 1, Y, X)
    {
      ExpectedPixelNextBlock(image, qm, inverse, y, x, Y, X, yBlock, cbBlock, crBlock);
      if y * 8 <= Y < y * 8 + 8 && x * 8 <= X < x * 8 + 8 {
        var r, c := Y - y * 8, X - x * 8;
        assert matrix.Pixels[Y, X] == FromYCbCr(ys[r, c], cbs[r, c], crs[r, c]);
        assert yBlock[r][c] == ys[r, c] && cbBlock[r][c] == cbs[r, c] && crBlock[r][c] == crs[r, c];
      } else {
        assert matrix.Pixels[Y, X] == old@Decoded(matrix.Pixels[Y, X]);
      }
    }
  }

  /**
   * Uncompress from the buffer the entropy decoder restores. It fails
   * exactly when the stored quality is outside [1, 99]; otherwise it
   * returns a fresh Matrix of the stored dimensions whose pixels in the
   * covered blocks are decoded and whose other pixels stay Black.
   */
  method Uncompress(image: CompressedImage, inverse: InverseStage) returns (result: Result<Matrix>)
    requires image.Height * image.Width * 3 <= |image.QuantizedBytes|
    requires InverseKeepsBlocks(inverse)
    ensures result.Failure? <==> image.Quality < 1 || image.Quality > 99
    ensures result.Failure? ==> result.message == QualityError
    ensures result.Success? ==>
              var matrix := result.value;
              && fresh(matrix) && fresh(matrix.Pixels)
              && HoldsDecodedPixels(matrix, image, QuantizationMatrix(image.Quality).value, inverse,
                                    image.Height / 8, 0)
  {
    var qmResult := GetQuantizationMatrix(image.Quality);
    if qmResult.Failure? {
      return Failure(qmResult.message);
    }
    var quantizationMatrix := qmResult.value;
    ghost var qm := BlockOf(quantizationMatrix);
    var quantizedFreqs := new Byte[DCTSize, DCTSize];
    var channelFreqs := new int[DCTSize, DCTSize];
    var ys := new real[DCTSize, DCTSize];
    var cbs := new real[DCTSize, DCTSize];
    var crs := new real[DCTSize, DCTSize];
    var matrix := new Matrix(image.Height, image.Width);
    DecodedPixelsInitially(matrix, image, qm, inverse);
    for y := 0 to image.Height / 8
      invariant HoldsDecodedPixels(matrix, image, qm, inverse, y, 0)
      invariant BlockOf(quantizationMatrix) == qm
      modifies matrix.Pixels, quantizedFreqs, channelFreqs, ys, cbs, crs
    {
      for x := 0 to image.Width / 8
        invariant HoldsDecodedPixels(matrix, image, qm, inverse, y, x)
        invariant BlockOf(quantizationMatrix) == qm
        modifies matrix.Pixels, quantizedFreqs, channelFreqs, ys, cbs, crs
      {
        DecodeBlock(matrix, image, quantizationMatrix, qm, inverse, y, x, quantizedFreqs, channelFreqs, ys, cbs, crs);
      }
      DecodedPixelsNextRow(matrix, image, qm, inverse, y);
    }
    return Success(matrix);
  }

  /** The block with the entry of cell (5, 3) copied into cell (3, 5). */
  function MisplacedCell<T>(block: seq<seq<T>>): (moved: seq<seq<T>>)
    requires IsBlock(block)
    ensures IsBlock(moved)
  {
    block[3 := block[3][5 := block[5][3]]]
  }

  /**
   * The coefficients Uncompress hands to the inverse stage for a slice
   * Compress stored: when every quotient fits a signed byte, each quotient
   * times its matrix entry, except that cell (3, 5) receives the quotient of
   * cell (5, 3), through the source's scan table.
   */
  lemma StoredCoefficients(quotients: seq<seq<int>>, quantizationMatrix: seq<seq<int>>)
    requires FitsSignedBytes(quotients) && IsBlock(quantizationMatrix)
    ensures DeQuantizeBlock(UnScanBy(ZigZagUnScanTable, ScanBy(ZigZagScanTable, QuantizeBlock(quotients))), quantizationMatrix)
            == Rescaled(MisplacedCell(quotients), quantizationMatrix)
  {
    var narrowed := QuantizeBlock(quotients);
    UnScanAfterScan(narrowed);
    var moved := MisplacedCell(quotients);
    forall y, x | 0 <= y < 8 && 0 <= x < 8
      ensures MisplacedCell(narrowed)[y][x] == QuantizeBlock(moved)[y][x]
    {
    }
    BlockExtensionality(MisplacedCell(narrowed), QuantizeBlock(moved));
    DeQuantizeQuantizeBlock(moved, quantizationMatrix);
  }

  /** With the corrected scan table the stored coefficients are each quotient times its entry. */
  lemma CorrectedStoredCoefficients(quotients: seq<seq<int>>, quantizationMatrix: seq<seq<int>>)
    requires FitsSignedBytes(quotients) && IsBlock(quantizationMatrix)
    ensures DeQuantizeBlock(UnScanBy(ZigZagUnScanTable, ScanBy(CorrectedScanTable, QuantizeBlock(quotients))), quantizationMatrix)
            == Rescaled(quotients, quantizationMatrix)
  {
    CorrectedScanRoundTrip(QuantizeBlock(quotients), ScanBy(CorrectedScanTable, QuantizeBlock(quotients)));
    DeQuantizeQuantizeBlock(quotients, quantizationMatrix);
  }

  /**
   * Uncompress of what Compress stored: for a slice holding block (y, x),
   * channel i, as Compress leaves it, and quotients of the forward stage
   * that fit a signed byte, the decoded samples are the inverse stage of
   * the rescaled quotients. With the source's scan table cell (3, 5)
   * receives the quotient of cell (5, 3); with the corrected table every
   * cell gets its own.
   */
  lemma CompressThenUncompress(matrix: Matrix, quality: int, selectors: seq<Pixel -> real>,
                               transform: ForwardStage, scanTable: seq<ScanRow>, inverse: InverseStage,
                               image: CompressedImage, y: int, x: int, i: int)
    requires matrix.Valid() && |selectors| == 3 && 1 <= quality <= 99
    requires ForwardKeepsBlocks(transform) && InverseKeepsBlocks(inverse)
    requires scanTable == ZigZagScanTable || scanTable == CorrectedScanTable
    requires image.Height == matrix.Height && image.Width == matrix.Width
    requires |image.QuantizedBytes| == matrix.Height * matrix.Width * 3
    requires InGrid(matrix.Height, matrix.Width, y, x, i)
    requires SliceOf(image.QuantizedBytes, image.Height, image.Width, y, x, i)
             == EncodedSlice(matrix, QuantizationMatrix(quality).value, selectors, transform, scanTable, y, x, i)
    requires FitsSignedBytes(transform(Window(matrix, y * 8, x * 8, selectors[i]), QuantizationMatrix(quality).value))
    ensures var qm := QuantizationMatrix(quality).value;
            scanTable == ZigZagScanTable ==>
              DecodedChannel(image, qm, inverse, y, x, i)
                == inverse(Rescaled(MisplacedCell(transform(Window(matrix, y * 8, x * 8, selectors[i]), qm)), qm))
    ensures var qm := QuantizationMatrix(quality).value;
            scanTable == CorrectedScanTable ==>
              DecodedChannel(image, qm, inverse, y, x, i)
                == inverse(Rescaled(transform(Window(matrix, y * 8, x * 8, selectors[i]), qm), qm))
  {
    var qm := QuantizationMatrix(quality).value;
    var quotients := transform(Window(matrix, y * 8, x * 8, selectors[i]), qm);
    if scanTable == ZigZagScanTable {
      StoredCoefficients(quotients, qm);
    } else {
      CorrectedStoredCoefficients(quotients, qm);
    }
  }
}
