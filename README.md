# JPEG block pipeline: quantization, zigzag order, block grid

A Dafny model of the integer and indexing core of a small JPEG-style codec
written in C#. In the source, `Compress` cuts an image (a `Matrix` of
pixels) into 8x8 blocks. For each block it takes the Y, Cb and Cr channels
in turn and runs each through:

- the level shift and the DCT;
- division by a quality-scaled quantization matrix;
- narrowing to bytes;
- the zigzag scan.

Each 64-byte run is stored at an offset computed from block row, block
column and channel. `Uncompress` walks the same grid, unscans,
dequantizes (reading each byte back as a signed byte), runs the inverse
transform and writes the pixels back.

The model keeps the source's imperative shape. Every helper that fills a
caller-supplied array is a method over `array2`/`array` with nested loops
and invariants, and its postcondition ties the new contents to a
specification function. `Matrix` is a class whose pixel grid is updated in
place. The floating-point stages are parameters:

- the level shift, DCT2D and the division of `Quantize` form the
  `ForwardStage`;
- IDCT2D and the level shift back form the `InverseStage`;
- the pixel colour selectors are the third.

Modules:

- `Blocks`: the block size, bytes, and 8x8 blocks as `seq<seq<T>>`.
- `Images`: `Pixel`, the `Matrix` class with its constructor, and the
  Bitmap-to-Matrix crop.
- `Quantization`:
  - the quantization matrix and `GetQuantizationMatrix`;
  - the byte narrowing of `Quantize`;
  - the signed reading of `DeQuantize`;
  - the truncating division.
- `ZigZag`: the scan and unscan tables, `ZigZagScan`, `ZigZagUnScan`, and
  the round-trip facts about the tables.
- `BlockGrid`: the slice offset formula shared by the encoder and the
  decoder, and the layout of the slices in the flat buffer.
- `Codec`:
  - `GetSubMatrix` and `SetPixelsYCbCr`;
  - the block loops of `Compress` and `Uncompress`;
  - what Uncompress recovers from what Compress stored.

Two points where the code departs from the usual JPEG practice, and the
model follows the code:

- libjpeg clamps every scaled quantization entry to at least 1.
  Program.cs:236 applies no floor, so at quality 98 and 99 every entry
  whose base value is at most 12 (98) or 24 (99) is 0
  (`Quantization.ZeroEntriesAboveQuality97`). At such an entry DeQuantize
  multiplies by 0, so the coefficient always decodes as 0
  (`Quantization.ZeroEntryDecodesToZero`). Entries are proved positive
  only up to quality 97.
- The zigzag order of ITU-T T.81 (Figure A.6) is a permutation of the 64
  cells. The scan table at Program.cs:164-173 is not; see "## Findings".

## Model

| member | source | states |
|---|---|---|
| Images.Matrix.constructor | optimizations/JPEG/Images/Matrix.cs:11-20 | the new matrix has the given height and width, a fresh `height` x `width` grid, and every cell is the black pixel `FromRGB(0, 0, 0)` |
| Images.CroppedDimension | optimizations/JPEG/Images/Matrix.cs:24-25 | the cropped side `n - n % 8` is a multiple of 8, at most `n`, and within 7 of `n` |
| Images.CroppedDimensionIsLargest | optimizations/JPEG/Images/Matrix.cs:24-25 | no multiple of 8 that fits in the side is larger than the cropped side |
| Images.Matrix.FromBitmap | optimizations/JPEG/Images/Matrix.cs:22-38 | the result is a fresh matrix of the cropped dimensions, and every cell `[j, i]` holds the bitmap pixel of row j, column i (a top-left crop) |
| Quantization.Multiplier | optimizations/JPEG/Program.cs:220 | the quality multiplier lies in [2, 5000], is 100 exactly at quality 50, and is at least 6 up to quality 97 |
| Quantization.ScaledEntry | optimizations/JPEG/Program.cs:236 | `(m * base + 50) / 100` is `m * base / 100` rounded to the nearest integer, halves upward |
| Quantization.QuantizationMatrix | optimizations/JPEG/Program.cs:215-239 | fails exactly when quality is outside [1, 99], with the source's message; otherwise it is an 8x8 block |
| Quantization.GetQuantizationMatrix | optimizations/JPEG/Program.cs:215-239 | the in-place rewrite of the base table fails exactly on a quality outside [1, 99]; otherwise it returns an 8x8 array whose contents are the scaled base table |
| Quantization.QualityFiftyIsBaseTable | optimizations/JPEG/Program.cs:220-236 | at quality 50 the matrix is the base table itself |
| Quantization.EntriesPositiveUpToQuality97 | optimizations/JPEG/Program.cs:220-236 | up to quality 97 every entry is at least 1 |
| Quantization.ZeroEntriesAboveQuality97 | optimizations/JPEG/Program.cs:220-236 | at quality 98 and 99, with no floor, an entry is 0 exactly when its base value is at most 12 (98) or 24 (99) |
| Quantization.ZeroEntryDecodesToZero | optimizations/JPEG/Program.cs:208-236 | at quality 98 or 99, at a cell whose base value is at most 12 (98) or 24 (99), the entry is 0 and DeQuantize yields 0 whatever byte is stored there, so the whole coefficient is lost |
| Quantization.HigherQualityFinerSteps | optimizations/JPEG/Program.cs:220-236 | a higher quality never gives a larger entry at any cell |
| Quantization.MultiplierAntitone | optimizations/JPEG/Program.cs:220 | the multiplier never grows with the quality, across the switch at 50 |
| Quantization.Narrow | optimizations/JPEG/Program.cs:205 | the `(byte)` cast keeps the value modulo 256 and leaves values in [0, 255] unchanged |
| Quantization.AsSignedByte | optimizations/JPEG/Program.cs:212 | the `(sbyte)` reading of a byte lies in [-128, 127] and narrows back to the same byte |
| Quantization.NarrowLosslessIffSignedByte | optimizations/JPEG/Program.cs:205-212 | narrowing then reading back as signed returns the integer if and only if it lies in [-128, 127] |
| Quantization.TruncatedQuotient | optimizations/JPEG/Program.cs:205 | the cast of the quotient to an integer truncates toward zero: for a non-negative coefficient `t * q <= f < (t + 1) * q`, for a negative one `(t - 1) * q < f <= t * q` |
| Quantization.Quantize | optimizations/JPEG/Program.cs:201-206 | the output array holds every quotient of the block narrowed to a byte |
| Quantization.DeQuantize | optimizations/JPEG/Program.cs:208-213 | the output array holds every byte read as a signed byte times its matrix entry |
| Quantization.DeQuantizeQuantize | optimizations/JPEG/Program.cs:205-212 | at a cell whose quotient t fits a signed byte, dequantizing the quantized block gives exactly `t * q[y, x]` |
| Quantization.DeQuantizeQuantizeBlock | optimizations/JPEG/Program.cs:201-213 | when every quotient fits a signed byte, DeQuantize after Quantize gives the whole block of quotients times entries |
| Quantization.QuantizationErrorBound | optimizations/JPEG/Program.cs:201-213 | when the truncated quotient fits a signed byte, the dequantized coefficient lies between 0 and the original coefficient, less than one matrix step from it |
| ZigZag.ZigZagScan | optimizations/JPEG/Program.cs:175-180 | bytes `[offset, offset + 64)` receive the block in the order of the scan table, and every other byte of the buffer is unchanged |
| ZigZag.ZigZagUnScan | optimizations/JPEG/Program.cs:194-199 | the block receives, at each cell, the byte of `[offset, offset + 64)` that the unscan table names; only that range is read |
| ZigZag.UnScanTableIsBijection | optimizations/JPEG/Program.cs:182-192 | the unscan table sends distinct cells to distinct run positions and reaches all 64 |
| ZigZag.ScanTableAfterUnScanTable | optimizations/JPEG/Program.cs:164-192 | the source's scan table undoes the unscan table at every cell except (3, 5), which comes back as (5, 3) |
| ZigZag.UnScanTableAfterScanTable | optimizations/JPEG/Program.cs:164-192 | the unscan table undoes the source's scan table at every run position except 40, which comes back as 38 |
| ZigZag.UnScanAfterScan | optimizations/JPEG/Program.cs:164-199 | ZigZagUnScan after ZigZagScan gives back the block except at cell (3, 5), which receives the entry of (5, 3) |
| ZigZag.DistinctBlockDoesNotRoundTrip | optimizations/JPEG/Program.cs:164-199 | the block with 64 distinct entries `8 * y + x` does not survive scan then unscan |
| ZigZag.UnScanTableAfterCorrectedScanTable | optimizations/JPEG/Program.cs:182-192 | the unscan table undoes the corrected scan table at every run position |
| ZigZag.CorrectedScanTableAfterUnScanTable | optimizations/JPEG/Program.cs:182-192 | the corrected scan table undoes the unscan table at every cell |
| ZigZag.CorrectedScanRoundTrip | optimizations/JPEG/Program.cs:182-199 | with the corrected scan table, unscan undoes scan on every block and scan undoes unscan on every run |
| ZigZag.ScanStepsAlongDiagonals | optimizations/JPEG/Program.cs:164-173 | consecutive run positions of the source's scan table stay on one anti-diagonal or move to the next |
| ZigZag.ScanOrderedByDiagonal | optimizations/JPEG/Program.cs:164-173 | the source's scan table visits cells in non-decreasing total frequency (row + column) |
| BlockGrid.BlockOffset | optimizations/JPEG/Program.cs:91 | the offset of block row y, block column x, channel i is `24 * width * y + 192 * x + 64 * i`; when the width is a multiple of 8 it is 64 times the position of (y, x, i) in the loops' order. Line 123 of Uncompress computes the same expression, and the encoder and the decoder both use this one function |
| BlockGrid.SliceWithinBlockRow | optimizations/JPEG/Program.cs:80-91 | the slice of block (y, x), channel i, lies within the `24 * width` bytes of block row y |
| BlockGrid.SlicesOrdered | optimizations/JPEG/Program.cs:80-91 | slices lie in the buffer in the loops' order (block row, block column, channel) without overlapping |
| BlockGrid.SlicesDisjoint | optimizations/JPEG/Program.cs:80-91 | the slices of distinct (block row, block column, channel) triples are disjoint |
| BlockGrid.SliceInsideBuffer | optimizations/JPEG/Program.cs:70-91 | every slice lies inside the `height * width * 3` bytes of the buffer |
| BlockGrid.SlicesTileBuffer | optimizations/JPEG/Program.cs:70-91 | when both sides are multiples of 8, every byte of the buffer lies in some slice |
| BlockGrid.LastByteUncoveredUnlessAligned | optimizations/JPEG/Program.cs:70-91 | when a side is not a multiple of 8, no slice covers the last byte of a non-empty buffer |
| Codec.GetSubMatrix | optimizations/JPEG/Program.cs:156-162 | the top-left `yLength` x `xLength` corner of the output receives the selected channel of the window, and every other cell keeps its value |
| Codec.SetPixelsYCbCr | optimizations/JPEG/Program.cs:146-154 | the pixels of the window as large as `ys` become the pixels built from `ys`, `cbs` and `crs`, and every pixel outside it keeps its value |
| Codec.EncodeChannel | optimizations/JPEG/Program.cs:84-92 | one pass of Compress's innermost loop writes the encoded channel into the slice of (y, x, i), at the offset the source computes, and changes no byte outside that slice |
| Codec.EncodeBlock | optimizations/JPEG/Program.cs:82-93 | the three channels of block (y, x) extend the encoded region by that block; earlier slices and every byte after the block's last slice are unchanged, and a byte in no slice written so far stays 0 |
| Codec.Compress | optimizations/JPEG/Program.cs:66-98 | fails exactly when quality is outside [1, 99]; otherwise keeps quality and dimensions, yields `height * width * 3` bytes, and the slice of every block and channel holds that channel's window through the forward stage, narrowed and scanned; every byte in no slice is 0, as the zero-filled buffer of line 70 leaves it; a failure carries the source's message |
| Codec.StoreBlock | optimizations/JPEG/Program.cs:126-127 | the output array holds the block the inverse stage produced |
| Codec.DecodeChannel | optimizations/JPEG/Program.cs:123-127 | one pass of Uncompress's channel loop fills the channel array with the slice of (y, x, i) unscanned, dequantized and passed through the inverse stage, using the same offset as the encoder |
| Codec.DecodeChannels | optimizations/JPEG/Program.cs:121-128 | the channel loop leaves the decoded Y, Cb and Cr blocks of block (y, x) in `ys`, `cbs` and `crs` |
| Codec.DecodedPixelsInitially | optimizations/JPEG/Program.cs:117 | the all-black matrix is the expected state before any block is decoded |
| Codec.ExpectedPixelNextBlock | optimizations/JPEG/Program.cs:130 | decoding block (y, x) changes the expected pixels of its window, to the pixels built from its three channels, and no other |
| Codec.DecodeBlock | optimizations/JPEG/Program.cs:119-131 | one pass of Uncompress's block loop extends the decoded region by block (y, x) and leaves every other pixel as it was |
| Codec.Uncompress | optimizations/JPEG/Program.cs:100-134 | fails exactly when the stored quality is outside [1, 99], with the source's message; otherwise returns a fresh matrix of the stored dimensions whose pixels in the covered blocks are decoded from their slices and whose other pixels stay black |
| Codec.LastByteZeroUnlessAligned | optimizations/JPEG/Program.cs:70-93 | when a side is not a multiple of 8, the last byte of a non-empty buffer that Compress fills is 0, since no slice covers it |
| Codec.StoredCoefficients | optimizations/JPEG/Program.cs:87-125 | through the source's tables, the coefficients recovered from a stored block are its quotients times their entries, with cell (3, 5) given the quotient of (5, 3), when every quotient fits a signed byte |
| Codec.CorrectedStoredCoefficients | optimizations/JPEG/Program.cs:87-125 | through the corrected scan table the recovered coefficients are exactly the quotients times their entries |
| Codec.CompressThenUncompress | optimizations/JPEG/Program.cs:66-134 | for a slice as Compress leaves it, Uncompress decodes the inverse stage of the rescaled quotients: misplaced at (3, 5) with the source's scan table, exact with the corrected one |

## Left out

- The floating-point stages are the `ForwardStage` and `InverseStage` function parameters and are not modelled:
  - ShiftMatrixValues;
  - DCT2D and IDCT2D (`DCT.cs` is not part of this model);
  - the double division of `Quantize`.
  Their results are only assumed to be 8x8 blocks.
- `Quantization.Quantize` takes the already truncated integer quotients. The division and its truncation are specified separately by `TruncatedQuotient` over exact reals, so double rounding is not modelled.
- `Quantization.Narrow` wraps modulo 256. C# leaves the cast of an out-of-range double to `byte` unspecified; the model takes the two's-complement wrap that the signed reading in `DeQuantize` relies on.
- Pixel colour conversions:
  - The `Y`, `Cb`, `Cr`, `R`, `G` and `B` properties of `Pixel` are floating-point formulas. The encoder's channel selectors are therefore a parameter.
  - `Pixel.FromRGB` and `Pixel.FromYCbCr` are taken to build a pixel tagged with its format.
- `HuffmanCodec.Encode`/`Decode` and `CompressedImage.Save`/`Load` are not part of this model. `Compress` returns the flat buffer of quantized bytes, and `Uncompress` takes it.
- Main, file paths, timing and console output are I/O. So is `StopWatchExtensions.cs`.
- The Matrix-to-Bitmap operator and `Matrix.ToByte` are foreign drawing calls and a double cast.
- `ZigZag.ZigZagScan` and `ZigZag.ZigZagUnScan` read the static tables of the source, which are passed in as a parameter. `Codec.Compress` likewise takes the scan table, so it can run with the source's table or with `CorrectedScanTable`.
- `Codec.Uncompress` requires a buffer of at least `height * width * 3` bytes, the length Compress produces. The source reads only the slice bytes and throws an index exception only when the buffer ends before the end of the last slice it reads. When a side is not a multiple of 8 a somewhat shorter buffer therefore decodes without an exception. Neither the exception nor those shorter buffers are modelled.
- `Quantization.TruncatedQuotient` requires a positive matrix entry. At quality 98 and 99 some entries are 0, and the source then divides a double by 0, giving an infinity or NaN. C# leaves the cast of those to `byte` unspecified, so the stored byte is not modelled; `Quantization.ZeroEntryDecodesToZero` states that the decoded coefficient is 0 whatever that byte is.
- `Quantization.QuantizationErrorBound` requires a positive matrix entry for the same reason. At a zero entry the error is the whole coefficient, by `Quantization.ZeroEntryDecodesToZero`.
- `Images.Matrix.constructor` takes natural dimensions. The source's exception on a negative size is not modelled.
- Integers are unbounded. The C# `int` overflow of `height * width * 3` and of the offset formula on images of more than about 715 million pixels is not modelled.

## Findings

| source | as written | input that shows it | evidently intended | confidence | as-written member | corrected member |
|---|---|---|---|---|---|---|
| optimizations/JPEG/Program.cs:170 | `ZigZagScanTable[5, 0]` is `(5, 3)`, the cell already listed at `[4, 6]`, so cell (3, 5) is never stored | the block with entry `8 * y + x` at (y, x): after ZigZagScan and ZigZagUnScan, cell (3, 5) holds 43 instead of 29 (`ZigZag.DistinctBlockDoesNotRoundTrip`) | `(3, 5)`, the zigzag order of ITU-T T.81 Figure A.6, under which unscan undoes scan | not executed | ZigZag.UnScanAfterScan | ZigZag.CorrectedScanRoundTrip |
