/**
 * Quantization in Program.cs: the quality-scaled quantization matrix
 * (GetQuantizationMatrix), the narrowing of quantized coefficients to bytes
 * (Quantize) and their signed reading back (DeQuantize).
 */
module Quantization {
  import opened Blocks

  /** The outcome of an operation that can reject its input. */
  datatype Result<T> = Success(value: T) | Failure(message: string)

  /** A row of the base table; every entry lies between 10 and 121. */
  type BaseRow = r: seq<int> | |r| == 8 && forall k | 0 <= k < 8 :: 10 <= r[k] <= 121
    witness [10, 10, 10, 10, 10, 10, 10, 10]

  /**
   * The luminance quantization table of ITU-T T.81 Annex K (Table K.1),
   * the starting value of the matrix GetQuantizationMatrix scales.
   */
  const BaseLuminanceTable: seq<BaseRow> := [
    [16, 11, 10, 16, 24, 40, 51, 61],
    [12, 12, 14, 19, 26, 58, 60, 55],
    [14, 13, 16, 24, 40, 57, 69, 56],
    [14, 17, 22, 29, 51, 87, 80, 62],
    [18, 22, 37, 56, 68, 109, 103, 77],
    [24, 35, 55, 64, 81, 104, 113, 92],
    [49, 64, 78, 87, 103, 121, 120, 101],
    [72, 92, 95, 98, 112, 100, 103, 99]
  ]

  const QualityError := "quality must be in [1,99] interval"

  /** The quality scale factor, in percent of the base table. */
  function Multiplier(quality: int): (m: int)
    requires 1 <= quality <= 99
    ensures 2 <= m <= 5000
    ensures m == 100 <==> quality == 50
    ensures quality <= 97 ==> m >= 6
  {
    if quality < 50 then 5000 / quality else 200 - 2 * quality
  }

  /**
   * One scaled entry: multiplier * base / 100 rounded to the nearest
   * integer, halves upward (the source's truncating division of a
   * non-negative number, with 50 added first). No lower bound is applied.
   */
  function ScaledEntry(multiplier: int, base: int): (e: int)
    requires multiplier >= 0 && base >= 0
    ensures 100 * e - 50 <= multiplier * base < 100 * e + 50
  {
    (multiplier * base + 50) / 100
  }

  /** The quantization matrix for `quality`, or the rejection of `quality`. */
  function QuantizationMatrix(quality: int): (r: Result<seq<seq<int>>>)
    ensures r.Failure? <==> quality < 1 || quality > 99
    ensures r.Failure? ==> r.message == QualityError
    ensures r.Success? ==> IsBlock(r.value)
  {
    if quality < 1 || quality > 99 then
      Failure(QualityError)
    else
      var m := Multiplier(quality);
      Success(seq(8, y requires 0 <= y < 8 =>
                seq(8, x requires 0 <= x < 8 => ScaledEntry(m, BaseLuminanceTable[y][x]))))
  }

  /** The base table as a total function of the cell, for array initialisation. */
  function BaseAt(y: nat, x: nat): int
  {
    if y < 8 && x < 8 then BaseLuminanceTable[y][x] else 0
  }

  /**
   * GetQuantizationMatrix: throws (here: fails) on a quality outside
   * [1,99]; otherwise starts from the base table and rewrites every entry
   * in place with its scaled value.
   */
  method GetQuantizationMatrix(quality: int) returns (r: Result<array2<int>>)
    ensures r.Failure? <==> quality < 1 || quality > 99
    ensures r.Failure? ==> r.message == QualityError
    ensures r.Success? ==> r.value.Length0 == 8 && r.value.Length1 == 8
    ensures r.Success? ==> BlockOf(r.value) == QuantizationMatrix(quality).value
  {
    if quality < 1 || quality > 99 {
      return Failure(QualityError);
    }
    var multiplier := if quality < 50 then 5000 / quality else 200 - 2 * quality;
    var result := new int[8, 8](BaseAt);
    for y := 0 to result.Length0
      invariant forall y', x | 0 <= y' < y && 0 <= x < 8 ::
                  result[y', x] == ScaledEntry(multiplier, BaseLuminanceTable[y'][x])
      invariant forall y', x | y <= y' < 8 && 0 <= x < 8 :: result[y', x] == BaseLuminanceTable[y'][x]
    {
      for x := 0 to result.Length1
        invariant forall y', x' | 0 <= y' < y && 0 <= x' < 8 ::
                    result[y', x'] == ScaledEntry(multiplier, BaseLuminanceTable[y'][x'])
        invariant forall x' | 0 <= x' < x :: result[y, x'] == ScaledEntry(multiplier, BaseLuminanceTable[y][x'])
        invariant forall y', x' | y <= y' < 8 && x <= x' < 8 :: result[y', x'] == BaseLuminanceTable[y'][x']
        invariant forall y', x' | y < y' < 8 && 0 <= x' < 8 :: result[y', x'] == BaseLuminanceTable[y'][x']
      {
        result[y, x] := (multiplier * result[y, x] + 50) / 100;
      }
    }
    BlockExtensionality(BlockOf(result), QuantizationMatrix(quality).value);
    r := Success(result);
  }

  /** At quality 50 the matrix is the base table itself. */
  lemma QualityFiftyIsBaseTable()
    ensures QuantizationMatrix(50) == Success(BaseLuminanceTable)
  {
    var q := QuantizationMatrix(50).value;
    forall y, x | 0 <= y < 8 && 0 <= x < 8
      ensures q[y][x] == BaseLuminanceTable[y][x]
    {
      var b := BaseLuminanceTable[y][x];
      assert 100 * b - 50 <= 100 * b < 100 * q[y][x] + 50;
    }
    BlockExtensionality(q, BaseLuminanceTable);
  }

  /** Up to quality 97 every entry is at least 1. */
  lemma EntriesPositiveUpToQuality97(quality: int, y: int, x: int)
    requires 1 <= quality <= 97
    requires 0 <= y < 8 && 0 <= x < 8
    ensures QuantizationMatrix(quality).value[y][x] >= 1
  {
    var m, b := Multiplier(quality), BaseLuminanceTable[y][x];
    assert m * b >= 6 * 10 by {
      MulMonotone(6, m, 10, b);
    }
  }

  /**
   * At quality 98 and 99 there is no floor: an entry is 0 exactly when its
   * base value is at most 12 (quality 98) or at most 24 (quality 99).
   */
  lemma ZeroEntriesAboveQuality97(quality: int, y: int, x: int)
    requires 98 <= quality <= 99
    requires 0 <= y < 8 && 0 <= x < 8
    ensures QuantizationMatrix(quality).value[y][x] == 0 <==>
            BaseLuminanceTable[y][x] <= (if quality == 98 then 12 else 24)
  {
  }

  /**
   * At such a zero entry DeQuantize multiplies by 0: whatever byte Quantize
   * stored there, the coefficient decodes as 0, so the error is the whole
   * original coefficient.
   */
  lemma ZeroEntryDecodesToZero(bytes: seq<seq<Byte>>, quality: int, y: int, x: int)
    requires IsBlock(bytes) && 98 <= quality <= 99
    requires 0 <= y < 8 && 0 <= x < 8
    requires BaseLuminanceTable[y][x] <= (if quality == 98 then 12 else 24)
    ensures QuantizationMatrix(quality).value[y][x] == 0
    ensures DeQuantizeBlock(bytes, QuantizationMatrix(quality).value)[y][x] == 0
  {
    ZeroEntriesAboveQuality97(quality, y, x);
  }

  /** A higher quality never gives a coarser step. */
  lemma HigherQualityFinerSteps(q1: int, q2: int, y: int, x: int)
    requires 1 <= q1 <= q2 <= 99
    requires 0 <= y < 8 && 0 <= x < 8
    ensures QuantizationMatrix(q2).value[y][x] <= QuantizationMatrix(q1).value[y][x]
  {
    MultiplierAntitone(q1, q2);
    ScaledEntryMonotone(Multiplier(q2), Multiplier(q1), BaseLuminanceTable[y][x]);
  }

  /** The multiplier never grows with the quality. */
  lemma MultiplierAntitone(q1: int, q2: int)
    requires 1 <= q1 <= q2 <= 99
    ensures Multiplier(q2) <= Multiplier(q1)
  {
    if q2 < 50 {
      DivisionAntitone(5000, q1, q2);
    } else if q1 < 50 {
      DivisionAntitone(5000, q1, 49);
    }
  }

  /** A scaled entry grows with the multiplier. */
  lemma ScaledEntryMonotone(m1: int, m2: int, base: int)
    requires 0 <= m1 <= m2 && base >= 0
    ensures ScaledEntry(m1, base) <= ScaledEntry(m2, base)
  {
    MulMonotone(m1, m2, base, base);
  }

  /**
   * The C# unchecked cast of an integer to `byte`: the low eight bits, that
   * is, the value modulo 256.
   */
  function Narrow(t: int): (b: Byte)
    ensures (b - t) % 256 == 0
    ensures 0 <= t < 256 ==> b == t
  {
    t % 256
  }

  /**
   * The C# cast of a `byte` to `sbyte`: the same eight bits read as a
   * two's-complement number.
   */
  function AsSignedByte(b: Byte): (v: int)
    ensures -128 <= v < 128
    ensures Narrow(v) == b
  {
    if b < 128 then b else b - 256
  }

  /** Narrowing then reading back as signed is lossless exactly on [-128, 127]. */
  lemma NarrowLosslessIffSignedByte(t: int)
    ensures AsSignedByte(Narrow(t)) == t <==> -128 <= t < 128
  {
    if -128 <= t < 128 {
      var v := AsSignedByte(Narrow(t));
      assert (v - t) % 256 == 0;
    }
  }

  /**
   * Quantize's division: the coefficient divided by the matrix entry,
   * truncated toward zero as C#'s cast of a double to an integer type does.
   * The division is exact here; floating-point rounding is not modelled.
   */
  function TruncatedQuotient(f: real, q: int): (t: int)
    requires q > 0
    ensures 0.0 <= f ==> 0 <= t && (t * q) as real <= f < ((t + 1) * q) as real
    ensures f < 0.0 ==> t <= 0 && ((t - 1) * q) as real < f <= (t * q) as real
  {
    var r := f / q as real;
    if r >= 0.0 then
      NonNegativeTruncation(f, q);
      r.Floor
    else
      NegativeTruncation(f, q);
      -((-r).Floor)
  }

  /** TruncatedQuotient's bounds for a non-negative quotient. */
  lemma NonNegativeTruncation(f: real, q: int)
    requires q > 0 && f / q as real >= 0.0
    ensures var t := (f / q as real).Floor;
            0.0 <= f && 0 <= t && (t * q) as real <= f < ((t + 1) * q) as real
  {
    var r := f / q as real;
    assert f == r * (q as real);
    FloorScaled(r, q);
  }

  /** TruncatedQuotient's bounds for a negative quotient. */
  lemma NegativeTruncation(f: real, q: int)
    requires q > 0 && f / q as real < 0.0
    ensures var t := -((-(f / q as real)).Floor);
            f < 0.0 && t <= 0 && ((t - 1) * q) as real < f <= (t * q) as real
  {
    var r := -(f / q as real);
    assert -f == r * (q as real);
    FloorScaled(r, q);
  }

  lemma FloorScaled(r: real, q: int)
    requires r >= 0.0 && q > 0
    ensures r.Floor >= 0
    ensures (r.Floor * q) as real <= r * (q as real)
    ensures r * (q as real) < ((r.Floor + 1) * q) as real
  {
    var k := r.Floor;
    assert k as real <= r < k as real + 1.0;
    assert (k as real) * (q as real) <= r * (q as real);
    calc {
      r * (q as real);
    <
      (k as real + 1.0) * (q as real);
    ==
      (k + 1) as real * (q as real);
    ==
      ((k + 1) * q) as real;
    }
  }

  /** A block of truncated quotients, each narrowed to a byte as `(byte)` does. */
  function QuantizeBlock(quotients: seq<seq<int>>): (r: seq<seq<Byte>>)
    requires IsBlock(quotients)
    ensures IsBlock(r)
  {
    seq(8, y requires 0 <= y < 8 => seq(8, x requires 0 <= x < 8 => Narrow(quotients[y][x])))
  }

  /** A quantized block read back: each byte as signed, times its matrix entry. */
  function DeQuantizeBlock(bytes: seq<seq<Byte>>, quantizationMatrix: seq<seq<int>>): (r: seq<seq<int>>)
    requires IsBlock(bytes) && IsBlock(quantizationMatrix)
    ensures IsBlock(r)
  {
    seq(8, y requires 0 <= y < 8 =>
      seq(8, x requires 0 <= x < 8 => AsSignedByte(bytes[y][x]) * quantizationMatrix[y][x]))
  }

  /**
   * Quantize: narrows every quotient of the block into `output`. The
   * quotients are given already divided and truncated.
   */
  method Quantize(quotients: seq<seq<int>>, output: array2<Byte>)
    requires IsBlock(quotients)
    requires output.Length0 == 8 && output.Length1 == 8
    modifies output
    ensures BlockOf(output) == QuantizeBlock(quotients)
  {
    for y := 0 to output.Length0
      invariant forall y', x | 0 <= y' < y && 0 <= x < 8 :: output[y', x] == Narrow(quotients[y'][x])
    {
      for x := 0 to output.Length1
        invariant forall y', x' | 0 <= y' < y && 0 <= x' < 8 :: output[y', x'] == Narrow(quotients[y'][x'])
        invariant forall x' | 0 <= x' < x :: output[y, x'] == Narrow(quotients[y][x'])
      {
        output[y, x] := quotients[y][x] % 256;
      }
    }
    BlockExtensionality(BlockOf(output), QuantizeBlock(quotients));
  }

  /** DeQuantize: fills `output` with the signed reading of each byte times its entry. */
  method DeQuantize(quantizedBytes: array2<Byte>, quantizationMatrix: array2<int>, output: array2<int>)
    requires quantizedBytes.Length0 == 8 && quantizedBytes.Length1 == 8
    requires quantizationMatrix.Length0 == 8 && quantizationMatrix.Length1 == 8
    requires output.Length0 == 8 && output.Length1 == 8
    requires output != quantizationMatrix
    modifies output
    ensures BlockOf(output) == DeQuantizeBlock(BlockOf(quantizedBytes), BlockOf(quantizationMatrix))
  {
    for y := 0 to quantizedBytes.Length0
      invariant forall y', x | 0 <= y' < y && 0 <= x < 8 ::
                  output[y', x] == AsSignedByte(quantizedBytes[y', x]) * quantizationMatrix[y', x]
    {
      for x := 0 to quantizedBytes.Length1
        invariant forall y', x' | 0 <= y' < y && 0 <= x' < 8 ::
                    output[y', x'] == AsSignedByte(quantizedBytes[y', x']) * quantizationMatrix[y', x']
        invariant forall x' | 0 <= x' < x ::
                    output[y, x'] == AsSignedByte(quantizedBytes[y, x']) * quantizationMatrix[y, x']
      {
        var b := quantizedBytes[y, x];
        output[y, x] := (if b < 128 then b else b - 256) * quantizationMatrix[y, x];
      }
    }
    BlockExtensionality(BlockOf(output), DeQuantizeBlock(BlockOf(quantizedBytes), BlockOf(quantizationMatrix)));
  }

  /**
   * Dequantizing a quantized block gives back quotient times entry in
   * every cell whose quotient fits a signed byte; any other cell aliases.
   */
  lemma DeQuantizeQuantize(quotients: seq<seq<int>>, quantizationMatrix: seq<seq<int>>, y: int, x: int)
    requires IsBlock(quotients) && IsBlock(quantizationMatrix)
    requires 0 <= y < 8 && 0 <= x < 8
    ensures DeQuantizeBlock(QuantizeBlock(quotients), quantizationMatrix)[y][x]
            == quotients[y][x] * quantizationMatrix[y][x]
            <== -128 <= quotients[y][x] < 128
  {
    if -128 <= quotients[y][x] < 128 {
      NarrowLosslessIffSignedByte(quotients[y][x]);
    }
  }

  /** Every quotient of the block fits a signed byte. */
  predicate FitsSignedBytes(quotients: seq<seq<int>>)
  {
    IsBlock(quotients) && forall y, x | 0 <= y < 8 && 0 <= x < 8 :: -128 <= quotients[y][x] < 128
  }

  /** Quotient times matrix entry, cell by cell: the coefficients the quotients stand for. */
  function Rescaled(quotients: seq<seq<int>>, quantizationMatrix: seq<seq<int>>): (r: seq<seq<int>>)
    requires IsBlock(quotients) && IsBlock(quantizationMatrix)
    ensures IsBlock(r)
  {
    seq(8, y requires 0 <= y < 8 =>
      seq(8, x requires 0 <= x < 8 => quotients[y][x] * quantizationMatrix[y][x]))
  }

  /** When every quotient fits a signed byte, DeQuantize undoes Quantize's narrowing on the whole block. */
  lemma DeQuantizeQuantizeBlock(quotients: seq<seq<int>>, quantizationMatrix: seq<seq<int>>)
    requires FitsSignedBytes(quotients) && IsBlock(quantizationMatrix)
    ensures DeQuantizeBlock(QuantizeBlock(quotients), quantizationMatrix) == Rescaled(quotients, quantizationMatrix)
  {
    var restored := DeQuantizeBlock(QuantizeBlock(quotients), quantizationMatrix);
    forall y, x | 0 <= y < 8 && 0 <= x < 8
      ensures restored[y][x] == Rescaled(quotients, quantizationMatrix)[y][x]
    {
      DeQuantizeQuantize(quotients, quantizationMatrix, y, x);
    }
    BlockExtensionality(restored, Rescaled(quotients, quantizationMatrix));
  }

  /**
   * The quantization error: when the quotient fits a signed byte, the
   * dequantized coefficient lies between zero and the original coefficient,
   * less than one matrix step away from it.
   */
  lemma QuantizationErrorBound(f: real, q: int)
    requires q > 0
    requires -128 <= TruncatedQuotient(f, q) < 128
    ensures var d := (AsSignedByte(Narrow(TruncatedQuotient(f, q))) * q) as real;
            && (0.0 <= f ==> 0.0 <= d <= f < d + q as real)
            && (f < 0.0 ==> d - q as real < f <= d <= 0.0)
  {
    var t := TruncatedQuotient(f, q);
    NarrowLosslessIffSignedByte(t);
    assert ((t + 1) * q) as real == (t * q) as real + q as real;
    assert ((t - 1) * q) as real == (t * q) as real - q as real;
  }

  lemma DivisionAntitone(n: nat, d1: int, d2: int)
    requires 0 < d1 <= d2
    ensures n / d2 <= n / d1
  {
    var k, q := n / d2, n / d1;
    assert k * d1 <= k * d2 <= n by {
      MulMonotone(k, k, d1, d2);
    }
    assert n == q * d1 + n % d1;
    if q < k {
      MulMonotone(q + 1, k, d1, d1);
    }
  }
}
