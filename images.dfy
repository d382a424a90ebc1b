/**
 * Images/Matrix.cs and the parts of Images/Pixel.cs it relies on: the pixel
 * grid the codec reads from and writes to.
 */
module Images {
  import opened Blocks

  /** The two colour spaces a Pixel can be tagged with. */
  datatype PixelFormat = RGB | YCbCr

  /**
   * A pixel: three components and the space they are expressed in. The
   * colour-space conversions (the R/G/B and Y/Cb/Cr properties) are
   * floating-point formulas and are not modelled; the codec reaches them
   * only through selector functions passed in by its callers.
   */
  datatype Pixel = Pixel(c0: real, c1: real, c2: real, format: PixelFormat)

  /** A pixel holding red, green and blue components. */
  function FromRGB(r: real, g: real, b: real): Pixel
  {
    Pixel(r, g, b, RGB)
  }

  /** A pixel holding luma and chroma components. */
  function FromYCbCr(y: real, cb: real, cr: real): Pixel
  {
    Pixel(y, cb, cr, YCbCr)
  }

  /** The pixel a fresh Matrix is filled with. */
  const Black: Pixel := FromRGB(0.0, 0.0, 0.0)

  /** A bitmap pixel as System.Drawing reports it: 8-bit red, green, blue. */
  datatype Color = Color(R: Byte, G: Byte, B: Byte)

  /** The bitmap pixel `c` converted to a Matrix pixel. */
  function PixelOfColor(c: Color): Pixel
  {
    FromRGB(c.R as real, c.G as real, c.B as real)
  }

  /**
   * The dimension a bitmap side is cropped to: the largest multiple of 8
   * that does not exceed it.
   */
  function CroppedDimension(n: nat): (r: nat)
    ensures r % 8 == 0
    ensures r <= n < r + 8
  {
    n - n % 8
  }

  /** No multiple of 8 that fits in `n` is larger than CroppedDimension(n). */
  lemma CroppedDimensionIsLargest(n: nat, m: nat)
    requires m % 8 == 0 && m <= n
    ensures m <= CroppedDimension(n)
  {
  }

  /**
   * An image as a grid of pixels, `Pixels[row, column]`. The three fields
   * are read-only after construction; the cells of `Pixels` are updated in
   * place by the codec.
   */
  class Matrix {
    const Pixels: array2<Pixel>
    const Height: int
    const Width: int

    /** The grid has the declared dimensions. */
    predicate Valid()
    {
      Pixels.Length0 == Height && Pixels.Length1 == Width
    }

    /** A height x width matrix in which every pixel is black. */
    constructor (height: nat, width: nat)
      ensures Valid() && Height == height && Width == width
      ensures fresh(Pixels)
      ensures forall i, j | 0 <= i < height && 0 <= j < width :: Pixels[i, j] == Black
    {
      Height := height;
      Width := width;
      Pixels := new Pixel[height, width];
      new;
      for i := 0 to height
        invariant forall i', j | 0 <= i' < i && 0 <= j < width :: Pixels[i', j] == Black
      {
        for j := 0 to width
          invariant forall i', j' | 0 <= i' < i && 0 <= j' < width :: Pixels[i', j'] == Black
          invariant forall j' | 0 <= j' < j :: Pixels[i, j'] == Black
        {
          Pixels[i, j] := Black;
        }
      }
    }

    /**
     * The conversion from a bitmap. The bitmap is given as its pixel grid,
     * `bmp[row, column]`, so that `bmp.GetPixel(i, j)` is `bmp[j, i]`. Both
     * sides are cropped down to a multiple of 8 and the top-left part of
     * the bitmap is copied.
     */
    static method FromBitmap(bmp: array2<Color>) returns (matrix: Matrix)
      ensures matrix.Valid() && fresh(matrix) && fresh(matrix.Pixels)
      ensures matrix.Height == CroppedDimension(bmp.Length0)
      ensures matrix.Width == CroppedDimension(bmp.Length1)
      ensures forall j, i | 0 <= j < matrix.Height && 0 <= i < matrix.Width ::
                matrix.Pixels[j, i] == PixelOfColor(bmp[j, i])
    {
      var height := bmp.Length0 - bmp.Length0 % 8;
      var width := bmp.Length1 - bmp.Length1 % 8;
      matrix := new Matrix(height, width);
      for j := 0 to height
        invariant forall j', i | 0 <= j' < j && 0 <= i < width ::
                    matrix.Pixels[j', i] == PixelOfColor(bmp[j', i])
      {
        for i := 0 to width
          invariant forall j', i' | 0 <= j' < j && 0 <= i' < width ::
                      matrix.Pixels[j', i'] == PixelOfColor(bmp[j', i'])
          invariant forall i' | 0 <= i' < i :: matrix.Pixels[j, i'] == PixelOfColor(bmp[j, i'])
        {
          var pixel := bmp[j, i];
          matrix.Pixels[j, i] := FromRGB(pixel.R as real, pixel.G as real, pixel.B as real);
        }
      }
    }
  }
}
