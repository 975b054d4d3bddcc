/** Pixels, source rasters and output canvases.

    The source raster is read through `get_pixel(x, y)` only, so it is modelled
    as a total function of the coordinates together with its side length; a
    coordinate outside `[0, size)` is never meaningful, and every operation that
    samples the raster asks for its footprint to lie inside it. */
module Raster {

  /** An 8-bit channel sample. */
  type Byte = x: int | 0 <= x < 256

  datatype Rgb = Rgb(r: Byte, g: Byte, b: Byte)

  /** Rust's `as u8` on an unsigned integer: only the low eight bits survive. */
  function AsU8(v: nat): (b: Byte)
    ensures v < 256 ==> b == v
  {
    v % 256
  }

  datatype Channel = Red | Green | Blue

  /** Channel `k` of a colour, as `pixel[i]` in the source. */
  function Component(c: Rgb, k: Channel): Byte
  {
    match k
    case Red => c.r
    case Green => c.g
    case Blue => c.b
  }

  /** The all-zero colour used as the fallback background. */
  const Black: Rgb := Rgb(0, 0, 0)

  /** A square source raster of side `size`; `pixel(x, y)` is column `x`, row `y`. */
  datatype Image = Image(size: nat, pixel: (int, int) -> Rgb)

  /** An output raster, stored row by row: `c[y][x]`. */
  type Canvas = seq<seq<Rgb>>

  predicate IsCanvas(c: Canvas, n: nat)
  {
    |c| == n && forall y :: 0 <= y < n ==> |c[y]| == n
  }

  /** A fresh `n` by `n` canvas filled with one colour, as `ImageBuffer::from_pixel`. */
  function Fill(n: nat, color: Rgb): (c: Canvas)
    ensures IsCanvas(c, n)
    ensures forall x, y :: 0 <= x < n && 0 <= y < n ==> c[y][x] == color
  {
    seq(n, _ => seq(n, _ => color))
  }
}
