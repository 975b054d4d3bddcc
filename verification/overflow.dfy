/** The channel accumulators of `choose_color` (src/disk.rs) are 32 bits wide,
    unlike the 64-bit ones of `cost` and `backgrounds_sums`. With wrapping
    arithmetic a channel sum of `255 * W * W` no longer fits once `W` exceeds 4104,
    and the mean comes out wrong. The rest of the model uses the unbounded sum of
    `Sampler.ChannelMean`. */
module Overflow {
  import opened Raster
  import opened Sums
  import opened Geometry
  import opened Sampler

  const U32Modulus: nat := 0x1_0000_0000

  /** One channel of `choose_color` as written: the sum kept modulo 2^32, then divided
      by the area and narrowed to a byte. Below width 65536 the area itself fits in
      32 bits. */
  function ChannelMeanU32(img: Image, d: Disk, k: Channel): (m: Byte)
    requires 0 < d.width < 65536
    ensures SquareSum(ChannelOf(img, k), d) < U32Modulus ==> m == ChannelMean(img, d, k)
  {
    var area := Area(d);
    AreaPositive(d);
    var wrapped := SquareSum(ChannelOf(img, k), d) % U32Modulus;
    DivNonneg(wrapped, area);
    WrappedMeanAgrees(img, d, k);
    AsU8(wrapped / area)
  }

  lemma AreaPositive(d: Disk)
    requires 0 < d.width
    ensures 0 < Area(d)
  {
    MulMono(1, d.width, d.width);
  }

  /** A channel sum that fits in 32 bits is unchanged by the wrap, so its mean is the
      true one. */
  lemma WrappedMeanAgrees(img: Image, d: Disk, k: Channel)
    requires 0 < d.width
    ensures 0 < Area(d)
    ensures SquareSum(ChannelOf(img, k), d) < U32Modulus ==>
      AsU8(SquareSum(ChannelOf(img, k), d) % U32Modulus / Area(d)) == ChannelMean(img, d, k)
  {
    var s := SquareSum(ChannelOf(img, k), d);
    AreaPositive(d);
    ChannelSumBounds(img, d, k);
    DivBounds(s, Area(d), 0, 255);
    if s < U32Modulus {
      assert s % U32Modulus == s;
    }
  }

  lemma DivNonneg(a: int, n: int)
    requires 0 <= a && 0 < n
    ensures 0 <= a / n
  {
  }

  /** Up to width 4104 no channel sum can wrap, so the 32-bit mean is the true one. */
  lemma U32MeanExactUpTo4104(img: Image, d: Disk, k: Channel)
    requires 0 < d.width <= 4104
    ensures ChannelMeanU32(img, d, k) == ChannelMean(img, d, k)
  {
    ByteSumFits(d.width);
    ChannelSumBounds(img, d, k);
  }

  lemma ByteSumFits(w: nat)
    requires w <= 4104
    ensures 255 * (w * w) < U32Modulus
  {
    MulMono(w, 4104, w);
    MulMono(w, 4104, 4104);
    MulMono(w * w, 16842816, 255);
  }

  /** On a uniformly white square of width 4105 the true mean is white, but the 32-bit
      red channel wraps to 0. */
  lemma WhiteSquareWraps(img: Image, d: Disk)
    requires d.width == 4105
    requires forall x, y :: InSquare(d, x, y) ==> img.pixel(x, y) == Rgb(255, 255, 255)
    ensures MeanColor(img, d) == Rgb(255, 255, 255)
    ensures ChannelMeanU32(img, d, Red) == 0
  {
    MeanColorUniform(img, d, Rgb(255, 255, 255));
    var f := ChannelOf(img, Red);
    forall x, y | d.left <= x < d.left + d.width && d.top <= y < d.top + d.width
      ensures 255 <= f(x, y) <= 255
    {
      assert InSquare(d, x, y);
    }
    RectSumBounds(f, d.left, d.left + d.width, d.top, d.top + d.width, 255, 255);
    var s := SquareSum(f, d);
    assert s == 4297011375;
    assert Area(d) == 16851025;
    assert s % U32Modulus == 2044079;
  }
}
