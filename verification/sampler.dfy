/** Region sampling over a disk's bounding square (src/disk.rs): the truncating
    mean colour, the mean squared channel error, and the tally of the pixels
    that fall outside the inscribed circle.

    Each operation is given twice: a closed-form definition built from
    `Sums.RectSum` over a per-pixel statistic, and a method that scans the
    square with the source's nested loops and is proved equal to it. */
module Sampler {
  import opened Raster
  import opened Sums
  import opened Geometry

  /** Per-pixel statistics. */

  function ChannelOf(img: Image, k: Channel): (int, int) -> int
  {
    (x, y) => Component(img.pixel(x, y), k)
  }

  /** Squared difference summed over the three channels. */
  function SquaredError(p: Rgb, c: Rgb): nat
  {
    SquareAbsDiff(p.r, c.r) + SquareAbsDiff(p.g, c.g) + SquareAbsDiff(p.b, c.b)
  }

  function ErrorOf(img: Image, c: Rgb): (int, int) -> int
  {
    (x, y) => SquaredError(img.pixel(x, y), c)
  }

  function OutsideMark(d: Disk): (int, int) -> int
  {
    (x, y) => if Inside(d, x, y) then 0 else 1
  }

  function OutsideChannelOf(img: Image, d: Disk, k: Channel): (int, int) -> int
  {
    (x, y) => if Inside(d, x, y) then 0 else Component(img.pixel(x, y), k)
  }

  /** The sum of a statistic over the bounding square of `d`. */
  function SquareSum(f: (int, int) -> int, d: Disk): int
  {
    RectSum(f, d.left, d.left + d.width, d.top, d.top + d.width)
  }

  function Area(d: Disk): nat
  {
    d.width * d.width
  }

  lemma SquaredErrorZero(p: Rgb, c: Rgb)
    ensures SquaredError(p, c) == 0 <==> p == c
  {
    SquareAbsDiffSymmetric(p.r, c.r);
    SquareAbsDiffSymmetric(p.g, c.g);
    SquareAbsDiffSymmetric(p.b, c.b);
  }

  lemma ChannelSumBounds(img: Image, d: Disk, k: Channel)
    ensures 0 <= SquareSum(ChannelOf(img, k), d) <= 255 * Area(d)
  {
    var f := ChannelOf(img, k);
    forall x, y ensures 0 <= f(x, y) <= 255 {
      var v: Byte := Component(img.pixel(x, y), k);
    }
    RectSumBounds(f, d.left, d.left + d.width, d.top, d.top + d.width, 0, 255);
  }

  /** The closed forms. */

  /** Truncating mean of one channel over all `width * width` square pixels. */
  function ChannelMean(img: Image, d: Disk, k: Channel): Byte
    requires 0 < d.width
  {
    ChannelSumBounds(img, d, k);
    DivBounds(SquareSum(ChannelOf(img, k), d), Area(d), 0, 255);
    SquareSum(ChannelOf(img, k), d) / Area(d)
  }

  function MeanColor(img: Image, d: Disk): Rgb
    requires 0 < d.width
  {
    Rgb(ChannelMean(img, d, Red), ChannelMean(img, d, Green), ChannelMean(img, d, Blue))
  }

  /** Summed squared channel error over the square divided by `3 * width * width`. */
  function CostOf(img: Image, d: Disk): real
    requires 0 < d.width
  {
    (SquareSum(ErrorOf(img, d.color), d) as real) / ((3 * Area(d)) as real)
  }

  /** What `backgrounds_sums` returns: a pixel count and three channel sums. */
  datatype Tally = Tally(count: int, r: int, g: int, b: int)

  function TallySum(t: Tally, k: Channel): int
  {
    match k
    case Red => t.r
    case Green => t.g
    case Blue => t.b
  }

  function OutsideTally(img: Image, d: Disk): Tally
  {
    Tally(SquareSum(OutsideMark(d), d),
          SquareSum(OutsideChannelOf(img, d, Red), d),
          SquareSum(OutsideChannelOf(img, d, Green), d),
          SquareSum(OutsideChannelOf(img, d, Blue), d))
  }

  /** Properties of the closed forms. */

  /** Each channel of the mean is the floor of the channel sum over the area. */
  lemma MeanColorIsFloor(img: Image, d: Disk, k: Channel)
    requires 0 < d.width
    ensures Component(MeanColor(img, d), k) * Area(d) <= SquareSum(ChannelOf(img, k), d)
    ensures SquareSum(ChannelOf(img, k), d) < (Component(MeanColor(img, d), k) + 1) * Area(d)
  {
    var s, n := SquareSum(ChannelOf(img, k), d), Area(d);
    assert Component(MeanColor(img, d), k) == s / n;
  }

  /** Each channel of the mean lies between that channel's bounds over the square. */
  lemma MeanColorBetween(img: Image, d: Disk, k: Channel, lo: int, hi: int)
    requires 0 < d.width
    requires forall x, y :: InSquare(d, x, y) ==> lo <= Component(img.pixel(x, y), k) <= hi
    ensures lo <= Component(MeanColor(img, d), k) <= hi
  {
    var f := ChannelOf(img, k);
    forall x, y | d.left <= x < d.left + d.width && d.top <= y < d.top + d.width
      ensures lo <= f(x, y) <= hi
    {
      assert InSquare(d, x, y);
    }
    RectSumBounds(f, d.left, d.left + d.width, d.top, d.top + d.width, lo, hi);
    DivBounds(SquareSum(f, d), Area(d), lo, hi);
  }

  /** A square of one colour has that colour as its mean. */
  lemma MeanColorUniform(img: Image, d: Disk, c: Rgb)
    requires 0 < d.width
    requires forall x, y :: InSquare(d, x, y) ==> img.pixel(x, y) == c
    ensures MeanColor(img, d) == c
  {
    MeanColorBetween(img, d, Red, c.r, c.r);
    MeanColorBetween(img, d, Green, c.g, c.g);
    MeanColorBetween(img, d, Blue, c.b, c.b);
  }

  /** The cost is non-negative, and zero exactly when every square pixel has the disk's colour. */
  lemma CostZeroIff(img: Image, d: Disk)
    requires 0 < d.width
    ensures 0.0 <= CostOf(img, d)
    ensures CostOf(img, d) == 0.0 <==> forall x, y :: InSquare(d, x, y) ==> img.pixel(x, y) == d.color
  {
    var s := SquareSum(ErrorOf(img, d.color), d);
    ErrorSumZeroIff(img, d);
    MulMono(1, d.width, d.width);
    QuotientZeroIff(s, 3 * Area(d));
  }

  /** The summed squared error is non-negative, and zero exactly when every square pixel
      has the disk's colour. */
  lemma ErrorSumZeroIff(img: Image, d: Disk)
    ensures 0 <= SquareSum(ErrorOf(img, d.color), d)
    ensures SquareSum(ErrorOf(img, d.color), d) == 0 <==> forall x, y :: InSquare(d, x, y) ==> img.pixel(x, y) == d.color
  {
    var f := ErrorOf(img, d.color);
    forall x, y ensures 0 <= f(x, y) {
      var v: nat := SquaredError(img.pixel(x, y), d.color);
    }
    RectSumZero(f, d.left, d.left + d.width, d.top, d.top + d.width);
    forall x, y | InSquare(d, x, y)
      ensures f(x, y) == 0 <==> img.pixel(x, y) == d.color
    {
      SquaredErrorZero(img.pixel(x, y), d.color);
    }
  }

  lemma QuotientZeroIff(s: int, n: int)
    requires 0 <= s && 0 < n
    ensures 0.0 <= (s as real) / (n as real)
    ensures (s as real) / (n as real) == 0.0 <==> s == 0
  {
  }

  /** The scanning methods. */

  method ChooseColor(img: Image, d: Disk) returns (c: Rgb)
    requires 0 < d.width && Within(d, img.size)
    ensures c == MeanColor(img, d)
    ensures forall k :: Component(c, k) * Area(d) <= SquareSum(ChannelOf(img, k), d) < (Component(c, k) + 1) * Area(d)
  {
    var sr, sg, sb := 0, 0, 0;
    var x := d.left;
    while x < d.left + d.width
      invariant d.left <= x <= d.left + d.width
      invariant sr == RectSum(ChannelOf(img, Red), d.left, x, d.top, d.top + d.width)
      invariant sg == RectSum(ChannelOf(img, Green), d.left, x, d.top, d.top + d.width)
      invariant sb == RectSum(ChannelOf(img, Blue), d.left, x, d.top, d.top + d.width)
    {
      var y := d.top;
      while y < d.top + d.width
        invariant d.top <= y <= d.top + d.width
        invariant sr == RectSum(ChannelOf(img, Red), d.left, x, d.top, d.top + d.width) + ColumnSum(ChannelOf(img, Red), x, d.top, y)
        invariant sg == RectSum(ChannelOf(img, Green), d.left, x, d.top, d.top + d.width) + ColumnSum(ChannelOf(img, Green), x, d.top, y)
        invariant sb == RectSum(ChannelOf(img, Blue), d.left, x, d.top, d.top + d.width) + ColumnSum(ChannelOf(img, Blue), x, d.top, y)
      {
        var p := img.pixel(x, y);
        sr, sg, sb := sr + p.r, sg + p.g, sb + p.b;
        y := y + 1;
      }
      x := x + 1;
    }
    var area := d.width * d.width;
    // every channel quotient is at most 255, so narrowing it to a byte loses nothing
    ChannelSumBounds(img, d, Red);
    ChannelSumBounds(img, d, Green);
    ChannelSumBounds(img, d, Blue);
    DivBounds(sr, area, 0, 255);
    DivBounds(sg, area, 0, 255);
    DivBounds(sb, area, 0, 255);
    c := Rgb(AsU8(sr / area), AsU8(sg / area), AsU8(sb / area));
    MeanColorIsFloor(img, d, Red);
    MeanColorIsFloor(img, d, Green);
    MeanColorIsFloor(img, d, Blue);
  }

  method Cost(img: Image, d: Disk) returns (cost: real)
    requires 0 < d.width && Within(d, img.size)
    ensures cost == CostOf(img, d)
    ensures 0.0 <= cost
    ensures cost == 0.0 <==> forall x, y :: InSquare(d, x, y) ==> img.pixel(x, y) == d.color
  {
    var sum := 0;
    var x := d.left;
    while x < d.left + d.width
      invariant d.left <= x <= d.left + d.width
      invariant sum == RectSum(ErrorOf(img, d.color), d.left, x, d.top, d.top + d.width)
    {
      var y := d.top;
      while y < d.top + d.width
        invariant d.top <= y <= d.top + d.width
        invariant sum == RectSum(ErrorOf(img, d.color), d.left, x, d.top, d.top + d.width) + ColumnSum(ErrorOf(img, d.color), x, d.top, y)
      {
        var p := img.pixel(x, y);
        sum := sum + SquareAbsDiff(p.r, d.color.r) + SquareAbsDiff(p.g, d.color.g) + SquareAbsDiff(p.b, d.color.b);
        y := y + 1;
      }
      x := x + 1;
    }
    cost := (sum as real) / ((d.width * d.width * 3) as real);
    CostZeroIff(img, d);
  }

  method BackgroundSums(img: Image, d: Disk) returns (t: Tally)
    requires Within(d, img.size)
    ensures t == OutsideTally(img, d)
    ensures 0 <= t.count <= Area(d)
    ensures forall k :: 0 <= TallySum(t, k) <= 255 * t.count
  {
    t := Tally(0, 0, 0, 0);
    var x := d.left;
    while x < d.left + d.width
      invariant d.left <= x <= d.left + d.width
      invariant t == RectTally(img, d, x)
    {
      var c := ColumnTally(img, d, x);
      t := Tally(t.count + c.count, t.r + c.r, t.g + c.g, t.b + c.b);
      x := x + 1;
    }
    OutsideTallyBounds(img, d);
  }

  /** The outside-circle tally of the columns of the square left of `x`. */
  function RectTally(img: Image, d: Disk, x: int): Tally
  {
    Tally(RectSum(OutsideMark(d), d.left, x, d.top, d.top + d.width),
          RectSum(OutsideChannelOf(img, d, Red), d.left, x, d.top, d.top + d.width),
          RectSum(OutsideChannelOf(img, d, Green), d.left, x, d.top, d.top + d.width),
          RectSum(OutsideChannelOf(img, d, Blue), d.left, x, d.top, d.top + d.width))
  }

  /** The outside-circle tally of column `x` of the square below row `y`. */
  function PartialColumnTally(img: Image, d: Disk, x: int, y: int): Tally
  {
    Tally(ColumnSum(OutsideMark(d), x, d.top, y),
          ColumnSum(OutsideChannelOf(img, d, Red), x, d.top, y),
          ColumnSum(OutsideChannelOf(img, d, Green), x, d.top, y),
          ColumnSum(OutsideChannelOf(img, d, Blue), x, d.top, y))
  }

  /** The inner loop of `backgrounds_sums`: one column of the square. */
  method ColumnTally(img: Image, d: Disk, x: int) returns (t: Tally)
    requires d.left <= x < d.left + d.width && Within(d, img.size)
    ensures t == PartialColumnTally(img, d, x, d.top + d.width)
  {
    t := Tally(0, 0, 0, 0);
    var y := d.top;
    while y < d.top + d.width
      invariant d.top <= y <= d.top + d.width
      invariant t == PartialColumnTally(img, d, x, y)
    {
      var p := img.pixel(x, y);
      if !Inside(d, x, y) {
        t := Tally(t.count + 1, t.r + p.r, t.g + p.g, t.b + p.b);
      }
      y := y + 1;
    }
  }

  lemma OutsideCountBounds(d: Disk)
    ensures 0 <= SquareSum(OutsideMark(d), d) <= Area(d)
  {
    var f := OutsideMark(d);
    forall x, y ensures 0 <= f(x, y) <= 1 {
    }
    RectSumBounds(f, d.left, d.left + d.width, d.top, d.top + d.width, 0, 1);
  }

  lemma OutsideChannelBounds(img: Image, d: Disk, k: Channel)
    ensures 0 <= SquareSum(OutsideChannelOf(img, d, k), d) <= 255 * SquareSum(OutsideMark(d), d)
  {
    var f, g := OutsideChannelOf(img, d, k), OutsideMark(d);
    forall x, y ensures 0 <= f(x, y) && f(x, y) <= 255 * g(x, y) {
      var v: Byte := Component(img.pixel(x, y), k);
    }
    RectSumZero(f, d.left, d.left + d.width, d.top, d.top + d.width);
    RectSumScaled(f, g, 255, d.left, d.left + d.width, d.top, d.top + d.width);
  }

  /** The outside count is at most the area, and each outside channel sum is at
      most 255 per counted pixel. */
  lemma OutsideTallyBounds(img: Image, d: Disk)
    ensures 0 <= OutsideTally(img, d).count <= Area(d)
    ensures forall k :: 0 <= TallySum(OutsideTally(img, d), k) <= 255 * OutsideTally(img, d).count
  {
    OutsideCountBounds(d);
    OutsideChannelBounds(img, d, Red);
    OutsideChannelBounds(img, d, Green);
    OutsideChannelBounds(img, d, Blue);
  }

  /** Only squares at least two pixels wide have pixels outside their circle: a
      width-1 square is its own centre. */
  lemma OutsideCountPositiveIff(img: Image, d: Disk)
    ensures 0 < OutsideTally(img, d).count <==> 2 <= d.width
  {
    var f := OutsideMark(d);
    var x0, x1, y0, y1 := d.left, d.left + d.width, d.top, d.top + d.width;
    RectSumZero(f, x0, x1, y0, y1);
    if d.width == 1 {
      assert Inside(d, d.left, d.top);
      assert f(d.left, d.top) == 0;
    } else if 2 <= d.width {
      var h := d.width / 2;
      assert SquareAbsDiff(d.left, d.left + h) == h * h;
      assert SquareAbsDiff(d.top, d.top + h) == h * h;
      assert !Inside(d, d.left, d.top);
      assert f(d.left, d.top) == 1;
    }
  }
}
