/** The background colour (`choose_background`, src/main.rs): the mean colour of
    every pixel that lies in a final disk's square but outside its circle. */
module Background {
  import opened Raster
  import opened Sums
  import opened Geometry
  import opened Sampler

  function AddTally(a: Tally, b: Tally): Tally
  {
    Tally(a.count + b.count, a.r + b.r, a.g + b.g, a.b + b.b)
  }

  /** `f` summed over `ds`, accumulated from the first disk to the last. */
  function SumTally(f: Disk -> Tally, ds: seq<Disk>): Tally
  {
    if |ds| == 0 then Tally(0, 0, 0, 0)
    else AddTally(SumTally(f, ds[..|ds| - 1]), f(ds[|ds| - 1]))
  }

  function OutsideTallyOf(img: Image): Disk -> Tally
  {
    d => OutsideTally(img, d)
  }

  /** The pixel count and channel sums of `backgrounds_sums` accumulated over `ds`. */
  function TotalTally(img: Image, ds: seq<Disk>): Tally
  {
    SumTally(OutsideTallyOf(img), ds)
  }

  /** Every accumulated channel sum is at most 255 times the accumulated count. */
  lemma {:induction false} TotalTallyBounds(img: Image, ds: seq<Disk>)
    ensures 0 <= TotalTally(img, ds).count
    ensures forall k :: 0 <= TallySum(TotalTally(img, ds), k) <= 255 * TotalTally(img, ds).count
  {
    if |ds| > 0 {
      var init, last := ds[..|ds| - 1], ds[|ds| - 1];
      TotalTallyBounds(img, init);
      OutsideTallyBounds(img, last);
      var a, b := TotalTally(img, init), OutsideTally(img, last);
      var t := AddTally(a, b);
      assert TotalTally(img, ds) == t;
      forall k
        ensures 0 <= TallySum(t, k) <= 255 * t.count
      {
        assert TallySum(t, k) == TallySum(a, k) + TallySum(b, k);
        assert 255 * t.count == 255 * a.count + 255 * b.count;
      }
    }
  }

  /** The sum is the tally of any one disk added to the sum over the others. */
  lemma {:induction false} SumTallyRemove(f: Disk -> Tally, ds: seq<Disk>, j: int)
    requires 0 <= j < |ds|
    ensures SumTally(f, ds) == AddTally(SumTally(f, ds[..j] + ds[j + 1..]), f(ds[j]))
  {
    var n := |ds|;
    var init := ds[..n - 1];
    if j == n - 1 {
      assert ds[..j] + ds[j + 1..] == init;
    } else {
      SumTallyRemove(f, init, j);
      var rest := ds[..j] + ds[j + 1..];
      assert rest[..|rest| - 1] == init[..j] + init[j + 1..];
      assert rest[|rest| - 1] == ds[n - 1];
      assert init[j] == ds[j];
      var a, b, c := SumTally(f, init[..j] + init[j + 1..]), f(ds[j]), f(ds[n - 1]);
      assert SumTally(f, rest) == AddTally(a, c);
      assert SumTally(f, ds) == AddTally(AddTally(a, b), c);
      AddTallyRotate(a, b, c);
    }
  }

  lemma AddTallyRotate(a: Tally, b: Tally, c: Tally)
    ensures AddTally(AddTally(a, b), c) == AddTally(AddTally(a, c), b)
  {
  }

  /** The sum does not depend on the order of the disks. */
  lemma {:induction false} SumTallyPermutation(f: Disk -> Tally, a: seq<Disk>, b: seq<Disk>)
    requires multiset(a) == multiset(b)
    ensures SumTally(f, a) == SumTally(f, b)
    decreases |a|
  {
    if |a| > 0 {
      var x := a[|a| - 1];
      assert x in multiset(b) by { assert x in multiset(a); }
      var j :| 0 <= j < |b| && b[j] == x;
      var rest := b[..j] + b[j + 1..];
      assert b == b[..j] + [x] + b[j + 1..];
      assert multiset(b) == multiset(rest) + multiset{x};
      assert a == a[..|a| - 1] + [x];
      assert multiset(a) == multiset(a[..|a| - 1]) + multiset{x};
      assert multiset(a[..|a| - 1]) == multiset(a) - multiset{x};
      assert multiset(rest) == multiset(b) - multiset{x};
      SumTallyPermutation(f, a[..|a| - 1], rest);
      SumTallyRemove(f, b, j);
    } else {
      assert |b| == |multiset(b)|;
    }
  }

  /** The accumulated count and sums do not depend on the order of the disks. */
  lemma TotalTallyPermutation(img: Image, a: seq<Disk>, b: seq<Disk>)
    requires multiset(a) == multiset(b)
    ensures TotalTally(img, a) == TotalTally(img, b)
  {
    SumTallyPermutation(OutsideTallyOf(img), a, b);
  }

  /** No pixel falls outside the circles exactly when every disk is narrower than two
      pixels, the case where the background stays black. */
  lemma {:induction false} TotalCountZeroIff(img: Image, ds: seq<Disk>)
    ensures TotalTally(img, ds).count == 0 <==> AllNarrow(ds)
  {
    if |ds| > 0 {
      var init, last := ds[..|ds| - 1], ds[|ds| - 1];
      TotalCountZeroIff(img, init);
      TotalTallyBounds(img, init);
      OutsideTallyBounds(img, last);
      OutsideCountPositiveIff(img, last);
      AllNarrowLast(ds);
    }
  }

  /** Every disk is narrower than two pixels. */
  predicate AllNarrow(ds: seq<Disk>)
  {
    forall i :: 0 <= i < |ds| ==> ds[i].width < 2
  }

  lemma AllNarrowLast(ds: seq<Disk>)
    requires 0 < |ds|
    ensures AllNarrow(ds) <==> AllNarrow(ds[..|ds| - 1]) && ds[|ds| - 1].width < 2
  {
    assert forall i :: 0 <= i < |ds| - 1 ==> ds[..|ds| - 1][i] == ds[i];
  }

  /** Each channel of `bg` is the floor of the channel sum over the count. */
  predicate FloorMean(bg: Rgb, t: Tally)
  {
    forall k :: Component(bg, k) * t.count <= TallySum(t, k) < (Component(bg, k) + 1) * t.count
  }

  lemma FloorQuotient(s: int, n: int)
    requires 0 < n
    ensures (s / n) * n <= s < (s / n + 1) * n
  {
    assert (s / n + 1) * n == (s / n) * n + n;
  }

  lemma FloorMeanOf(t: Tally, bg: Rgb)
    requires 0 < t.count
    requires bg.r == t.r / t.count && bg.g == t.g / t.count && bg.b == t.b / t.count
    ensures FloorMean(bg, t)
  {
    FloorQuotient(t.r, t.count);
    FloorQuotient(t.g, t.count);
    FloorQuotient(t.b, t.count);
  }

  /** The background as a value: the truncating mean colour of every pixel outside the
      circles, or black when there is none. */
  function MeanBackground(img: Image, ds: seq<Disk>): (bg: Rgb)
    ensures TotalTally(img, ds).count == 0 ==> bg == Black
    ensures 0 < TotalTally(img, ds).count ==> FloorMean(bg, TotalTally(img, ds))
  {
    var t := TotalTally(img, ds);
    TotalTallyBounds(img, ds);
    assert 0 <= t.r <= 255 * t.count by { assert TallySum(t, Red) == t.r; }
    assert 0 <= t.g <= 255 * t.count by { assert TallySum(t, Green) == t.g; }
    assert 0 <= t.b <= 255 * t.count by { assert TallySum(t, Blue) == t.b; }
    if t.count == 0 then Black
    else
      DivBounds(t.r, t.count, 0, 255);
      DivBounds(t.g, t.count, 0, 255);
      DivBounds(t.b, t.count, 0, 255);
      var bg := Rgb(t.r / t.count, t.g / t.count, t.b / t.count);
      FloorMeanOf(t, bg);
      bg
  }

  /** The background does not depend on the order of the disks. */
  lemma BackgroundOrderFree(img: Image, a: seq<Disk>, b: seq<Disk>)
    requires multiset(a) == multiset(b)
    ensures MeanBackground(img, a) == MeanBackground(img, b)
  {
    TotalTallyPermutation(img, a, b);
  }

  /** Sums the outside-circle pixels of every disk, divides each channel by the count
      when it is positive, and narrows the results to bytes. */
  method ChooseBackground(img: Image, ds: seq<Disk>) returns (bg: Rgb)
    requires forall i :: 0 <= i < |ds| ==> Within(ds[i], img.size)
    ensures TotalTally(img, ds).count == 0 ==> bg == Black
    ensures 0 < TotalTally(img, ds).count ==> FloorMean(bg, TotalTally(img, ds))
    ensures bg == MeanBackground(img, ds)
  {
    var count, sr, sg, sb := 0, 0, 0, 0;
    var i := 0;
    while i < |ds|
      invariant 0 <= i <= |ds|
      invariant Tally(count, sr, sg, sb) == TotalTally(img, ds[..i])
    {
      var t := BackgroundSums(img, ds[i]);
      count, sr, sg, sb := count + t.count, sr + t.r, sg + t.g, sb + t.b;
      assert ds[..i + 1][..i] == ds[..i];
      i := i + 1;
    }
    assert ds[..i] == ds;
    var total := Tally(count, sr, sg, sb);
    TotalTallyBounds(img, ds);
    assert 0 <= sr <= 255 * count by { assert TallySum(total, Red) == sr; }
    assert 0 <= sg <= 255 * count by { assert TallySum(total, Green) == sg; }
    assert 0 <= sb <= 255 * count by { assert TallySum(total, Blue) == sb; }
    if count > 0 {
      DivBounds(sr, count, 0, 255);
      DivBounds(sg, count, 0, 255);
      DivBounds(sb, count, 0, 255);
      sr, sg, sb := sr / count, sg / count, sb / count;
    }
    bg := Rgb(AsU8(sr), AsU8(sg), AsU8(sb));
    if count > 0 {
      FloorMeanOf(total, bg);
    }
  }
}
