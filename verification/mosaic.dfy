/** The whole program after argument parsing (src/main.rs): subdivide, choose the
    background, then paint every final disk over it. */
module Mosaic {
  import opened Raster
  import opened Geometry
  import opened Worklist
  import opened Engine
  import opened SortedLoop
  import opened Background
  import opened Paint

  /** The saved picture, or the integer division by zero the run panics with. */
  datatype Picture = Rendered(canvas: Canvas) | DivisionPanic

  function DisksOf(items: seq<Item>): (ds: seq<Disk>)
    ensures |ds| == |items|
    ensures forall i :: 0 <= i < |items| ==> ds[i] == items[i].disk
  {
    seq(|items|, i requires 0 <= i < |items| => items[i].disk)
  }

  lemma DisksOfAppend(p: seq<Item>, q: seq<Item>)
    ensures DisksOf(p + q) == DisksOf(p) + DisksOf(q)
  {
    assert forall i :: 0 <= i < |p + q| ==> DisksOf(p + q)[i] == (DisksOf(p) + DisksOf(q))[i];
  }

  /** Worklists with the same entries hold the same disks. */
  lemma {:induction false} DisksOfPermutation(a: seq<Item>, b: seq<Item>)
    requires multiset(a) == multiset(b)
    ensures multiset(DisksOf(a)) == multiset(DisksOf(b))
    decreases |a|
  {
    if |a| > 0 {
      var i := |a| - 1;
      var j := IndexOf(b, a[i]);
      var ra, rb := a[..i] + a[i + 1..], b[..j] + b[j + 1..];
      ItemsRemove(a, i);
      ItemsRemove(b, j);
      DisksOfPermutation(ra, rb);
      DisksRemove(a, i);
      DisksRemove(b, j);
    } else {
      assert |b| == |multiset(b)|;
    }
  }

  lemma IndexOf(b: seq<Item>, x: Item) returns (j: int)
    requires x in multiset(b)
    ensures 0 <= j < |b| && b[j] == x
  {
    assert x in b;
    j :| 0 <= j < |b| && b[j] == x;
  }

  lemma ItemsRemove(s: seq<Item>, j: int)
    requires 0 <= j < |s|
    ensures multiset(s[..j] + s[j + 1..]) == multiset(s) - multiset{s[j]}
  {
    assert s == s[..j] + [s[j]] + s[j + 1..];
  }

  lemma DisksRemove(s: seq<Item>, j: int)
    requires 0 <= j < |s|
    ensures multiset(DisksOf(s)) == multiset(DisksOf(s[..j] + s[j + 1..])) + multiset{s[j].disk}
  {
    DisksOfAppend(s[..j] + [s[j]], s[j + 1..]);
    DisksOfAppend(s[..j], [s[j]]);
    DisksOfAppend(s[..j], s[j + 1..]);
    assert s == s[..j] + [s[j]] + s[j + 1..];
  }

  /** The loop as written and the insertion-order loop give the same picture: the same
      final disks, hence the same background. */
  lemma SameMosaic(img: Image, cfg: Config)
    ensures Subdivide(img, cfg).Finished? <==> SortedSubdivide(img, cfg).Finished?
    ensures Subdivide(img, cfg).Finished? && SortedSubdivide(img, cfg).Finished? ==>
      multiset(DisksOf(SortedSubdivide(img, cfg).items)) == multiset(DisksOf(Subdivide(img, cfg).items)) &&
      MeanBackground(img, DisksOf(SortedSubdivide(img, cfg).items)) == MeanBackground(img, DisksOf(Subdivide(img, cfg).items))
  {
    SubdivideAgrees(img, cfg);
    if Subdivide(img, cfg).Finished? {
      var a, b := SortedSubdivide(img, cfg).items, Subdivide(img, cfg).items;
      DisksOfPermutation(a, b);
      BackgroundOrderFree(img, DisksOf(a), DisksOf(b));
    }
  }

  /** Disjoint entries make disjoint disks. */
  lemma DisksOfDisjoint(items: seq<Item>)
    requires PairwiseDisjoint(items)
    ensures DisksDisjoint(DisksOf(items))
  {
  }

  /** The loop as written and the insertion-order loop paint the same picture: every
      pixel gets the same colour from their final disks and backgrounds. */
  lemma SamePicture(img: Image, cfg: Config, x: int, y: int)
    ensures SortedSubdivide(img, cfg).Finished? <==> Subdivide(img, cfg).Finished?
    ensures SortedSubdivide(img, cfg).Finished? && Subdivide(img, cfg).Finished? ==>
      var a, b := DisksOf(SortedSubdivide(img, cfg).items), DisksOf(Subdivide(img, cfg).items);
      Painted(a, MeanBackground(img, a), x, y) == Painted(b, MeanBackground(img, b), x, y)
  {
    SameMosaic(img, cfg);
    if Subdivide(img, cfg).Finished? {
      var p, q := SortedSubdivide(img, cfg).items, Subdivide(img, cfg).items;
      SortedSubdivideInvariant(img, cfg);
      SubdivideInvariant(img, cfg);
      DisksOfDisjoint(p);
      DisksOfDisjoint(q);
      PaintedOrderFree(DisksOf(p), DisksOf(q), MeanBackground(img, DisksOf(p)), x, y);
    }
  }

  /** Each pixel of the result shows the colour of the final disk whose circle covers
      it, or the mean outside-circle background when no circle does. The final disks
      are those of the loop as written, in its order. */
  method Diskify(img: Image, cfg: Config) returns (r: Picture)
    ensures r.DivisionPanic? <==> SortedSubdivide(img, cfg).DivisionByZero?
    ensures r.DivisionPanic? <==> Subdivide(img, cfg).DivisionByZero?
    ensures r.Rendered? ==> IsCanvas(r.canvas, img.size)
    ensures r.Rendered? ==> forall x, y :: 0 <= x < img.size && 0 <= y < img.size ==>
      r.canvas[y][x] == Painted(DisksOf(SortedSubdivide(img, cfg).items), MeanBackground(img, DisksOf(SortedSubdivide(img, cfg).items)), x, y)
    ensures r.Rendered? ==> forall x, y, i ::
      (0 <= x < img.size && 0 <= y < img.size && 0 <= i < |SortedSubdivide(img, cfg).items| &&
       Covers(SortedSubdivide(img, cfg).items[i].disk, x, y)) ==>
      r.canvas[y][x] == SortedSubdivide(img, cfg).items[i].disk.color
    ensures r.Rendered? ==> forall x, y ::
      (0 <= x < img.size && 0 <= y < img.size &&
       forall i :: 0 <= i < |SortedSubdivide(img, cfg).items| ==> !Covers(SortedSubdivide(img, cfg).items[i].disk, x, y)) ==>
      r.canvas[y][x] == MeanBackground(img, DisksOf(SortedSubdivide(img, cfg).items))
  {
    SubdivideAgrees(img, cfg);
    var outcome := SortedSubdivide(img, cfg);
    if outcome.DivisionByZero? {
      return DivisionPanic;
    }
    SortedSubdivideInvariant(img, cfg);
    var ds := DisksOf(outcome.items);
    var bg := ChooseBackground(img, ds);
    var canvas := Render(ds, bg, img.size);
    forall x, y, i | 0 <= x < img.size && 0 <= y < img.size && 0 <= i < |ds| && Covers(ds[i], x, y)
      ensures canvas[y][x] == ds[i].color
    {
      forall j | i < j < |ds|
        ensures !Covers(ds[j], x, y)
      {
        SquaresDisjointIff(ds[i], ds[j]);
      }
    }
    r := Rendered(canvas);
  }
}
