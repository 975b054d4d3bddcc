/** Disk geometry: the bounding square, the inscribed-circle test and the
    four-way split (src/disk.rs). */
module Geometry {
  import opened Raster

  /** A disk owns the square `[left, left + width) x [top, top + width)`; only its
      inscribed circle is ever painted. */
  datatype Disk = Disk(top: nat, left: nat, width: nat, color: Rgb)

  function AbsDiff(a: int, b: int): (r: nat)
    ensures r == a - b || r == b - a
  {
    if a < b then b - a else a - b
  }

  function SquareAbsDiff(a: int, b: int): (r: nat)
    ensures r == (a - b) * (a - b)
  {
    var diff := AbsDiff(a, b);
    diff * diff
  }

  lemma SquareAbsDiffSymmetric(a: int, b: int)
    ensures SquareAbsDiff(a, b) == SquareAbsDiff(b, a)
    ensures SquareAbsDiff(a, b) == 0 <==> a == b
  {
  }

  /** The circle's radius and centre, all with truncating division. */
  function Radius(d: Disk): nat { d.width / 2 }
  function CenterX(d: Disk): nat { d.left + d.width / 2 }
  function CenterY(d: Disk): nat { d.top + d.width / 2 }

  /** Integer membership in the inscribed circle. The circle never leaves the closed
      square `[left, left + width] x [top, top + width]`; for an even width it touches
      the column and row just past the square, which the callers' loops never reach. */
  function Inside(d: Disk, x: int, y: int): (b: bool)
    ensures b ==> d.left <= x <= d.left + d.width && d.top <= y <= d.top + d.width
  {
    var half := d.width / 2;
    var dx, dy := SquareAbsDiff(x, d.left + half), SquareAbsDiff(y, d.top + half);
    if dx + dy <= half * half then
      SquareWithin(x - (d.left + half), half, dy);
      SquareWithin(y - (d.top + half), half, dx);
      true
    else
      false
  }

  /** A square no larger than `h * h` (with anything non-negative added) has its root
      within `h`. */
  lemma SquareWithin(a: int, h: int, extra: int)
    requires 0 <= h && 0 <= extra && a * a + extra <= h * h
    ensures -h <= a <= h
  {
  }

  /** Membership is exact integer Euclidean distance to the centre against the radius. */
  lemma InsideIff(d: Disk, x: int, y: int)
    ensures Inside(d, x, y) <==>
      (x - CenterX(d)) * (x - CenterX(d)) + (y - CenterY(d)) * (y - CenterY(d)) <= Radius(d) * Radius(d)
    ensures Inside(d, CenterX(d), CenterY(d))
  {
  }

  predicate InSquare(d: Disk, x: int, y: int)
  {
    d.left <= x < d.left + d.width && d.top <= y < d.top + d.width
  }

  /** The pixels a disk paints: inside both its square and its circle. */
  predicate Covers(d: Disk, x: int, y: int)
  {
    InSquare(d, x, y) && Inside(d, x, y)
  }

  /** The bounding square lies in an `n` by `n` raster. */
  predicate Within(d: Disk, n: nat)
  {
    d.left + d.width <= n && d.top + d.width <= n
  }

  /** The square of `c` is part of the square of `p` (an empty square is part of any). */
  predicate Contained(c: Disk, p: Disk)
  {
    c.width == 0 ||
    (p.left <= c.left && c.left + c.width <= p.left + p.width &&
     p.top <= c.top && c.top + c.width <= p.top + p.width)
  }

  /** The two squares share no pixel, stated on their edges. */
  predicate SquaresDisjoint(a: Disk, b: Disk)
  {
    a.width == 0 || b.width == 0 ||
    a.left + a.width <= b.left || b.left + b.width <= a.left ||
    a.top + a.width <= b.top || b.top + b.width <= a.top
  }

  /** The edge-wise test agrees with "no common pixel", in both directions. */
  lemma SquaresDisjointIff(a: Disk, b: Disk)
    ensures SquaresDisjoint(a, b) <==> forall x, y :: !(InSquare(a, x, y) && InSquare(b, x, y))
  {
    if !SquaresDisjoint(a, b) {
      var x := if a.left < b.left then b.left else a.left;
      var y := if a.top < b.top then b.top else a.top;
      assert InSquare(a, x, y) && InSquare(b, x, y);
    }
  }

  /** A part of a square disjoint from `b` is disjoint from `b` as well. */
  lemma ContainedDisjoint(c: Disk, p: Disk, b: Disk)
    requires Contained(c, p) && SquaresDisjoint(p, b)
    ensures SquaresDisjoint(c, b) && SquaresDisjoint(b, c)
  {
  }

  /** The four quadrant children, in the source's order, all keeping the parent's colour. */
  function Split(d: Disk): (cs: seq<Disk>)
    ensures |cs| == 4
    ensures forall i :: 0 <= i < 4 ==> Contained(cs[i], d) && cs[i].width == d.width / 2 && cs[i].color == d.color
  {
    var h := d.width / 2;
    [Disk(d.top, d.left, h, d.color),
     Disk(d.top + h, d.left, h, d.color),
     Disk(d.top, d.left + h, h, d.color),
     Disk(d.top + h, d.left + h, h, d.color)]
  }

  /** Each child is half as wide (truncating), keeps the parent colour, and sits at
      one of the four quadrant corners. */
  lemma SplitShape(d: Disk)
    ensures forall c :: c in Split(d) ==> c.width == d.width / 2 && c.color == d.color
    ensures forall c :: c in Split(d) ==>
      (c.top == d.top || c.top == d.top + d.width / 2) &&
      (c.left == d.left || c.left == d.left + d.width / 2)
  {
  }

  /** The children's squares are pairwise disjoint and each lies inside the parent's. */
  lemma SplitDisjointContained(d: Disk)
    ensures forall i, j :: 0 <= i < 4 && 0 <= j < 4 && i != j ==> SquaresDisjoint(Split(d)[i], Split(d)[j])
    ensures forall i :: 0 <= i < 4 ==> Contained(Split(d)[i], d)
  {
  }

  /** A pixel lies in some child's square exactly when it lies in the parent's square
      outside the strip of `width % 2` last columns and rows the truncation leaves out. */
  lemma SplitCovers(d: Disk, x: int, y: int)
    ensures (exists i :: 0 <= i < 4 && InSquare(Split(d)[i], x, y)) <==>
      InSquare(d, x, y) && x < d.left + d.width - d.width % 2 && y < d.top + d.width - d.width % 2
  {
    var h := d.width / 2;
    var cs := Split(d);
    if InSquare(d, x, y) && x < d.left + 2 * h && y < d.top + 2 * h {
      var i := (if y < d.top + h then 0 else 1) + (if x < d.left + h then 0 else 2);
      assert InSquare(cs[i], x, y);
    }
  }

  /** For an even width the children tile the parent exactly. */
  lemma SplitTilesEven(d: Disk, x: int, y: int)
    requires d.width % 2 == 0
    ensures (exists i :: 0 <= i < 4 && InSquare(Split(d)[i], x, y)) <==> InSquare(d, x, y)
  {
    SplitCovers(d, x, y);
  }

  /** A child of a disk inside an `n` by `n` raster is inside it too. */
  lemma SplitWithin(d: Disk, n: nat)
    requires Within(d, n)
    ensures forall c :: c in Split(d) ==> Within(c, n)
  {
  }
}
