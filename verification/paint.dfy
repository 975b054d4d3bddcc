/** Painting disks on the output canvas: `Disk::draw` (src/disk.rs) and the
    render step of src/main.rs, which fills the canvas with the background and
    draws every final disk in worklist order. */
module Paint {
  import opened Raster
  import opened Geometry

  /** Paints the pixels of the square of `d` that lie in its circle; every other
      pixel keeps its colour. */
  method Draw(d: Disk, canvas: Canvas, n: nat) returns (out: Canvas)
    requires IsCanvas(canvas, n) && Within(d, n)
    ensures IsCanvas(out, n)
    ensures forall x, y :: 0 <= x < n && 0 <= y < n ==>
      out[y][x] == if Covers(d, x, y) then d.color else canvas[y][x]
  {
    out := canvas;
    var x := d.left;
    while x < d.left + d.width
      invariant d.left <= x <= d.left + d.width
      invariant IsCanvas(out, n)
      invariant forall xx, yy :: 0 <= xx < n && 0 <= yy < n ==>
        out[yy][xx] == if Covers(d, xx, yy) && xx < x then d.color else canvas[yy][xx]
    {
      var y := d.top;
      while y < d.top + d.width
        invariant d.top <= y <= d.top + d.width
        invariant IsCanvas(out, n)
        invariant forall xx, yy :: 0 <= xx < n && 0 <= yy < n ==>
          out[yy][xx] == if Covers(d, xx, yy) && (xx < x || (xx == x && yy < y)) then d.color else canvas[yy][xx]
      {
        if Inside(d, x, y) {
          out := out[y := out[y][x := d.color]];
        }
        y := y + 1;
      }
      x := x + 1;
    }
  }

  /** The colour of pixel `(x, y)` after drawing `ds` in order over `bg`. */
  function Painted(ds: seq<Disk>, bg: Rgb, x: int, y: int): Rgb
  {
    if |ds| == 0 then bg
    else if Covers(ds[|ds| - 1], x, y) then ds[|ds| - 1].color
    else Painted(ds[..|ds| - 1], bg, x, y)
  }

  /** A pixel shows the last drawn disk that covers it, or the background when none does. */
  lemma PaintedIsLastCover(ds: seq<Disk>, bg: Rgb, x: int, y: int)
    ensures (forall i :: 0 <= i < |ds| ==> !Covers(ds[i], x, y)) ==> Painted(ds, bg, x, y) == bg
    ensures forall i :: 0 <= i < |ds| && Covers(ds[i], x, y) && (forall j :: i < j < |ds| ==> !Covers(ds[j], x, y)) ==>
      Painted(ds, bg, x, y) == ds[i].color
  {
    if forall i :: 0 <= i < |ds| ==> !Covers(ds[i], x, y) {
      PaintedUncovered(ds, bg, x, y);
    }
    forall i | 0 <= i < |ds| && Covers(ds[i], x, y) && (forall j :: i < j < |ds| ==> !Covers(ds[j], x, y))
      ensures Painted(ds, bg, x, y) == ds[i].color
    {
      PaintedLastCover(ds, bg, x, y, i);
    }
  }

  lemma {:induction false} PaintedUncovered(ds: seq<Disk>, bg: Rgb, x: int, y: int)
    requires forall i :: 0 <= i < |ds| ==> !Covers(ds[i], x, y)
    ensures Painted(ds, bg, x, y) == bg
  {
    if |ds| > 0 {
      var init := ds[..|ds| - 1];
      assert forall i :: 0 <= i < |init| ==> init[i] == ds[i];
      PaintedUncovered(init, bg, x, y);
    }
  }

  lemma {:induction false} PaintedLastCover(ds: seq<Disk>, bg: Rgb, x: int, y: int, i: int)
    requires 0 <= i < |ds| && Covers(ds[i], x, y)
    requires forall j :: i < j < |ds| ==> !Covers(ds[j], x, y)
    ensures Painted(ds, bg, x, y) == ds[i].color
  {
    if i < |ds| - 1 {
      var init := ds[..|ds| - 1];
      assert !Covers(ds[|ds| - 1], x, y);
      assert forall j :: 0 <= j < |init| ==> init[j] == ds[j];
      PaintedLastCover(init, bg, x, y, i);
    }
  }

  predicate DisksDisjoint(ds: seq<Disk>)
  {
    forall i, j :: 0 <= i < |ds| && 0 <= j < |ds| && i != j ==> SquaresDisjoint(ds[i], ds[j])
  }

  /** When the squares are pairwise disjoint the drawing order does not matter: a pixel
      covered by a disk shows that disk's colour. */
  lemma PaintedDisjoint(ds: seq<Disk>, bg: Rgb, x: int, y: int, i: int)
    requires DisksDisjoint(ds)
    requires 0 <= i < |ds| && Covers(ds[i], x, y)
    ensures Painted(ds, bg, x, y) == ds[i].color
  {
    forall j | i < j < |ds|
      ensures !Covers(ds[j], x, y)
    {
      SquaresDisjointIff(ds[i], ds[j]);
    }
    PaintedIsLastCover(ds, bg, x, y);
  }

  /** With pairwise disjoint squares the picture depends only on which disks are
      drawn, not on their order. */
  lemma PaintedOrderFree(a: seq<Disk>, b: seq<Disk>, bg: Rgb, x: int, y: int)
    requires multiset(a) == multiset(b) && DisksDisjoint(a) && DisksDisjoint(b)
    ensures Painted(a, bg, x, y) == Painted(b, bg, x, y)
  {
    if i :| 0 <= i < |a| && Covers(a[i], x, y) {
      assert a[i] in multiset(b) by { assert a[i] in multiset(a); }
      var j :| 0 <= j < |b| && b[j] == a[i];
      PaintedDisjoint(a, bg, x, y, i);
      PaintedDisjoint(b, bg, x, y, j);
    } else {
      forall j | 0 <= j < |b|
        ensures !Covers(b[j], x, y)
      {
        assert b[j] in multiset(a) by { assert b[j] in multiset(b); }
      }
      PaintedUncovered(a, bg, x, y);
      PaintedUncovered(b, bg, x, y);
    }
  }

  /** The background fill followed by every disk's `draw`, in order. */
  method Render(ds: seq<Disk>, bg: Rgb, n: nat) returns (out: Canvas)
    requires forall i :: 0 <= i < |ds| ==> Within(ds[i], n)
    ensures IsCanvas(out, n)
    ensures forall x, y :: 0 <= x < n && 0 <= y < n ==> out[y][x] == Painted(ds, bg, x, y)
    ensures forall x, y :: 0 <= x < n && 0 <= y < n ==>
      (forall i :: 0 <= i < |ds| ==> !Covers(ds[i], x, y)) ==> out[y][x] == bg
    ensures forall x, y, i ::
      (0 <= x < n && 0 <= y < n && 0 <= i < |ds| && Covers(ds[i], x, y) &&
       (forall j :: i < j < |ds| ==> !Covers(ds[j], x, y))) ==> out[y][x] == ds[i].color
  {
    out := Fill(n, bg);
    var k := 0;
    while k < |ds|
      invariant 0 <= k <= |ds|
      invariant IsCanvas(out, n)
      invariant forall x, y :: 0 <= x < n && 0 <= y < n ==> out[y][x] == Painted(ds[..k], bg, x, y)
    {
      out := Draw(ds[k], out, n);
      forall x, y | 0 <= x < n && 0 <= y < n
        ensures out[y][x] == Painted(ds[..k + 1], bg, x, y)
      {
        assert ds[..k + 1][..k] == ds[..k];
      }
      k := k + 1;
    }
    assert ds[..k] == ds;
    forall x, y | 0 <= x < n && 0 <= y < n
      ensures (forall i :: 0 <= i < |ds| ==> !Covers(ds[i], x, y)) ==> out[y][x] == bg
      ensures forall i :: 0 <= i < |ds| && Covers(ds[i], x, y) && (forall j :: i < j < |ds| ==> !Covers(ds[j], x, y)) ==>
        out[y][x] == ds[i].color
    {
      PaintedIsLastCover(ds, bg, x, y);
    }
  }
}
