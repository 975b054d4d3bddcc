/** The greedy subdivision loop of src/main.rs, written as a pure function of
    the image, the width floor and the iteration budget.

    One step extracts the worst entry. If its disk is at or below the floor it
    goes back with cost 0 and the whole loop stops; otherwise it is replaced by
    its four split children, each coloured with its own truncating mean and
    costed (cost 0 at or below the floor). A child of width 0 makes the source
    divide by zero in `choose_color`; that panic is the outcome `DivisionByZero`.

    The loop reaches the raster only through the region sampler, so it is
    stated over a pair of sampling functions; `ImageSampler` is the pair the
    program uses. */
module Engine {
  import opened Raster
  import opened Geometry
  import opened Sampler
  import opened Worklist

  /** The two numeric command-line options, with their documented defaults 8 and 1024. */
  datatype Config = Config(minWidth: nat, iterations: nat)

  const DefaultConfig: Config := Config(8, 1024)

  /** How the loop colours and costs a disk. */
  datatype RegionSampler = RegionSampler(color: Disk -> Rgb, cost: Disk -> real)

  /** `choose_color` and `cost` on the source raster. A width-0 disk is never sampled:
      the step reports the division by zero instead, so its branch here is unused. */
  function ImageSampler(img: Image): RegionSampler
  {
    RegionSampler(
      (d: Disk) => if 0 < d.width then MeanColor(img, d) else Black,
      (d: Disk) => if 0 < d.width then CostOf(img, d) else 0.0)
  }

  predicate AllWithin(w: seq<Item>, n: nat)
  {
    forall i :: 0 <= i < |w| ==> Within(w[i].disk, n)
  }

  /** No two entries' squares share a pixel. */
  predicate PairwiseDisjoint(w: seq<Item>)
  {
    forall i, j :: 0 <= i < |w| && 0 <= j < |w| && i != j ==> SquaresDisjoint(w[i].disk, w[j].disk)
  }

  /** A split child recoloured and costed as the loop body does. */
  function Recolor(sm: RegionSampler, minWidth: nat, c: Disk): (it: Item)
    ensures it.disk == c.(color := sm.color(c))
    ensures c.width <= minWidth ==> it.cost == 0.0
    ensures minWidth < c.width ==> it.cost == sm.cost(it.disk)
  {
    var colored := c.(color := sm.color(c));
    Item(if c.width <= minWidth then 0.0 else sm.cost(colored), colored)
  }

  /** On the source raster a recoloured child takes its square's truncating mean; its
      cost is non-negative, and zero exactly when the child is at or below the floor
      or its square is uniformly that mean colour. */
  lemma RecolorOnImage(img: Image, minWidth: nat, c: Disk)
    requires 0 < c.width
    ensures Recolor(ImageSampler(img), minWidth, c).disk.color == MeanColor(img, c)
    ensures 0.0 <= Recolor(ImageSampler(img), minWidth, c).cost
    ensures Recolor(ImageSampler(img), minWidth, c).cost == 0.0 <==>
      c.width <= minWidth || forall x, y :: InSquare(c, x, y) ==> img.pixel(x, y) == MeanColor(img, c)
  {
    var colored := c.(color := MeanColor(img, c));
    CostZeroIff(img, colored);
    assert Recolor(ImageSampler(img), minWidth, c) ==
      Item(if c.width <= minWidth then 0.0 else CostOf(img, colored), colored);
  }

  /** The four split children of `d`, recoloured and costed, in the source's order. */
  function Children(sm: RegionSampler, minWidth: nat, d: Disk): (kids: seq<Item>)
    ensures |kids| == 4
    ensures forall j :: 0 <= j < 4 ==> kids[j] == Recolor(sm, minWidth, Split(d)[j])
  {
    var cs := Split(d);
    [Recolor(sm, minWidth, cs[0]), Recolor(sm, minWidth, cs[1]),
     Recolor(sm, minWidth, cs[2]), Recolor(sm, minWidth, cs[3])]
  }

  /** The four children lie inside their parent's square, are half as wide, and own
      pairwise disjoint squares. */
  lemma ChildrenInside(sm: RegionSampler, minWidth: nat, d: Disk)
    ensures forall j :: 0 <= j < 4 ==>
      Contained(Children(sm, minWidth, d)[j].disk, d) && Children(sm, minWidth, d)[j].disk.width == d.width / 2
    ensures PairwiseDisjoint(Children(sm, minWidth, d))
  {
    SplitDisjointContained(d);
  }

  /** The last entry is a disk at or below the floor, put back with cost 0. */
  predicate EndsParked(w: seq<Item>, minWidth: nat)
  {
    0 < |w| && w[|w| - 1].cost == 0.0 && w[|w| - 1].disk.width <= minWidth
  }

  datatype StepResult =
    | Stopped(w: seq<Item>)   // the worst disk was at or below the floor
    | Refined(w: seq<Item>)   // the worst disk was replaced by its children
    | ZeroWidthChild          // the children are empty: `choose_color` divides by zero

  /** What one step does once entry `i` is known to be the worst. */
  predicate StepFrom(sm: RegionSampler, minWidth: nat, w: seq<Item>, i: int, r: StepResult)
    requires 0 <= i < |w|
  {
    && (r.Stopped? <==> w[i].disk.width <= minWidth)
    && (r.ZeroWidthChild? <==> minWidth < w[i].disk.width < 2)
    && (r.Stopped? ==> r.w == Remove(w, i) + [Item(0.0, w[i].disk)])
    && (r.Refined? ==> r.w == Remove(w, i) + Children(sm, minWidth, w[i].disk))
  }

  /** One iteration of the loop. */
  function Step(sm: RegionSampler, minWidth: nat, w: seq<Item>): (r: StepResult)
    requires 0 < |w|
    ensures r.Stopped? ==> |r.w| == |w| && EndsParked(r.w, minWidth)
    ensures r.Refined? ==> |r.w| == |w| + 3
    ensures r.ZeroWidthChild? ==> minWidth == 0
  {
    var i := PopIndex(w);
    var d := w[i].disk;
    if d.width <= minWidth then
      Stopped(Remove(w, i) + [Item(0.0, d)])
    else if d.width / 2 == 0 then
      ZeroWidthChild
    else
      Refined(Remove(w, i) + Children(sm, minWidth, d))
  }

  /** A step removes the worst entry (maximal cost, last among equal costs) and either
      puts it back with cost 0 and stops, or appends its four recoloured children. */
  lemma StepActsOnWorst(sm: RegionSampler, minWidth: nat, w: seq<Item>, i: int)
    requires 0 < |w| && IsWorst(w, i)
    ensures StepFrom(sm, minWidth, w, i, Step(sm, minWidth, w))
  {
    WorstUnique(w, i, PopIndex(w));
  }

  lemma AllWithinAppend(a: seq<Item>, b: seq<Item>, n: nat)
    requires AllWithin(a, n) && AllWithin(b, n)
    ensures AllWithin(a + b, n)
  {
  }

  /** A step keeps every disk inside the `n` by `n` raster. */
  lemma StepWithin(sm: RegionSampler, minWidth: nat, w: seq<Item>, n: nat)
    requires 0 < |w| && AllWithin(w, n)
    ensures !Step(sm, minWidth, w).ZeroWidthChild? ==> AllWithin(Step(sm, minWidth, w).w, n)
  {
    var i := PopIndex(w);
    var d := w[i].disk;
    var rest := Remove(w, i);
    assert AllWithin(rest, n);
    if d.width <= minWidth {
      AllWithinAppend(rest, [Item(0.0, d)], n);
    } else if d.width / 2 != 0 {
      SplitWithin(d, n);
      AllWithinAppend(rest, Children(sm, minWidth, d), n);
    }
  }

  lemma AppendDisjoint(a: seq<Item>, b: seq<Item>)
    requires PairwiseDisjoint(a) && PairwiseDisjoint(b)
    requires forall i, j :: 0 <= i < |a| && 0 <= j < |b| ==>
      SquaresDisjoint(a[i].disk, b[j].disk) && SquaresDisjoint(b[j].disk, a[i].disk)
    ensures PairwiseDisjoint(a + b)
  {
  }

  lemma RemoveDisjoint(w: seq<Item>, i: int)
    requires PairwiseDisjoint(w) && 0 <= i < |w|
    ensures PairwiseDisjoint(Remove(w, i))
    ensures forall k :: 0 <= k < |Remove(w, i)| ==>
      SquaresDisjoint(Remove(w, i)[k].disk, w[i].disk) && SquaresDisjoint(w[i].disk, Remove(w, i)[k].disk)
  {
  }

  /** A step keeps the entries' squares pairwise disjoint. */
  lemma StepKeepsDisjoint(sm: RegionSampler, minWidth: nat, w: seq<Item>)
    requires 0 < |w| && PairwiseDisjoint(w)
    ensures !Step(sm, minWidth, w).ZeroWidthChild? ==> PairwiseDisjoint(Step(sm, minWidth, w).w)
  {
    var i := PopIndex(w);
    var d := w[i].disk;
    var rest := Remove(w, i);
    RemoveDisjoint(w, i);
    if d.width <= minWidth {
      AppendDisjoint(rest, [Item(0.0, d)]);
    } else if d.width / 2 != 0 {
      SplitDisjointContained(d);
      var kids := Children(sm, minWidth, d);
      forall k, j | 0 <= k < |rest| && 0 <= j < 4
        ensures SquaresDisjoint(rest[k].disk, kids[j].disk) && SquaresDisjoint(kids[j].disk, rest[k].disk)
      {
        ContainedDisjoint(kids[j].disk, d, rest[k].disk);
      }
      AppendDisjoint(rest, kids);
    }
  }

  datatype Outcome =
    | Finished(items: seq<Item>, splits: nat, halted: bool)
    | DivisionByZero

  /** How a run goes on after a step: a stop or a division by zero ends it, and a
      refinement counts one more split on top of the rest of the run. */
  function After(s: StepResult, rest: Outcome): Outcome
  {
    match s
    case Stopped(w) => Finished(w, 0, true)
    case ZeroWidthChild => DivisionByZero
    case Refined(_) =>
      if rest.DivisionByZero? then DivisionByZero else Finished(rest.items, rest.splits + 1, rest.halted)
  }

  /** At most `fuel` iterations starting from `w`: `splits` refining steps, then a
      stop if `halted`. */
  function Run(sm: RegionSampler, minWidth: nat, w: seq<Item>, fuel: nat): (r: Outcome)
    requires 0 < |w|
    ensures r.Finished? ==> |r.items| == |w| + 3 * r.splits
    ensures r.Finished? ==> r.splits + (if r.halted then 1 else 0) <= fuel
    ensures r.Finished? && !r.halted ==> r.splits == fuel
    ensures r.Finished? && r.halted ==> EndsParked(r.items, minWidth)
    ensures r.DivisionByZero? ==> minWidth == 0
    decreases fuel
  {
    if fuel == 0 then Finished(w, 0, false)
    else
      var s := Step(sm, minWidth, w);
      After(s, if s.Refined? then Run(sm, minWidth, s.w, fuel - 1) else DivisionByZero)
  }

  /** A run keeps every disk inside the raster and the squares pairwise disjoint. */
  lemma {:induction false} RunInvariant(sm: RegionSampler, minWidth: nat, w: seq<Item>, fuel: nat, n: nat)
    requires 0 < |w| && AllWithin(w, n) && PairwiseDisjoint(w)
    ensures Run(sm, minWidth, w, fuel).Finished? ==>
      AllWithin(Run(sm, minWidth, w, fuel).items, n) && PairwiseDisjoint(Run(sm, minWidth, w, fuel).items)
    decreases fuel
  {
    if fuel > 0 {
      StepSound(sm, minWidth, w, n);
      var s := Step(sm, minWidth, w);
      var rest := if s.Refined? then Run(sm, minWidth, s.w, fuel - 1) else DivisionByZero;
      if s.Refined? {
        RunInvariant(sm, minWidth, s.w, fuel - 1, n);
      }
      AfterKeeps(s, rest, n);
    }
  }

  /** Every disk of a worklist inside the `n` by `n` raster, with pairwise disjoint squares. */
  predicate Sound(w: seq<Item>, n: nat)
  {
    AllWithin(w, n) && PairwiseDisjoint(w)
  }

  /** A step that keeps the invariant, followed by a run that keeps it, keeps it. */
  lemma AfterKeeps(s: StepResult, rest: Outcome, n: nat)
    requires !s.ZeroWidthChild? ==> Sound(s.w, n)
    requires s.Refined? && rest.Finished? ==> Sound(rest.items, n)
    ensures After(s, rest).Finished? ==> Sound(After(s, rest).items, n)
  {
  }

  /** A step keeps the invariant. */
  lemma StepSound(sm: RegionSampler, minWidth: nat, w: seq<Item>, n: nat)
    requires 0 < |w| && Sound(w, n)
    ensures !Step(sm, minWidth, w).ZeroWidthChild? ==> Sound(Step(sm, minWidth, w).w, n)
  {
    StepWithin(sm, minWidth, w, n);
    StepKeepsDisjoint(sm, minWidth, w);
  }

  /** The whole-raster disk, coloured by its mean and costed. */
  function Initial(img: Image): (it: Item)
    ensures it.disk.top == 0 && it.disk.left == 0 && it.disk.width == img.size
    ensures 0 < img.size ==> it.disk.color == MeanColor(img, Disk(0, 0, img.size, Black)) && 0.0 <= it.cost
  {
    if 0 < img.size then
      var d := Disk(0, 0, img.size, MeanColor(img, Disk(0, 0, img.size, Black)));
      CostZeroIff(img, d);
      InitialItem(img)
    else
      InitialItem(img)
  }

  function InitialItem(img: Image): Item
  {
    var d := Disk(0, 0, img.size, Black);
    var colored := d.(color := ImageSampler(img).color(d));
    Item(ImageSampler(img).cost(colored), colored)
  }

  /** The loop of `main`: the final worklist, or the division by zero that an empty
      raster or a floor of 0 can reach. */
  function Subdivide(img: Image, cfg: Config): (r: Outcome)
    ensures r.Finished? ==> 0 < |r.items| && |r.items| == 1 + 3 * r.splits
    ensures r.Finished? ==> r.splits + (if r.halted then 1 else 0) <= cfg.iterations
    ensures r.DivisionByZero? ==> img.size == 0 || cfg.minWidth == 0
  {
    if img.size == 0 then DivisionByZero
    else Run(ImageSampler(img), cfg.minWidth, [Initial(img)], cfg.iterations)
  }

  /** The initial entry is the whole raster coloured by its truncating mean, at its true cost. */
  lemma InitialOnImage(img: Image)
    requires 0 < img.size
    ensures Initial(img).disk == Disk(0, 0, img.size, MeanColor(img, Disk(0, 0, img.size, Black)))
    ensures Initial(img).cost == CostOf(img, Initial(img).disk)
    ensures Initial(img).cost == 0.0 <==>
      forall x, y :: 0 <= x < img.size && 0 <= y < img.size ==> img.pixel(x, y) == Initial(img).disk.color
  {
    var d := Initial(img).disk;
    CostZeroIff(img, d);
    assert forall x, y :: InSquare(d, x, y) <==> 0 <= x < img.size && 0 <= y < img.size;
  }

  /** With no iterations the final worklist is the initial entry alone. */
  lemma ZeroIterations(img: Image, minWidth: nat)
    requires 0 < img.size
    ensures Subdivide(img, Config(minWidth, 0)) == Finished([Initial(img)], 0, false)
  {
  }

  /** A non-empty raster and a floor of at least 1 never reach the division by zero. */
  lemma NoDivisionByZero(img: Image, cfg: Config)
    requires 0 < img.size && 0 < cfg.minWidth
    ensures Subdivide(img, cfg).Finished?
  {
  }

  /** A floor of 0 is accepted on the command line, yet on a one-pixel raster the first
      iteration splits the width-1 disk into width-0 children and divides by zero. */
  lemma MinWidthZeroPanics(img: Image, iterations: nat)
    requires img.size == 1 && 0 < iterations
    ensures Subdivide(img, Config(0, iterations)).DivisionByZero?
  {
    var w := [Initial(img)];
    assert PopIndex(w) == 0;
    assert Step(ImageSampler(img), 0, w).ZeroWidthChild?;
  }

  /** The final disks all lie inside the raster and own pairwise disjoint squares. */
  lemma SubdivideInvariant(img: Image, cfg: Config)
    ensures Subdivide(img, cfg).Finished? ==>
      AllWithin(Subdivide(img, cfg).items, img.size) && PairwiseDisjoint(Subdivide(img, cfg).items)
  {
    if 0 < img.size {
      RunInvariant(ImageSampler(img), cfg.minWidth, [Initial(img)], cfg.iterations, img.size);
    }
  }
}
