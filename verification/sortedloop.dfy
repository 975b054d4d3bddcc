/** The loop of src/main.rs exactly as written: at every iteration the whole
    worklist is stably sorted by cost, the last entry is popped, and the parked
    disk or the four children are pushed at the end.

    `Engine.Run` keeps the worklist in insertion order instead. The two loops are
    shown to agree at every step up to order: both lists sort to the same
    sequence, so they hold the same entries, take the same decisions and end the
    same way. */
module SortedLoop {
  import opened Raster
  import opened Geometry
  import opened Sampler
  import opened Worklist
  import opened Engine

  /** One iteration as written: sort, pop the last entry, push. */
  function SortedStep(sm: RegionSampler, minWidth: nat, l: seq<Item>): (r: StepResult)
    requires 0 < |l|
    ensures r.Stopped? ==> |r.w| == |l| && EndsParked(r.w, minWidth)
    ensures r.Refined? ==> |r.w| == |l| + 3
    ensures r.ZeroWidthChild? ==> minWidth == 0
  {
    var s := SortByCost(l);
    var d := s[|s| - 1].disk;
    if d.width <= minWidth then
      Stopped(s[..|s| - 1] + [Item(0.0, d)])
    else if d.width / 2 == 0 then
      ZeroWidthChild
    else
      Refined(s[..|s| - 1] + Children(sm, minWidth, d))
  }

  /** The last entry of the sorted list is its worst entry, so an iteration as written
      is `Engine.Step` applied to the sorted list. */
  lemma SortedStepIsStep(sm: RegionSampler, minWidth: nat, l: seq<Item>)
    requires 0 < |l|
    ensures SortedStep(sm, minWidth, l) == Step(sm, minWidth, SortByCost(l))
  {
    var s := SortByCost(l);
    var n := |s|;
    SortByCostSorts(l);
    LastOfAscending(s);
    var d := s[n - 1].disk;
    assert Remove(s, n - 1) == s[..n - 1];
    if d.width <= minWidth {
      assert Step(sm, minWidth, s) == Stopped(s[..n - 1] + [Item(0.0, d)]);
    } else if d.width / 2 != 0 {
      assert Step(sm, minWidth, s) == Refined(s[..n - 1] + Children(sm, minWidth, d));
    }
  }

  /** At most `fuel` iterations as written. */
  function SortedRun(sm: RegionSampler, minWidth: nat, l: seq<Item>, fuel: nat): (r: Outcome)
    requires 0 < |l|
    ensures r.Finished? ==> |r.items| == |l| + 3 * r.splits
    ensures r.Finished? ==> r.splits + (if r.halted then 1 else 0) <= fuel
    ensures r.Finished? && !r.halted ==> r.splits == fuel
    ensures r.Finished? && r.halted ==> EndsParked(r.items, minWidth)
    ensures r.DivisionByZero? ==> minWidth == 0
    decreases fuel
  {
    if fuel == 0 then Finished(l, 0, false)
    else
      var s := SortedStep(sm, minWidth, l);
      After(s, if s.Refined? then SortedRun(sm, minWidth, s.w, fuel - 1) else DivisionByZero)
  }

  /** Two worklists that sort alike take the same step: the same outcome, and
      resulting lists that again sort alike. */
  lemma StepAgrees(sm: RegionSampler, minWidth: nat, l: seq<Item>, w: seq<Item>)
    requires 0 < |w| && SortByCost(l) == SortByCost(w)
    ensures 0 < |l|
    ensures SortedStep(sm, minWidth, l).Stopped? == Step(sm, minWidth, w).Stopped?
    ensures SortedStep(sm, minWidth, l).Refined? == Step(sm, minWidth, w).Refined?
    ensures !Step(sm, minWidth, w).ZeroWidthChild? ==>
      SortByCost(SortedStep(sm, minWidth, l).w) == SortByCost(Step(sm, minWidth, w).w)
  {
    var s := SortByCost(w);
    var n := |w|;
    var p := PopIndex(w);
    LastOfStableSort(w);
    var d := w[p].disk;
    assert s[n - 1].disk == d;
    SortWithoutWorst(w);
    SortByCostSorts(w);
    SortOfAscending(s[..n - 1]);
    var tail: seq<Item> :=
      if d.width <= minWidth then [Item(0.0, d)]
      else if d.width / 2 == 0 then []
      else Children(sm, minWidth, d);
    SortAppend(s[..n - 1], Remove(w, p), tail);
  }

  /** Two outcomes fail together, and otherwise agree on the number of splits, on the
      halt flag, and on their final lists up to order. */
  predicate OutcomesAgree(p: Outcome, q: Outcome)
  {
    && p.DivisionByZero? == q.DivisionByZero?
    && (q.Finished? ==> p.splits == q.splits && p.halted == q.halted && SortByCost(p.items) == SortByCost(q.items))
  }

  /** Started from lists that sort alike, the loop as written and `Engine.Run` end the
      same way, after the same number of splits, with final lists that sort alike. */
  lemma {:induction false} RunAgrees(sm: RegionSampler, minWidth: nat, l: seq<Item>, w: seq<Item>, fuel: nat)
    requires 0 < |w| && SortByCost(l) == SortByCost(w)
    ensures 0 < |l|
    ensures OutcomesAgree(SortedRun(sm, minWidth, l, fuel), Run(sm, minWidth, w, fuel))
    decreases fuel
  {
    StepAgrees(sm, minWidth, l, w);
    if fuel > 0 {
      var a, b := SortedStep(sm, minWidth, l), Step(sm, minWidth, w);
      var ra := if a.Refined? then SortedRun(sm, minWidth, a.w, fuel - 1) else DivisionByZero;
      var rb := if b.Refined? then Run(sm, minWidth, b.w, fuel - 1) else DivisionByZero;
      if b.Refined? {
        RunAgrees(sm, minWidth, a.w, b.w, fuel - 1);
      }
      AfterAgrees(a, b, ra, rb);
    }
  }

  /** Steps that agree, followed by runs that agree, give runs that agree. */
  lemma AfterAgrees(a: StepResult, b: StepResult, ra: Outcome, rb: Outcome)
    requires a.Stopped? == b.Stopped? && a.Refined? == b.Refined?
    requires b.Stopped? ==> SortByCost(a.w) == SortByCost(b.w)
    requires b.Refined? ==> OutcomesAgree(ra, rb)
    ensures OutcomesAgree(After(a, ra), After(b, rb))
  {
  }

  lemma {:induction false} InsertKeepsDisjoint(s: seq<Item>, x: Item)
    requires PairwiseDisjoint(s)
    requires forall k :: 0 <= k < |s| ==> SquaresDisjoint(s[k].disk, x.disk) && SquaresDisjoint(x.disk, s[k].disk)
    ensures PairwiseDisjoint(Insert(s, x))
    decreases |s|
  {
    if |s| == 0 || s[|s| - 1].cost <= x.cost {
      AppendDisjoint(s, [x]);
    } else {
      var init, last := s[..|s| - 1], s[|s| - 1];
      InsertKeepsDisjoint(init, x);
      var t := Insert(init, x);
      InsertMultiset(init, x);
      forall k | 0 <= k < |t|
        ensures SquaresDisjoint(t[k].disk, last.disk) && SquaresDisjoint(last.disk, t[k].disk)
      {
        assert t[k] in multiset(t);
        if t[k] != x {
          var j :| 0 <= j < |init| && init[j] == t[k];
          assert s[j] == t[k];
        }
      }
      AppendDisjoint(t, [last]);
    }
  }

  /** Sorting keeps the squares pairwise disjoint and every disk inside the raster. */
  lemma {:induction false} SortKeepsInvariant(w: seq<Item>, n: nat)
    requires AllWithin(w, n) && PairwiseDisjoint(w)
    ensures AllWithin(SortByCost(w), n) && PairwiseDisjoint(SortByCost(w))
  {
    SortByCostSorts(w);
    var s := SortByCost(w);
    forall k | 0 <= k < |s|
      ensures Within(s[k].disk, n)
    {
      assert s[k] in multiset(s);
    }
    if |w| > 0 {
      var init, x := w[..|w| - 1], w[|w| - 1];
      SortKeepsInvariant(init, n);
      var t := SortByCost(init);
      SortByCostSorts(init);
      forall k | 0 <= k < |t|
        ensures SquaresDisjoint(t[k].disk, x.disk) && SquaresDisjoint(x.disk, t[k].disk)
      {
        assert t[k] in multiset(t);
        var j :| 0 <= j < |init| && init[j] == t[k];
        assert w[j] == t[k];
      }
      InsertKeepsDisjoint(t, x);
    }
  }

  /** The loop as written keeps every disk inside the raster and the squares pairwise
      disjoint. */
  lemma {:induction false} SortedRunInvariant(sm: RegionSampler, minWidth: nat, l: seq<Item>, fuel: nat, n: nat)
    requires 0 < |l| && AllWithin(l, n) && PairwiseDisjoint(l)
    ensures SortedRun(sm, minWidth, l, fuel).Finished? ==>
      AllWithin(SortedRun(sm, minWidth, l, fuel).items, n) &&
      PairwiseDisjoint(SortedRun(sm, minWidth, l, fuel).items)
    decreases fuel
  {
    if fuel > 0 {
      var s := SortByCost(l);
      SortKeepsInvariant(l, n);
      SortedStepIsStep(sm, minWidth, l);
      StepWithin(sm, minWidth, s, n);
      StepKeepsDisjoint(sm, minWidth, s);
      var r := SortedStep(sm, minWidth, l);
      var rest := if r.Refined? then SortedRun(sm, minWidth, r.w, fuel - 1) else DivisionByZero;
      if r.Refined? {
        SortedRunInvariant(sm, minWidth, r.w, fuel - 1, n);
      }
      AfterKeeps(r, rest, n);
    }
  }

  /** The loop of `main` as written. */
  function SortedSubdivide(img: Image, cfg: Config): (r: Outcome)
    ensures r.Finished? ==> 0 < |r.items| && |r.items| == 1 + 3 * r.splits
    ensures r.Finished? ==> r.splits + (if r.halted then 1 else 0) <= cfg.iterations
    ensures r.Finished? && r.halted ==> EndsParked(r.items, cfg.minWidth)
    ensures r.DivisionByZero? ==> img.size == 0 || cfg.minWidth == 0
  {
    if img.size == 0 then DivisionByZero
    else SortedRun(ImageSampler(img), cfg.minWidth, [Initial(img)], cfg.iterations)
  }

  /** The loop as written and `Engine.Subdivide` fail together; otherwise they make the
      same number of splits, stop alike, and end with the same entries. */
  lemma SubdivideAgrees(img: Image, cfg: Config)
    ensures SortedSubdivide(img, cfg).DivisionByZero? == Subdivide(img, cfg).DivisionByZero?
    ensures Subdivide(img, cfg).Finished? ==>
      SortedSubdivide(img, cfg).splits == Subdivide(img, cfg).splits &&
      SortedSubdivide(img, cfg).halted == Subdivide(img, cfg).halted &&
      multiset(SortedSubdivide(img, cfg).items) == multiset(Subdivide(img, cfg).items)
  {
    if 0 < img.size {
      var w := [Initial(img)];
      RunAgrees(ImageSampler(img), cfg.minWidth, w, w, cfg.iterations);
      var r := Run(ImageSampler(img), cfg.minWidth, w, cfg.iterations);
      if r.Finished? {
        var q := SortedRun(ImageSampler(img), cfg.minWidth, w, cfg.iterations);
        SortByCostSorts(r.items);
        SortByCostSorts(q.items);
      }
    }
  }

  /** The final disks of the loop as written lie inside the raster and own pairwise
      disjoint squares. */
  lemma SortedSubdivideInvariant(img: Image, cfg: Config)
    ensures SortedSubdivide(img, cfg).Finished? ==>
      AllWithin(SortedSubdivide(img, cfg).items, img.size) &&
      PairwiseDisjoint(SortedSubdivide(img, cfg).items)
  {
    if 0 < img.size {
      SortedRunInvariant(ImageSampler(img), cfg.minWidth, [Initial(img)], cfg.iterations, img.size);
    }
  }
}
