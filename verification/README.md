# diskify, modelled in Dafny

diskify turns a square RGB picture into a mosaic of flat-coloured disks. It starts
with one disk covering the whole picture. At each iteration it takes the disk whose
colour fits its square worst and splits it into four quadrant disks. Each child is
coloured with the truncating mean of the pixels in its square. The final picture is
a background colour with every disk's inscribed circle painted on top.

The model covers:

- the disk geometry of `src/disk.rs`: the integer inscribed-circle test and the four-way split;
- the three region samplers of `src/disk.rs`: the mean colour, the mean squared error and the outside-circle tally;
- `draw` in `src/disk.rs`;
- from `src/main.rs`: the greedy subdivision loop, `choose_background` and the render step.

Modules:

| file | module | contents |
|---|---|---|
| raster.dfy | `Raster` | bytes, colours, the source raster as a function `(x, y) -> Rgb`, output canvases |
| sums.dfy | `Sums` | sums of a per-pixel statistic over a rectangle, in the order the source's loops scan |
| geometry.dfy | `Geometry` | `Disk`, `inside`, `split`, disjointness and containment of squares |
| sampler.dfy | `Sampler` | `choose_color`, `cost` and `backgrounds_sums`, each as a closed form plus a loop proved equal to it |
| worklist.dfy | `Worklist` | the `(cost, disk)` worklist: worst-entry extraction and the stable sort it stands for |
| engine.dfy | `Engine` | the loop of `main` as a fuel-bounded function of the picture, the floor and the budget, over a worklist kept in insertion order |
| sortedloop.dfy | `SortedLoop` | the loop exactly as written, re-sorting the worklist at every iteration, and its agreement with `Engine` |
| background.dfy | `Background` | `choose_background` |
| paint.dfy | `Paint` | `draw` and the render step |
| mosaic.dfy | `Mosaic` | the whole pipeline, from picture to painted canvas |
| overflow.dfy | `Overflow` | the 32-bit channel sums of `choose_color` as written (see Findings) |

The loop is written once over a `RegionSampler`, which is the pair of functions that
colour and cost a disk. `Engine.ImageSampler` is the pair the program uses: the mean
and the cost on the picture.

The source re-sorts the whole worklist before every extraction. `Engine` keeps the
worklist in insertion order and extracts the entry of maximal cost that comes last
among equal costs. `SortedLoop` models the loop as written and proves that the two
agree at every iteration:

- both lists sort to the same sequence;
- so both loops take the same decisions;
- they end with the same disks, in different orders.

Both loops end with the same disks and the same background (`Mosaic.SameMosaic`).
Because the final squares are pairwise disjoint, the drawing order does not matter
(`Paint.PaintedOrderFree`), so every pixel of the painted picture is the same
whichever loop is used (`Mosaic.SamePicture`). `Mosaic.Diskify` follows the order of
the loop as written.

A run ends in one of two ways. It may produce the final worklist, with the number of
splitting steps and whether the loop stopped early. Otherwise it reaches the integer
division by zero that the source panics with (`Engine.Outcome.DivisionByZero`).

Two behaviours of the code are worth knowing:

- **Width-1 disks have no background pixels.** A width-1 disk's only pixel is its own
  centre, so it never adds to the background count. The background therefore falls
  back to black whenever every final disk is narrower than two pixels, as on a 1×1
  picture. The count is zero exactly then (`Background.TotalCountZeroIff`), not only
  for width-0 disks.
- **A floor of 0 can end in a division by zero.** A minimum width of 0 is accepted on
  the command line. If a width-1 disk becomes the worst entry within the iteration
  budget, the loop splits it into width-0 children, and `choose_color` divides by
  their zero area. With a small budget this need not happen: on a 2×2 picture one
  iteration only splits the whole disk into width-1 children. A one-pixel picture
  fails on the first iteration (`Engine.MinWidthZeroPanics`), and an empty picture
  fails on its initial disk. The model returns this outcome rather than excluding it
  by a precondition. A division by zero needs an empty picture or a floor of 0
  (`Engine.Subdivide`), and `Engine.NoDivisionByZero` shows it cannot happen with a
  positive floor on a non-empty picture.

## Model

| member | source | states |
|---|---|---|
| Geometry.AbsDiff | src/disk.rs:120-122 | the result is the non-negative distance between `a` and `b` |
| Geometry.SquareAbsDiff | src/disk.rs:124-127 | the result is `(a - b)²` |
| Geometry.SquareAbsDiffSymmetric | src/disk.rs:124-127 | `square_abs_diff` is symmetric and is zero exactly when `a == b` |
| Geometry.Inside | src/disk.rs:25-30 | the integer circle test; whenever it holds, the pixel lies in the closed square `[left, left + W] × [top, top + W]`, so the circle reaches at most one column and row past the disk's square |
| Geometry.InsideIff | src/disk.rs:25-30 | `inside(x, y)` holds exactly when the exact integer squared distance from `(x, y)` to the centre `(left + W/2, top + W/2)` is at most `(W/2)²`; the centre itself is always inside |
| Geometry.Split | src/disk.rs:75-84 | four children, each `W/2` wide (truncating), of the parent's colour, and each inside the parent's square |
| Geometry.SplitShape | src/disk.rs:75-84 | every child has width `W/2` (truncating), the parent's colour, and a top-left corner at one of the four quadrant offsets |
| Geometry.SplitDisjointContained | src/disk.rs:75-84 | the four children's squares are pairwise disjoint and each lies inside the parent's square |
| Geometry.SplitCovers | src/disk.rs:75-84 | a pixel lies in some child's square exactly when it lies in the parent's square, minus the last column and row when `W` is odd |
| Geometry.SplitTilesEven | src/disk.rs:75-84 | for even `W` the children's squares cover exactly the parent's square |
| Geometry.SplitWithin | src/disk.rs:75-84 | if the parent's square lies in the `N × N` picture, so does every child's |
| Sampler.ChooseColor | src/disk.rs:36-54 | the nested-loop mean: each channel `c` satisfies `c·W² ≤ S < (c+1)·W²`, where `S` is that channel's sum over the square; the value is the closed form `MeanColor` |
| Sampler.MeanColorIsFloor | src/disk.rs:36-54 | each channel of the mean is the floor of the channel sum over the area |
| Sampler.MeanColorBetween | src/disk.rs:36-54 | each channel of the mean lies between any lower and upper bound of that channel over the square |
| Sampler.MeanColorUniform | src/disk.rs:36-54 | on a square of one colour the mean is that colour |
| Sampler.SquaredErrorZero | src/disk.rs:64-68 | the per-pixel squared channel error is zero exactly when the pixel equals the disk colour |
| Sampler.Cost | src/disk.rs:56-73 | the nested-loop cost is the closed form `CostOf`: the summed squared error divided by `3·W²`; it is non-negative, and zero exactly when every pixel of the square equals the disk's colour |
| Sampler.CostZeroIff | src/disk.rs:56-73 | the closed-form cost is non-negative and is zero exactly on a square uniformly of the disk's colour |
| Sampler.BackgroundSums | src/disk.rs:99-117 | the nested-loop tally is the closed form over the pixels outside the circle; the count is at most `W²` and each channel sum at most `255·count` |
| Sampler.OutsideTallyBounds | src/disk.rs:99-117 | the outside count is at most `W²` and each outside channel sum is at most 255 times the count |
| Sampler.OutsideCountPositiveIff | src/disk.rs:99-117 | some pixel of the square lies outside the circle exactly when `W ≥ 2` |
| Paint.Draw | src/disk.rs:86-97 | every pixel in both the square and the circle takes the disk's colour; every other pixel keeps its colour |
| Paint.PaintedIsLastCover | src/main.rs:111-114 | after painting the disks in order over the background, a pixel shows the last disk that covers it, or the background if none does |
| Paint.PaintedDisjoint | src/main.rs:111-114 | when the squares are pairwise disjoint, a pixel covered by a disk shows that disk's colour, whatever the drawing order |
| Raster.Fill | src/main.rs:111 | an `N × N` canvas whose every pixel is the given colour |
| Paint.Render | src/main.rs:111-114 | the background fill followed by each `draw`: every pixel is `Painted`, the recursive reference; uncovered pixels show the background, covered pixels the last disk covering them |
| Paint.PaintedOrderFree | src/main.rs:112-114 | with pairwise disjoint squares, two drawing orders of the same disks give every pixel the same colour |
| Background.TotalTallyBounds | src/main.rs:33-41 | every accumulated channel sum lies between 0 and 255 times the accumulated count |
| Background.TotalCountZeroIff | src/main.rs:42-48 | the total outside count is zero exactly when every disk is narrower than two pixels |
| Background.MeanBackground | src/main.rs:30-49 | black when the total count is zero, otherwise each channel is the floor of the total channel sum over the total count |
| Background.ChooseBackground | src/main.rs:30-49 | the accumulating loop gives black when the count is zero, otherwise the per-channel floor mean; the `as u8` narrowing keeps the value, since each quotient is at most 255 |
| Worklist.PopIndex | src/main.rs:91-92 | the extracted entry has maximal cost, and every later entry costs strictly less |
| Worklist.WorstUnique | src/main.rs:91-92 | at most one entry meets that description, so the extraction is determined |
| Worklist.Remove | src/main.rs:92 | removing one entry keeps the others in their order |
| Worklist.SortByCostSorts | src/main.rs:91 | the stable sort orders by cost and is a permutation |
| Worklist.LastOfStableSort | src/main.rs:91-92 | the last entry after a stable ascending sort is the worst entry: the maximal cost, latest among ties |
| Engine.Recolor | src/main.rs:98-106 | a child keeps its square and takes the sampler's colour; its cost is 0 at or below the floor, and otherwise the sampler's cost of the recoloured child |
| Engine.Children | src/main.rs:97-106 | four entries, the `j`-th being the recoloured `j`-th split child, in the order the source pushes them |
| Engine.ChildrenInside | src/main.rs:97-106 | every child lies in its parent's square and is half as wide, and the children's squares are pairwise disjoint |
| Engine.RecolorOnImage | src/main.rs:98-106 | a child takes its square's mean colour; its cost is non-negative, and zero exactly when it is at or below the floor or its square is uniformly that colour |
| Engine.Step | src/main.rs:91-107 | a stopping step keeps the length and ends the list with a disk at or below the floor, at cost 0; a refining step grows the list by 3; a width-0 child happens only with floor 0 (that the parked disk is the worst entry is `Engine.StepActsOnWorst`) |
| Engine.StepActsOnWorst | src/main.rs:91-96 | the step acts on the worst entry: at or below the floor it is put back last with cost 0; otherwise it is replaced by its four recoloured children, at a cost of 0 at or below the floor |
| Engine.StepWithin | src/main.rs:97-107 | a step keeps every disk inside the picture |
| Engine.StepKeepsDisjoint | src/main.rs:97-107 | a step keeps the disks' squares pairwise disjoint |
| Engine.Run | src/main.rs:89-108 | after `k` splits the list has `|w| + 3k` entries; at most the budget of iterations runs; it stops early only by parking a disk at or below the floor |
| Engine.RunInvariant | src/main.rs:89-108 | every disk stays inside the picture and the squares stay pairwise disjoint for the whole run |
| Engine.Subdivide | src/main.rs:83-108 | the final worklist is non-empty and has `1 + 3k` entries after `k` splits, within the iteration budget; a division by zero needs an empty picture or a floor of 0 |
| Engine.Initial | src/main.rs:83-87 | the initial disk is the whole picture at `(0, 0)` with width `N`; on a non-empty picture it has the picture's mean colour and a non-negative cost |
| Engine.InitialOnImage | src/main.rs:83-87 | the initial entry is the whole picture, coloured by its mean and costed at its true cost, which is 0 exactly when every pixel has that mean colour |
| Engine.ZeroIterations | src/main.rs:83-89 | with no iterations the final worklist is the initial entry alone |
| Engine.NoDivisionByZero | src/main.rs:93-107 | a positive floor on a non-empty picture never reaches a width-0 disk |
| Engine.MinWidthZeroPanics | src/main.rs:93-107 | a floor of 0 on a one-pixel picture divides by zero on the first iteration |
| Engine.SubdivideInvariant | src/main.rs:83-108 | the final disks lie inside the picture and own pairwise disjoint squares |
| Worklist.LastOfAscending | src/main.rs:91-92 | in a list sorted by cost, the worst entry is the last one |
| Worklist.SortOfAscending | src/main.rs:91 | sorting a list already sorted by cost leaves it unchanged |
| Worklist.SortAppend | src/main.rs:91 | appending the same entries to two lists that sort alike keeps them sorting alike |
| Worklist.SortWithoutWorst | src/main.rs:91-92 | removing the worst entry and then sorting gives the sorted list without its last entry |
| SortedLoop.SortedStep | src/main.rs:91-107 | an iteration as written: a stop keeps the length and ends the list with a disk at or below the floor, at cost 0; a split adds three entries; a width-0 child needs a floor of 0 (that it acts on the worst entry is `SortedLoop.SortedStepIsStep` with `Engine.StepActsOnWorst`) |
| SortedLoop.SortedStepIsStep | src/main.rs:91-107 | an iteration as written is `Engine.Step` applied to the sorted worklist |
| SortedLoop.SortedRun | src/main.rs:89-108 | the loop as written from a worklist: after `k` splits the list has `|l| + 3k` entries; at most the budget of iterations runs; it stops early only by parking a disk at or below the floor; a division by zero needs floor 0 |
| SortedLoop.StepAgrees | src/main.rs:91-107 | two worklists that sort alike take the same step, and the resulting lists again sort alike |
| SortedLoop.RunAgrees | src/main.rs:89-108 | from lists that sort alike, the loop as written and `Engine.Run` end the same way, after the same number of splits, with final lists that sort alike |
| SortedLoop.SortKeepsInvariant | src/main.rs:91 | sorting keeps every disk inside the picture and the squares pairwise disjoint |
| SortedLoop.SortedRunInvariant | src/main.rs:89-108 | the loop as written keeps every disk inside the picture and the squares pairwise disjoint |
| SortedLoop.SortedSubdivide | src/main.rs:83-108 | the loop of `main` as written: the final worklist is non-empty with `1 + 3k` entries after `k` splits, within the iteration budget, ending with a parked disk when it stops early; a division by zero needs an empty picture or a floor of 0 |
| SortedLoop.SubdivideAgrees | src/main.rs:83-108 | the loop as written fails exactly when `Engine.Subdivide` does; otherwise both make the same number of splits, stop alike, and end with the same entries |
| SortedLoop.SortedSubdivideInvariant | src/main.rs:83-108 | the final disks of the loop as written lie inside the picture and own pairwise disjoint squares |
| Background.SumTallyPermutation | src/main.rs:33-41 | any per-disk tally summed over the disks gives the same total in every order |
| Background.TotalTallyPermutation | src/main.rs:33-41 | the accumulated count and sums do not depend on the order of the disks |
| Background.BackgroundOrderFree | src/main.rs:30-49 | the background does not depend on the order of the disks |
| Mosaic.SameMosaic | src/main.rs:83-114 | the loop as written and the insertion-order loop end with the same disks and hence the same background |
| Mosaic.SamePicture | src/main.rs:83-114 | both loops finish together, and then paint every pixel the same colour from their final disks and backgrounds |
| Mosaic.Diskify | src/main.rs:83-114 | the result panics exactly when the subdivision does; otherwise every pixel is `Painted` from the final disks over their background, every pixel covered by a final disk shows that disk's colour, and every other pixel shows the floor-mean background of the final disks |
| Overflow.ChannelMeanU32 | src/disk.rs:39-53 | one channel of `choose_color` as written, with a 32-bit sum; it agrees with the true mean whenever the channel sum fits in 32 bits |
| Overflow.U32MeanExactUpTo4104 | src/disk.rs:39-53 | up to width 4104 no channel sum can exceed 32 bits, so the written mean is exact |
| Overflow.WhiteSquareWraps | src/disk.rs:39-53 | on a uniformly white square of width 4105 the true mean is white but the written red channel is 0 |

## Left out

- Command-line parsing and the `validate_*` helpers (src/main.rs:14-28, 52-78) are not modelled. The floor and the budget become `Engine.Config`, with the documented defaults 8 and 1024.
- Picture decoding and saving, and the progress `println!`, are I/O and are not modelled.
- The squareness `assert!` is not modelled: `Raster.Image` has a single side length.
- `get_pixel` is never called outside the picture. The samplers require the disk's square to lie inside it, and `Engine.SubdivideInvariant` shows every disk does.
- The `f64` cost is modelled as an exact `real`. Rounding is not modelled, and neither is `partial_cmp(...).unwrap()` on NaN: a cost is never NaN once the zero-area case is excluded.
- Fixed-width integers are unbounded in the model. The 32-bit channel sums of `choose_color` are modelled only by the separate `Overflow` module (see Findings). `Engine.ImageSampler`, and with it `Engine.Subdivide`, `SortedLoop.SortedSubdivide` and `Mosaic.Diskify`, use the unbounded mean `Sampler.MeanColor`. So `Mosaic.Diskify` follows the program as written only up to width 4104 (`Overflow.U32MeanExactUpTo4104`), and beyond that it follows the corrected program. The other wrap-arounds need pictures wider than 37837 pixels, and none is modelled: the `u32` products `width * width * 3` in `cost` and `width * width` in `choose_color`, the `u32` squared distances of `inside` (src/disk.rs:29), whose sum can wrap from width 92682, and the `u64` accumulators.
- Engine.ImageSampler: its width-0 branch is never used, because the step reports the division by zero before sampling a width-0 disk.

## Findings

| source | as written | input that shows it | evidently intended | confidence | as-written member | corrected member |
|---|---|---|---|---|---|---|
| src/disk.rs:39-44 | `choose_color` accumulates each channel in a `u32` | a uniformly white 4105 × 4105 square: the red sum 255 · 4105² = 4297011375 wraps to 2044079, so the mean's red channel is 0 instead of 255 (in a debug build the addition panics instead) | an accumulator wide enough for `255·W²`, such as the `u64` that `cost` and `backgrounds_sums` use | medium, not executed | Overflow.WhiteSquareWraps | Sampler.ChooseColor |
