# PylonGrid head detector, modelled in Dafny

PylonGrid finds human heads in an 8-bit range image: a head appears as a
local minimum of the range, a patch of pixels nearer to the camera than
everything around it. The detector places pylons (probes) on a uniform grid
over the image, every `PyStep` pixels, with a ring of sentinel pylons on the
grid's border. For each frame it

1. resets every interior pylon from the image: the pylon reads the range
   under it, filtered by a median filter when the filter's kernel fits
   inside the image, and becomes an ungrouped head;
2. discards tails: a recursive flood-fill started from every interior pylon
   turns into a tail each head that a non-border neighbour is nearer than,
   or level with while being a tail itself, and continues into the
   neighbours that did not discard it;
3. groups the heads that are left: a second recursive flood-fill, started
   from every interior pylon in row-major order, gathers each 4-connected
   component of ungrouped heads into a group, and each group becomes a
   `Head` with the group's range and the integer centroid of its pylons.

Besides the detector the model covers the two filters the detector can use
(the pass-through filter and the histogram quantile filter `FastMedian`)
and the byte helpers over locked bitmap data (fill, copy, gray to BGRA).

The model has one module per source file:

| module | file | form |
|---|---|---|
| `Numerics` | numerics.dfy | the host's byte, truncating division and half-to-even rounding |
| `Pylons` | pylon.dfy | `Pylon` class with mutable range and flags; `PylonState` value |
| `PylonGroups` | pylon_group.dfy | `PylonGroup` accumulator class |
| `Heads` | head.dfy | `Head` value, its text form and a parser for it |
| `NullMedianFilter` | null_median_filter.dfy | pass-through filter |
| `FastMedianFilter` | fast_median.dfy | `FastMedian` class over a 256-bucket histogram array |
| `MedianFilters` | median_filter.dfy | the filter interface as a two-case datatype |
| `BitmapDataMethods` | bitmap_data_methods.dfy | byte loops over a locked buffer |
| `GridModel` | grid_model.dfy | the grid as a map from cells to pylon states; both flood-fills specified and reasoned about |
| `PylonGridDetectors` | pylon_grid_detector.dfy | `PylonGridDetector` class over an `array2<Pylon?>` |

The detector class keeps, beside its grid of pylon objects, a ghost map
`Model` from grid cells to pylon states, and every method keeps the two
coupled. The recursive passes are proved against predicates on that map.
The discard pass only turns heads into tails, keeps every tail justified by
a discarding neighbour, and finishes with no head that a neighbour
discards. The grouping pass groups exactly the 4-connected component of
heads of each start, once per component, in row-major order. Both
recursions are shown to terminate: the set of heads, or of ungrouped
heads, shrinks at every recursive step.

## Model

| member | source | states |
|---|---|---|
| `Numerics.DivTrunc` | PylonGrid.Core/HeadDetector/PylonGroup.cs:26-27 | the quotient rounds toward zero: `|q*b| <= |a| < |q*b| + |b|`, q is positive exactly when a and b have the same sign, and it agrees with floor division for a non-negative dividend |
| `Numerics.RoundHalfEven` | PylonGrid.Core/MedianFilter/FastMedian.cs:55 | the result is within half a unit of n/d, and on a tie it is even (the host's default rounding) |
| `Numerics.RoundHalfEvenUnique` | PylonGrid.Core/MedianFilter/FastMedian.cs:55 | any integer strictly closer than half a unit to n/d is the rounded value |
| `Pylons.BorderNeverDiscards` | PylonGrid.Core/HeadDetector/Pylon.cs:35-36 | a border neighbour never makes a pylon a tail |
| `Pylons.PylonState.IsDiscardedBy` | PylonGrid.Core/HeadDetector/Pylon.cs:33-42 | a neighbour that discards is not on the border and is at most as far; a strictly nearer non-border neighbour always discards, and so does a non-border tail on the same range; a head at least as far never does |
| `Pylons.EqualHeadsNeverDiscard` | PylonGrid.Core/HeadDetector/Pylon.cs:37-40 | two heads on the same range never discard each other |
| `Pylons.HeadsDiscardAsymmetric` | PylonGrid.Core/HeadDetector/Pylon.cs:33-42 | between two heads, the discarded one is strictly further, and it does not discard the other back |
| `Pylons.FallingNeighbourStillDiscards` | PylonGrid.Core/HeadDetector/Pylon.cs:39-40 | a neighbour turning from head to tail never stops discarding |
| `Pylons.Pylon.constructor` | PylonGrid.Core/HeadDetector/Pylon.cs:18-24 | a new pylon sits on the given pixel at the furthest range 255, is a head exactly when not on the border, and is ungrouped |
| `Pylons.Pylon.ResetAt` | PylonGrid.Core/HeadDetector/Pylon.cs:26-31 | the pylon takes the given range, becomes a head unless on the border, and is ungrouped |
| `Pylons.Pylon.IsInsideImage` | PylonGrid.Core/HeadDetector/Pylon.cs:44-51 | when the test passes for a non-negative radius the pylon lies on the image, and the square of side 2*radius+1 fits in the image's width and height |
| `Pylons.Pylon.InsideImageKernelInBuffer` | PylonGrid.Core/HeadDetector/Pylon.cs:44-51 | when the square of the radius around the pylon lies inside the image, every byte of the filter's kernel lies in the locked buffer |
| `PylonGroups.PylonGroup.constructor` | PylonGrid.Core/HeadDetector/PylonGridDetector.cs:150 | a new group has no members, zero sums, count and range |
| `PylonGroups.PylonGroup.Register` | PylonGrid.Core/HeadDetector/PylonGroup.cs:15-22 | the pylon is marked grouped and appended to the members; the count grows by one, its position is added to the sums, its range becomes the group's range, and its range and head flag are kept |
| `PylonGroups.PylonGroup.ToHead` | PylonGrid.Core/HeadDetector/PylonGroup.cs:24-29 | the head has the group's range, and each centre coordinate is the sum divided by the count, rounded toward zero |
| `PylonGroups.SumXBounds` | PylonGrid.Core/HeadDetector/PylonGroup.cs:20 | the sum of n column positions each in [lo, hi] lies in [n*lo, n*hi] |
| `PylonGroups.SumYBounds` | PylonGrid.Core/HeadDetector/PylonGroup.cs:21 | the same for row positions |
| `PylonGroups.AverageWithin` | PylonGrid.Core/HeadDetector/PylonGroup.cs:26-27 | a sum in [n*lo, n*hi] divided by n, rounded toward zero, lies in [lo, hi] |
| `PylonGroups.CentreWithinMembers` | PylonGrid.Core/HeadDetector/PylonGroup.cs:24-29 | a group's head lies inside the bounding box of its members |
| `Heads.ToString` | PylonGrid.Core/HeadDetector/Head.cs:32-35 | the text starts with `Head(Range=` and is longer than the bare template |
| `Heads.Decimal` | PylonGrid.Core/HeadDetector/Head.cs:34 | the decimal form of a number is non-empty and made of digits and minus signs |
| `Heads.NaturalDigitsRoundTrip` | PylonGrid.Core/HeadDetector/Head.cs:34 | reading back the digits of a natural number gives that number |
| `Heads.DecimalRoundTrip` | PylonGrid.Core/HeadDetector/Head.cs:34 | reading back the decimal form of any integer gives that integer |
| `Heads.ParseFields` | PylonGrid.Core/HeadDetector/Head.cs:34 | parsing the template filled with three delimiter-free fields reads back exactly those three numbers |
| `Heads.ToStringRoundTrip` | PylonGrid.Core/HeadDetector/Head.cs:32-35 | parsing the text form of a head gives back that head |
| `Heads.ToStringInjective` | PylonGrid.Core/HeadDetector/Head.cs:32-35 | two heads with the same text form are equal |
| `NullMedianFilter.CalculateReadsOnlyItsPixel` | PylonGrid.Core/MedianFilter/NullMedianFilter.cs:25-29 | the result is the byte at offset imgY*stride + imgX and depends on no other byte |
| `NullMedianFilter.Calculate` | PylonGrid.Core/MedianFilter/NullMedianFilter.cs:25-29 | the value is the byte under the probe, at offset imgY*stride + imgX |
| `MedianFilters.MedianFilter.Calculate` | PylonGrid.Core/MedianFilter/IMedianFilter.cs:14 | running the chosen filter returns its value for the pixel and writes nothing but the filter's own histogram |
| `MedianFilters.MedianFilter.Value` | PylonGrid.Core/MedianFilter/IMedianFilter.cs:14 | the pass-through filter gives the byte under the probe, which lies in the buffer; the quantile filter gives 0 or one of the kernel's samples |
| `MedianFilters.NullValueIsPixel` | PylonGrid.Core/MedianFilter/NullMedianFilter.cs:25-29 | the pass-through filter's value is the pixel under the probe |
| `FastMedianFilter.SampleCount` | PylonGrid.Core/MedianFilter/FastMedian.cs:74 | the number of samples a row walk takes over a span is ceil(span/step): at least one, and (n-1)*step < span <= n*step |
| `FastMedianFilter.SampleCountUnique` | PylonGrid.Core/MedianFilter/FastMedian.cs:74 | that count is the only one covering the span without overshooting a whole step |
| `FastMedianFilter.SampleCountNext` | PylonGrid.Core/MedianFilter/FastMedian.cs:72 | taking one step off a span longer than a step takes exactly one sample off |
| `FastMedianFilter.RowSamplesLength` | PylonGrid.Core/MedianFilter/FastMedian.cs:74-78 | one kernel row yields ceil((maxX-minX+1)/step) samples |
| `FastMedianFilter.KernelRowsLength` | PylonGrid.Core/MedianFilter/FastMedian.cs:72-79 | the kernel rows yield (rows sampled) * (samples per row) values |
| `FastMedianFilter.Kernel` | PylonGrid.Core/MedianFilter/FastMedian.cs:62-79 | the samples of a kernel of side 2*radius+1 number n*n, n = ceil(side/step) |
| `FastMedianFilter.ProbedAreaVersusSamples` | PylonGrid.Core/MedianFilter/FastMedian.cs:44-56 | the probed area side*side/step/step equals the number of samples for step 1, and falls short of it for radius 1, step 2 (2 against 4) |
| `FastMedianFilter.ProbedAreaAtMostSamples` | PylonGrid.Core/MedianFilter/FastMedian.cs:50-54 | for every radius and step the probed area side*side/step/step is at most the number of samples the kernel walk takes |
| `FastMedianFilter.WalkDrift` | PylonGrid.Core/MedianFilter/FastMedian.cs:68-79 | as written, sampled row j of the pointer walk is shifted right by j*(n*step - side) bytes from the kernel's row j |
| `FastMedianFilter.WalkExactWhenStepDividesSide` | PylonGrid.Core/MedianFilter/FastMedian.cs:68-79 | when step divides the side, the walk as written reads exactly the kernel's samples |
| `FastMedianFilter.WalkReadsPastBuffer` | PylonGrid.Core/MedianFilter/FastMedian.cs:68-79 | a kernel that lies inside a 12x12 image is walked, as written, to offset 147 of the 144-byte buffer |
| `FastMedianFilter.KernelOffsetInBuffer` | PylonGrid.Core/MedianFilter/FastMedian.cs:62-69 | every sample of a kernel that lies in the buffer, addressed by its row and column, is inside the buffer |
| `FastMedianFilter.EmptyHistogram` | PylonGrid.Core/MedianFilter/FastMedian.cs:60 | the cleared histogram has 256 buckets |
| `FastMedianFilter.Tally` | PylonGrid.Core/MedianFilter/FastMedian.cs:76-77 | counting samples into a histogram keeps its 256 buckets |
| `FastMedianFilter.TallyConcat` | PylonGrid.Core/MedianFilter/FastMedian.cs:72-79 | counting two runs of samples one after the other is counting their concatenation |
| `FastMedianFilter.TallyCounts` | PylonGrid.Core/MedianFilter/FastMedian.cs:76-77 | bucket v ends with its old count plus the number of samples equal to v |
| `FastMedianFilter.CountAtMostStep` | PylonGrid.Core/MedianFilter/FastMedian.cs:89 | the running count after bucket v is the count after bucket v-1 plus bucket v |
| `FastMedianFilter.CountAtMostBounds` | PylonGrid.Core/MedianFilter/FastMedian.cs:85-93 | the running count is 0 before bucket 0, the number of samples from bucket 255 on, and never more than that |
| `FastMedianFilter.QuantileFromIsLeast` | PylonGrid.Core/MedianFilter/FastMedian.cs:86-93 | a scan from bucket v that finds a value returns the least value from v on whose running count exceeds the target |
| `FastMedianFilter.QuantileIsLeastAndSampled` | PylonGrid.Core/MedianFilter/FastMedian.cs:82-94 | for a target below the number of samples, the scan from bucket 0 returns the least value with more than target samples at or below it, and it is one of the samples |
| `FastMedianFilter.QuantileFoundIff` | PylonGrid.Core/MedianFilter/FastMedian.cs:82-97 | the scan from bucket 0 finds a value exactly when the target is below the number of samples; otherwise it returns 0 |
| `FastMedianFilter.QuantileFromNone` | PylonGrid.Core/MedianFilter/FastMedian.cs:96-97 | when no bucket from v on reaches the target, the scan falls through to 0 |
| `FastMedianFilter.Quantile` | PylonGrid.Core/MedianFilter/FastMedian.cs:82-97 | for a target q in [0, number of samples) the result has more than q samples at or below it, is the least such value, and is one of the samples; for any other target it is 0 |
| `FastMedianFilter.QuantileNone` | PylonGrid.Core/MedianFilter/FastMedian.cs:96-97 | a target that is negative or not below the number of samples gives 0 |
| `FastMedianFilter.RowsLeftNext` | PylonGrid.Core/MedianFilter/FastMedian.cs:72-79 | after one kernel row is counted, the rows below it are what is left to count |
| `FastMedianFilter.FastMedian.constructor` | PylonGrid.Core/MedianFilter/FastMedian.cs:44-56 | side is 2*radius+1, the probed area is side*side/step/step, and the target count is the probed area times quantileNum/quantileDen, rounded half to even |
| `FastMedianFilter.FastMedian.Value` | PylonGrid.Core/MedianFilter/FastMedian.cs:58-98 | for a target count inside the kernel, the value is the least one with more than that many samples at or below it, and is one of the kernel's samples; a target outside the kernel gives 0 |
| `FastMedianFilter.FastMedian.Calculate` | PylonGrid.Core/MedianFilter/FastMedian.cs:58-98 | the result is the quantile of the kernel's samples: the least value whose running count exceeds the target, 0 when there is none |
| `FastMedianFilter.FastMedian.CountKernel` | PylonGrid.Core/MedianFilter/FastMedian.cs:60-79 | the histogram ends as the count of exactly the kernel's samples, every Step-th row and column of the square |
| `FastMedianFilter.FastMedian.CountRow` | PylonGrid.Core/MedianFilter/FastMedian.cs:74-78 | the row's samples are added to the histogram and the pointer ends ceil(side/step) steps further |
| `BitmapDataMethods.SetAllBytes` | PylonGrid.Core/ExtensionMethods/BitmapDataMethods.cs:9-17 | every byte of the Height*Stride rows holds the value and every byte after them is unchanged |
| `BitmapDataMethods.CheckCopyTo` | PylonGrid.Core/ExtensionMethods/BitmapDataMethods.cs:21-23 | the check passes exactly when width, height and stride agree; otherwise it fails with the first of them that differs, naming that parameter |
| `BitmapDataMethods.CopyTo` | PylonGrid.Core/ExtensionMethods/BitmapDataMethods.cs:19-35 | on a failed check nothing is written; otherwise the destination's first Height*Stride bytes equal the source's and the rest are unchanged; the source is never written |
| `BitmapDataMethods.CheckGray8ToArgb` | PylonGrid.Core/ExtensionMethods/BitmapDataMethods.cs:39-41 | the check passes exactly when width and height agree and the source stride is the destination stride divided by 4, rounded toward zero; otherwise it fails with the first of them that differs |
| `BitmapDataMethods.CopyGray8ToArgb` | PylonGrid.Core/ExtensionMethods/BitmapDataMethods.cs:37-57 | on a failed check nothing is written; otherwise each source byte g becomes the quadruple (g, g, g, 255) at four times its offset, and the rest is unchanged |
| `BitmapDataMethods.QuadrupleFits` | PylonGrid.Core/ExtensionMethods/BitmapDataMethods.cs:41-56 | when the check passes, the destination holds four bytes for every source byte |
| `GridModel.HeadNeighboursInGrid` | PylonGrid.Core/HeadDetector/PylonGridDetector.cs:122-125 | with the sentinel ring, every head is interior, so its four neighbours are on the grid |
| `GridModel.HeadsOnlyFallKeepsSentinels` | PylonGrid.Core/HeadDetector/PylonGridDetector.cs:133 | turning heads into tails keeps the sentinel ring |
| `GridModel.FallKeepsDiscards` | PylonGrid.Core/HeadDetector/PylonGridDetector.cs:133 | heads turning into tails never undo a discard |
| `GridModel.FallKeepsJustified` | PylonGrid.Core/HeadDetector/PylonGridDetector.cs:133 | heads turning into tails keep every discarded pylon discarded |
| `GridModel.MarkTailKeepsJustified` | PylonGrid.Core/HeadDetector/PylonGridDetector.cs:132-133 | marking a discarded head a tail changes only that pylon and keeps every tail justified by a neighbour |
| `GridModel.MarkTailUnstable` | PylonGrid.Core/HeadDetector/PylonGridDetector.cs:132-141 | marking a head a tail can newly make unstable only a neighbouring head on exactly the same range that did not discard it |
| `GridModel.PreviousTailDiscards` | PylonGrid.Core/HeadDetector/PylonGridDetector.cs:127-130 | the tail the fill came from discards the head it steps to, once that head is a tail too |
| `GridModel.VisitedJustifies` | PylonGrid.Core/HeadDetector/PylonGridDetector.cs:127-133 | when any visited flag is raised, the head, marked a tail, is discarded by some neighbour |
| `GridModel.NewlyUnstableUnvisited` | PylonGrid.Core/HeadDetector/PylonGridDetector.cs:127-141 | a neighbour that can become unstable has its visited flag down, so the fill goes into it |
| `GridModel.NextPrevious` | PylonGrid.Core/HeadDetector/PylonGridDetector.cs:134-141 | the tail just made is a valid previous pylon for each neighbour the fill continues into |
| `GridModel.MarkedTailShrinksHeads` | PylonGrid.Core/HeadDetector/PylonGridDetector.cs:133 | after a head is marked a tail there are strictly fewer heads, so the recursion terminates |
| `GridModel.MarkTailPending` | PylonGrid.Core/HeadDetector/PylonGridDetector.cs:132-141 | marking the head a tail makes unstable at most the neighbours still to be visited, and leaves it stable |
| `GridModel.FillStep` | PylonGrid.Core/HeadDetector/PylonGridDetector.cs:134-141 | one continuation of the fill keeps heads only falling and crosses its neighbour off the pending set |
| `GridModel.HeadsInside` | PylonGrid.Core/HeadDetector/PylonGridDetector.cs:109-110 | heads, and so unstable pylons, lie inside the loop bounds of the passes |
| `GridModel.HeadIffNotDiscarded` | PylonGrid.Core/HeadDetector/PylonGridDetector.cs:107-114 | after the discard pass a non-border pylon is a head exactly when no neighbour discards it |
| `GridModel.NoHeadBehindANeighbour` | PylonGrid.Core/HeadDetector/PylonGridDetector.cs:107-143 | after the discard pass no head has a strictly nearer non-border neighbour |
| `GridModel.AdjacentHeadsShareRange` | PylonGrid.Core/HeadDetector/PylonGridDetector.cs:107-143 | after the discard pass neighbouring heads are on the same range |
| `GridModel.MarkTailKeepsGrounded` | PylonGrid.Core/HeadDetector/PylonGridDetector.cs:132-133 | marking a discarded head a tail keeps every tail grounded: linked through tails on its own range to a pylon with a strictly nearer non-border neighbour |
| `GridModel.HeadIffPlateauUndrained` | PylonGrid.Core/HeadDetector/PylonGridDetector.cs:107-143 | after the discard pass, with every tail grounded, a non-border pylon is a head exactly when no pylon of its plateau (its 4-connected non-border pylons on its range) has a strictly nearer non-border neighbour |
| `GridModel.FlatAllHeads` | PylonGrid.Core/HeadDetector/PylonGridDetector.cs:107-143 | when every non-border pylon is on one range, no plateau drains and the heads are exactly the interior cells |
| `GridModel.InteriorLinked` | PylonGrid.Core/HeadDetector/PylonGridDetector.cs:161-173 | any two interior cells are connected through 4-adjacent interior cells |
| `GridModel.SingleComponent` | PylonGrid.Core/HeadDetector/PylonGridDetector.cs:145-159 | disjoint components covering a connected set of heads are a single component, that set |
| `GridModel.LinkedSymmetric` | PylonGrid.Core/HeadDetector/PylonGridDetector.cs:169-172 | connection through 4-adjacent heads is symmetric |
| `GridModel.ComponentShareRange` | PylonGrid.Core/HeadDetector/PylonGridDetector.cs:145-159 | after the discard pass every head along a path of heads is on the range of the path's first head |
| `GridModel.UniformComponentRange` | PylonGrid.Core/HeadDetector/PylonGridDetector.cs:145-159 | after the discard pass all heads of a 4-connected component share one range |
| `GridModel.GroupsOnlyRiseKeeps` | PylonGrid.Core/HeadDetector/PylonGridDetector.cs:161-173 | grouping keeps the heads, the ranges, the sentinels and the unstable set, and groups only heads that were ungrouped |
| `GridModel.MarkGroupedFrontier` | PylonGrid.Core/HeadDetector/PylonGridDetector.cs:164-167 | grouping an ungrouped head removes it from the ungrouped heads and can put only it on the frontier |
| `GridModel.GroupedShrinksUngrouped` | PylonGrid.Core/HeadDetector/PylonGridDetector.cs:164-167 | after an ungrouped head is grouped there are strictly fewer ungrouped heads, so the recursion terminates |
| `GridModel.GroupStep` | PylonGrid.Core/HeadDetector/PylonGridDetector.cs:169-172 | one continuation of the grouping fill keeps everything newly grouped linked to the start through heads |
| `GridModel.RisingShrinksFrontier` | PylonGrid.Core/HeadDetector/PylonGridDetector.cs:169-172 | a cell on the frontier after more grouping was already on it before, or was not yet grouped |
| `GridModel.FrontierSettles` | PylonGrid.Core/HeadDetector/PylonGridDetector.cs:169-172 | once all four neighbours are visited the start leaves the frontier for good |
| `GridModel.NoFrontierClosed` | PylonGrid.Core/HeadDetector/PylonGridDetector.cs:161-173 | with an empty frontier the grouped cells are closed under head-adjacency |
| `GridModel.FillGroupsComponent` | PylonGrid.Core/HeadDetector/PylonGridDetector.cs:161-173 | one grouping fill groups exactly the 4-connected component of heads holding its start |
| `GridModel.ScanStep` | PylonGrid.Core/HeadDetector/PylonGridDetector.cs:148-151 | after a scan step every ungrouped head lies after the cell, and every newly grouped cell is the cell or after it |
| `GridModel.ScanRowEnd` | PylonGrid.Core/HeadDetector/PylonGridDetector.cs:148-150 | at the end of a row the ungrouped heads lie beyond the row |
| `GridModel.ScanEnd` | PylonGrid.Core/HeadDetector/PylonGridDetector.cs:145-159 | at the end of the scan no head is ungrouped, and the cells grouped are exactly the heads ungrouped at the start |
| `GridModel.GroupingKeepsDiscards` | PylonGrid.Core/HeadDetector/PylonGridDetector.cs:145-159 | grouping changes no discard relation |
| `GridModel.GroupingKeepsHeads` | PylonGrid.Core/HeadDetector/PylonGridDetector.cs:145-173 | grouping keeps the discard pass's outcome: no unstable head, and a pylon is a head exactly when no neighbour discards it and exactly when its plateau does not drain |
| `GridModel.NothingGroupedYet` | PylonGrid.Core/HeadDetector/PylonGridDetector.cs:145-159 | grouping from a state with nothing grouped groups exactly the heads, and changes no range |
| `GridModel.RangesKept` | PylonGrid.Core/HeadDetector/PylonGridDetector.cs:75-81 | the discard and grouping passes change no range |
| `PylonGridDetectors.GroupHeadAcrossGrouping` | PylonGrid.Core/HeadDetector/PylonGridDetector.cs:164-172 | what a group's head says about the grid does not change as more heads are grouped |
| `PylonGridDetectors.PylonGridDetector.PylonAt` | PylonGrid.Core/HeadDetector/PylonGridDetector.cs:64-73 | the pylon of cell (r, c) sits at pixel (c*PyStep + PyStep/2, r*PyStep + PyStep/2) and is a border pylon exactly on the ring |
| `PylonGridDetectors.PylonGridDetector.constructor` | PylonGrid.Core/HeadDetector/PylonGridDetector.cs:42-53 | the spacing is max(pyStep, 3), the grid has height/spacing rows and width/spacing columns, and every pylon is placed at the furthest range, a head unless on the border |
| `PylonGridDetectors.PylonGridDetector.PlacePylons` | PylonGrid.Core/HeadDetector/PylonGridDetector.cs:55-62 | every cell gets its own fresh pylon at its pixel, in its initial state |
| `PylonGridDetectors.PylonGridDetector.PlacePylon` | PylonGrid.Core/HeadDetector/PylonGridDetector.cs:64-73 | the cell gets a fresh pylon at its pixel, a border pylon exactly on the ring, and no other cell changes |
| `PylonGridDetectors.PylonGridDetector.ProbeAt` | PylonGrid.Core/HeadDetector/PylonGridDetector.cs:98-105 | the pixel under the pylon is in the buffer; when the kernel does not fit, or the filter is the pass-through one, the range is that raw pixel; when it fits, the kernel lies in the buffer and the range is the filter's value |
| `PylonGridDetectors.PylonGridDetector.ResetPylon` | PylonGrid.Core/HeadDetector/PylonGridDetector.cs:98-105 | the pylon takes the filtered range when the kernel fits in the image and the raw pixel otherwise, and becomes an ungrouped head unless on the border |
| `PylonGridDetectors.PylonGridDetector.ResetRow` | PylonGrid.Core/HeadDetector/PylonGridDetector.cs:90-93 | the interior pylons of the row are reset from the image and nothing else changes |
| `PylonGridDetectors.PylonGridDetector.ResetCell` | PylonGrid.Core/HeadDetector/PylonGridDetector.cs:91-92 | only the pylon of the cell changes, to its frame start |
| `PylonGridDetectors.PylonGridDetector.ResetPylons` | PylonGrid.Core/HeadDetector/PylonGridDetector.cs:83-96 | every interior pylon becomes an ungrouped head on its probed range, and the border ring is left as it was |
| `PylonGridDetectors.PylonGridDetector.DropHead` | PylonGrid.Core/HeadDetector/PylonGridDetector.cs:133 | only the pylon of the cell changes: it becomes a tail |
| `PylonGridDetectors.PylonGridDetector.DiscardTailPylon` | PylonGrid.Core/HeadDetector/PylonGridDetector.cs:116-143 | only heads fall, every tail stays justified by a neighbour and grounded on a nearer pylon through tails on its range, no head becomes newly unstable, and the start is not left an unstable head |
| `PylonGridDetectors.PylonGridDetector.DiscardAround` | PylonGrid.Core/HeadDetector/PylonGridDetector.cs:132-142 | after the head is marked a tail and the fill goes east, north, west and south, the same holds from the state before the mark |
| `PylonGridDetectors.PylonGridDetector.ContinueDiscard` | PylonGrid.Core/HeadDetector/PylonGridDetector.cs:134-141 | one continuation keeps heads only falling and crosses its neighbour off the cells that may still be newly unstable |
| `PylonGridDetectors.PylonGridDetector.DiscardRow` | PylonGrid.Core/HeadDetector/PylonGridDetector.cs:110-112 | after a row no unstable head is left at or above it |
| `PylonGridDetectors.PylonGridDetector.DiscardTailPylons` | PylonGrid.Core/HeadDetector/PylonGridDetector.cs:107-114 | only heads fall, no unstable head is left, and a non-border pylon is a head exactly when no neighbour discards it, and exactly when no pylon of its plateau has a strictly nearer non-border neighbour |
| `PylonGridDetectors.PylonGridDetector.RegisterAt` | PylonGrid.Core/HeadDetector/PylonGridDetector.cs:167 | the cell becomes grouped and joins the group's members; nothing else changes |
| `PylonGridDetectors.PylonGridDetector.GroupHeadPylon` | PylonGrid.Core/HeadDetector/PylonGridDetector.cs:161-173 | only ungrouped heads become grouped; the newly grouped cells are the group's new members and are all linked to the start through heads; the frontier does not grow; a start that is not an ungrouped head changes nothing |
| `PylonGridDetectors.PylonGridDetector.GroupAround` | PylonGrid.Core/HeadDetector/PylonGridDetector.cs:169-172 | after registering the head and going north, south, west and east, the same holds from the state before the registration |
| `PylonGridDetectors.PylonGridDetector.ContinueGroup` | PylonGrid.Core/HeadDetector/PylonGridDetector.cs:169-172 | one continuation keeps everything newly grouped linked to the start and leaves its neighbour grouped or not a head |
| `PylonGridDetectors.PylonGridDetector.GroupCell` | PylonGrid.Core/HeadDetector/PylonGridDetector.cs:150-155 | a group forms exactly when the cell holds an ungrouped head; then it is the cell's whole component of heads, its members are the pylons of exactly those cells, each at its cell's pixel, and its head, with the component's range and the integer mean of those pixels, lies on the image |
| `PylonGridDetectors.PylonGridDetector.HeadsOfAppend` | PylonGrid.Core/HeadDetector/PylonGridDetector.cs:152-155 | a head from a later start with a fresh component extends the heads found |
| `PylonGridDetectors.PylonGridDetector.RecordGroup` | PylonGrid.Core/HeadDetector/PylonGridDetector.cs:150-155 | recording the group formed at the next scanned cell extends the heads found, and their union is all that was grouped |
| `PylonGridDetectors.PylonGridDetector.HeadsOfAcrossGrouping` | PylonGrid.Core/HeadDetector/PylonGridDetector.cs:148-157 | grouping more heads keeps what was found |
| `PylonGridDetectors.PylonGridDetector.HeadRangesUniform` | PylonGrid.Core/HeadDetector/PylonGridDetector.cs:150-155 | after the discard pass each head found is on the range of every pylon of its component |
| `PylonGridDetectors.PylonGridDetector.ScanCell` | PylonGrid.Core/HeadDetector/PylonGridDetector.cs:149-155 | one scan step keeps the found heads one per component, in row-major order of their starts, with every ungrouped head after the cell |
| `PylonGridDetectors.PylonGridDetector.GroupRow` | PylonGrid.Core/HeadDetector/PylonGridDetector.cs:149-156 | after a row the same holds with every ungrouped head beyond the row |
| `PylonGridDetectors.PylonGridDetector.GroupHeadPylons` | PylonGrid.Core/HeadDetector/PylonGridDetector.cs:145-159 | no head is left ungrouped, and the heads returned come one per 4-connected component of the heads that were ungrouped, components disjoint, in row-major order of their first cells; each head has its component's range and the integer mean of the pixel positions of the component's cells |
| `PylonGridDetectors.PylonGridDetector.DetectHeads` | PylonGrid.Core/HeadDetector/PylonGridDetector.cs:75-81 | each interior pylon holds the range probed under it; a non-border pylon is a head exactly when no neighbour discards it, and exactly when its plateau has no pylon with a strictly nearer non-border neighbour; the heads returned come one per 4-connected component of heads, components covering every head, each on its component's range and centred on the mean pixel of its cells |
| `PylonGridDetectors.PylonGridDetector.FrameOutcome` | PylonGrid.Core/HeadDetector/PylonGridDetector.cs:75-81 | the discard pass's result, grouped from scratch, keeps the head and plateau characterisations and gives one head per component of all the heads, each on the range of every pylon of its component |
| `PylonGridDetectors.PylonGridDetector.FrameGroups` | PylonGrid.Core/HeadDetector/PylonGridDetector.cs:145-159 | the groups found from a state with nothing grouped cover exactly the heads, and each head is on the range of every pylon of its component |
| `PylonGridDetectors.PylonGridDetector.FlatFrameOneHead` | PylonGrid.Core/HeadDetector/PylonGridDetector.cs:75-173 | a frame on one uniform range leaves every interior pylon a head and yields exactly one head, on that range, whose component is the whole interior |
| `PylonGridDetectors.PylonGridDetector.IsolatedMinimumOneHead` | PylonGrid.Core/HeadDetector/PylonGridDetector.cs:75-173 | a frame whose one nearest non-border pylon stands on a uniform background yields exactly one head: that pylon's range, centred on its pixel |
| `PylonGridDetectors.PylonGridDetector.MinimumIsOnlyHead` | PylonGrid.Core/HeadDetector/PylonGridDetector.cs:107-143 | after the discard pass, a strictly nearest pylon on a uniform background is the only head left |
| `PylonGridDetectors.PylonGridDetector.PixelPositionInImage` | PylonGrid.Core/HeadDetector/PylonGridDetector.cs:66-68 | every pylon sits on a pixel of the image |
| `PylonGridDetectors.KernelInsideImage` | PylonGrid.Core/HeadDetector/PylonGridDetector.cs:101-102 | when the kernel's square lies inside the image, the filter reads only bytes of the locked buffer |

## Left out

- `DebugVisualize` (PylonGridDetector.cs:175-195) draws pylons and heads onto a bitmap; drawing is output only and is not modelled.
- Locking and unlocking the bitmap (`LockReadOnly`, `UnlockBits`, and the rest of BitmapMethods.cs) is not modelled. `ResetPylons` and `DetectHeads` take the locked `BitmapData` directly: width, height, stride and the byte buffer.
- The console runner and stereo bitmap helpers of PylonGrid.CUI are not part of this model.
- The filters' `Quantile` property is not modelled, because the detector never reads it.
- The public setters of `FastMedian.Radius`, `Quantile` and `Step` are not modelled. Calling them after construction would leave the side and target count stale. Here all three are fixed at construction.
- `FastMedianFilter.FastMedian.constructor`: the quantile is an exact fraction quantileNum/quantileDen rounded half to even, not a `double` product rounded by `Math.Round`, so floating-point error is not modelled. It also requires radius >= 0 and step >= 1, where the source would divide by zero for step 0 and run an empty kernel for a negative radius.
- `FastMedianFilter.FastMedian.Calculate`: `Debug.Fail` when no value is found is modelled only by its fall-through result 0, not by the debugger assertion.
- 32-bit overflow is not modelled: group sums, pointer offsets and `probedArea * quantile` are unbounded integers. Bytes are the range 0..255.
- Stack depth is not modelled. The source raises the pylon spacing to at least 3 against stack overflow, and the model keeps that constant, but it proves only that both recursions terminate.
- `PylonGridDetectors.PylonGridDetector.constructor`: requires non-negative image dimensions, where the source would throw on a negative array size.
- `PylonGridDetectors.PylonGridDetector.DetectHeads`: requires a stride of at least the image width and a buffer holding all rows. This is what a locked 8-bit bitmap provides and what the source assumes without checking. It also requires the range image to have the width and height the detector was built for. The source never checks this; its one caller, PylonGrid.CUI/ConsoleRunner.cs:19-25, builds the detector from the same image's width and height. A differently sized image is outside the model.
- `PylonGridDetectors.PylonGridDetector.DiscardTailPylon`: requires every non-border tail to be justified by a neighbour, and grounded: linked through tails on its own range to a pylon with a strictly nearer non-border neighbour. The frame's reset leaves no tail at all, and each call keeps both, so they hold at every call the detector makes. The model says nothing about calls from other states, such as a plateau whose pylons are all tails with no nearer neighbour.
- `PylonGridDetectors.PylonGridDetector.DiscardTailPylons`: requires the same justified and grounded tails. Both hold right after `ResetPylons`, which leaves no non-border tail. The model says nothing about a pass started from any other state.
- `PylonGridDetectors.PylonGridDetector.GroupHeadPylon`: requires only heads to be grouped. That holds after the reset.
- `PylonGridDetectors.PylonGridDetector.GroupHeadPylons`: requires an empty frontier, meaning no grouped pylon next to an ungrouped head. That holds after the reset, when nothing is grouped.
- `PylonGridDetectors.PylonGridDetector.GroupCell`: returns a dummy head `Head(0, 0, 0)` when no group forms; the caller ignores it, as the source never builds one.
- `BitmapDataMethods.CopyGray8ToArgb`: requires distinct source and destination buffers. With a shared buffer the source's writes would overwrite bytes it has yet to read.
- The median filter interface is a closed datatype of the two filters in the repository, not an open interface.
- `CoupleModel`, `ResetRow`, `ResetCell`, `DropHead`, `DiscardAround`, `ContinueDiscard`, `DiscardRow`, `RegisterAt`, `GroupAround`, `ContinueGroup`, `GroupCell`, `ScanCell`, `GroupRow`, `CountKernel` and `CountRow` have no method of their own in the source. Each is one step, or one loop level, of a source method, split out so that each proof stays small. They run the same statements in the same order.

## Findings

| source | as written | input that shows it | evidently intended | confidence | as-written member | corrected member |
|---|---|---|---|---|---|---|
| PylonGrid.Core/MedianFilter/FastMedian.cs:68 | after each sampled row the pointer moves on by `Step*stride - _Side`, as if the row walk had advanced `_Side` bytes; it advanced ceil(Side/Step)*Step bytes, so when Step does not divide Side each row drifts right and the walk can leave the buffer | 12x12 image, stride 12, radius 4, step 2, pixel (7, 7): the kernel lies inside the image, yet the last sample is read at offset 147 of the 144-byte buffer instead of 143 | move on by `Step*stride - ceil(Side/Step)*Step`, so that sampled row j starts at row minY + j*Step, column minX | not executed | `FastMedianFilter.WalkReadsPastBuffer` | `FastMedianFilter.FastMedian.CountKernel` |

`FastMedianFilter.WalkDrift` gives the drift of the walk as written for every
row, and `FastMedianFilter.WalkExactWhenStepDividesSide` shows that it
disappears when Step divides the side, as it always does for Step 1.
`CountKernel` walks with the corrected increment. It is proved to count
exactly the kernel's samples, and `KernelOffsetInBuffer` shows every one of
them lies in the buffer.
