# Emphasis.ComputerVision text detection: integer and array core

This project is a Dafny model of the integer and array logic of the unoptimised
text-detection pipeline in `UnoptimizedAlgorithms`. These are the steps that
turn an image into labelled, measured and filtered candidate text components:

- **Pixel helpers:** the `IsSameColor` channel-tolerance tests, `PixelAt`,
  `ModOverflow`, `Clamp`, `ClampToEdge`, and the atomic minimum and maximum.
- **Image passes:** the integer grey conversion `GrayscaleEq`, the paired merge
  sort `Sort`, the prefix-sum box blur (`LinePrefixSum`, `BoxBlur`), the
  window-vote `Background` estimate, and the two 2x enlargements.
- **Labelling:** `PrepareComponents` and `IndexComponents`, the stroke-width
  rule `ColorComponentByStrokeWidth` with its three fixed-point drivers
  (watershed, fixed point, fixed point with back-propagation), and the
  colour-similarity rule `ColorComponentByColorSimilarity` with its driver.
- **Analysis and filters:** `ComponentAnalysis`, which gathers a labelling into
  `Component` records, and the three component filters.
- **Small helpers:** `Median` and the `ReplaceEquals`,
  `ReplaceGreaterOrEquals` and `MultiplyBy` array helpers.

How the source is represented:

- C# `int` and `byte` values are the subset types `int32` and `byte`.
- Unchecked 32-bit overflow is written out with `Wrap32` wherever it can occur.
- Arrays the source mutates are Dafny `array`s. Each method states the array's
  whole new contents, in terms of a specification function of the old
  contents.
- A `Span<int>` is modelled as a range `[lo, hi)` of an array.
- A `ref int` argument is modelled as the value passed in plus the value
  returned to be stored back.
- `Component` is a C# struct kept in an array, so it is a value (a
  `datatype`) held in an `array<Component>`.

## Model

All source paths are in `src/Emphasis.ComputerVision/UnoptimizedAlgorithms.cs`.

| member | source | states |
|---|---|---|
| PixelOps.ModOverflow | src/Emphasis.ComputerVision/UnoptimizedAlgorithms.cs:1066-1071 | for `0 <= i < 2*mod` the result is `i % mod`; below `mod` it is `i` itself |
| PixelOps.Clamp | src/Emphasis.ComputerVision/UnoptimizedAlgorithms.cs:1862-1869 | moves the value by at most one, except that at `max == int.MinValue + 1` the 32-bit `max - 2` sends `int.MinValue` to `int.MaxValue`; for `max >= 3` an index of `[0, max)` lands in `[1, max-2]`; interior values stay |
| PixelOps.ClampToEdge | src/Emphasis.ComputerVision/UnoptimizedAlgorithms.cs:1853-1860 | for a non-empty range the result is an index of it and in-range indexes stay; for an empty range a non-negative index gives the negative `length - 1` |
| PixelOps.ClampToEdgeNearest | src/Emphasis.ComputerVision/UnoptimizedAlgorithms.cs:1853-1860 | no index of `[0, length)` is nearer to `i` than the clamped one |
| PixelOps.AtomicMin | src/Emphasis.ComputerVision/UnoptimizedAlgorithms.cs:1719-1732 | stores one of the two values, at most both; a larger proposal leaves the location unchanged |
| PixelOps.AtomicMax | src/Emphasis.ComputerVision/UnoptimizedAlgorithms.cs:1734-1747 | stores one of the two values, at least both; a smaller proposal leaves the location unchanged |
| PixelOps.IsSameColorInBufferSpec | src/Emphasis.ComputerVision/UnoptimizedAlgorithms.cs:293-306 | two pixels of one buffer match exactly when every channel differs by at most the tolerance |
| PixelOps.IsSameColorAt | src/Emphasis.ComputerVision/UnoptimizedAlgorithms.cs:308-321 | a pixel matches pixel `i1` of a byte buffer exactly when every channel is within tolerance |
| PixelOps.IsSameColorPixels | src/Emphasis.ComputerVision/UnoptimizedAlgorithms.cs:323-336 | two pixels match exactly when every channel is within tolerance |
| PixelOps.IsSameColorWithDifference | src/Emphasis.ComputerVision/UnoptimizedAlgorithms.cs:338-354 | the flag is the tolerance test; on a match the difference is the sum over all channels, otherwise the sum over the channels before the first one out of tolerance |
| PixelOps.DifferenceBound | src/Emphasis.ComputerVision/UnoptimizedAlgorithms.cs:338-354 | a matching pixel's colour difference is at most channels times the tolerance |
| PixelOps.IsSameColorInts | src/Emphasis.ComputerVision/UnoptimizedAlgorithms.cs:356-369 | a byte pixel matches entry `i1` of an `int` buffer exactly when every channel is within tolerance |
| PixelOps.PixelAt | src/Emphasis.ComputerVision/UnoptimizedAlgorithms.cs:1384-1389 | the first `channels` bytes of `pixel` become the source pixel at (x, y); the rest of `pixel` is unchanged |
| Grey.GreyLevel | src/Emphasis.ComputerVision/UnoptimizedAlgorithms.cs:46-52 | the grey level lies between the least and the greatest of the three channels; a grey pixel keeps its level |
| Grey.GreyNeverCapped | src/Emphasis.ComputerVision/UnoptimizedAlgorithms.cs:51 | the `Math.Min(255, ...)` cap never applies: the level is the truncated mean |
| Grey.GrayscaleEq | src/Emphasis.ComputerVision/UnoptimizedAlgorithms.cs:39-55 | every pixel's byte `y*w + x` holds its grey level; bytes past the image are unchanged |
| PairSort.Sort | src/Emphasis.ComputerVision/UnoptimizedAlgorithms.cs:57-117 | the (key, value) pairs of the range become `SortPairs` of the old pairs: keys sorted, the same multiset of pairs, and for every key its values in their old order (stable); nothing outside the range changes |
| PairSort.SortPairsSorted | src/Emphasis.ComputerVision/UnoptimizedAlgorithms.cs:57-117 | the merge sort's result is sorted by key |
| PairSort.SortPairsPermutes | src/Emphasis.ComputerVision/UnoptimizedAlgorithms.cs:57-117 | the merge sort's result is a permutation of its input |
| PairSort.SortPairsStable | src/Emphasis.ComputerVision/UnoptimizedAlgorithms.cs:57-117 | for every key, the pairs with that key keep their relative order |
| PairSort.MergeSorted | src/Emphasis.ComputerVision/UnoptimizedAlgorithms.cs:100-116 | merging two key-sorted halves gives a key-sorted sequence |
| PairSort.MergeStable | src/Emphasis.ComputerVision/UnoptimizedAlgorithms.cs:102-116 | taking from the left half on ties puts each key's left entries before its right entries |
| PairSort.ZipSorted | src/Emphasis.ComputerVision/UnoptimizedAlgorithms.cs:57-117 | the pairs are key-sorted exactly when the key span is sorted |
| MedianOf.Median | src/Emphasis.ComputerVision/UnoptimizedAlgorithms.cs:1749-1759 | with `sort` the list becomes its sorted permutation, otherwise it is unchanged; an empty list gives the out-of-range error; otherwise the result is the entry at `(n-1)/2` |
| MedianOf.SortedListSorted | src/Emphasis.ComputerVision/UnoptimizedAlgorithms.cs:1752 | the sorted list is sorted; `SortedList` itself keeps length and multiset |
| MedianOf.SortedUnique | src/Emphasis.ComputerVision/UnoptimizedAlgorithms.cs:1752 | two sorted permutations of one list are equal, so `SortedList` is the sort |
| MedianOf.LowerMedianSplits | src/Emphasis.ComputerVision/UnoptimizedAlgorithms.cs:1755-1758 | in a sorted list the entry at `mid` is at least everything before and at most everything after, with at least half of the entries on each side |
| MedianOf.MidIsLowerMedian | src/Emphasis.ComputerVision/UnoptimizedAlgorithms.cs:1755-1757 | the source's `mid` is `(n-1)/2` and is an index exactly when the list is not empty |
| BoxFilter.LinePrefixSum | src/Emphasis.ComputerVision/UnoptimizedAlgorithms.cs:119-135 | entry `d` of the prefix buffer is the 32-bit wrap of the exact total of the channel's bytes at and before `d`; entries past the image are unchanged |
| BoxFilter.BoxBlur | src/Emphasis.ComputerVision/UnoptimizedAlgorithms.cs:137-164 | every output byte is `BoxPixel`, the source's formula over the clipped window; bytes past the image are unchanged |
| BoxBlurFacts.PrefixExact | src/Emphasis.ComputerVision/UnoptimizedAlgorithms.cs:119-135 | when the image total fits in 32 bits, the stored prefix equals the exact prefix total |
| BoxBlurFacts.WindowSumExact | src/Emphasis.ComputerVision/UnoptimizedAlgorithms.cs:150-157 | the sum of per-row prefix differences equals the exact sum of the window rectangle |
| BoxBlurFacts.RectSumWithin | src/Emphasis.ComputerVision/UnoptimizedAlgorithms.cs:150-157 | a rectangle whose entries lie in `[lo, hi]` sums to between `lo` and `hi` times its area |
| BoxBlurFacts.BoxPixelOfImage | src/Emphasis.ComputerVision/UnoptimizedAlgorithms.cs:141-160 | the blurred byte is `Min(255, rectangle sum / ((y2-y1)*(x2-x1)))` over the clipped window, as written |
| BoxBlurFacts.BoxPixelMeanOfImage | src/Emphasis.ComputerVision/UnoptimizedAlgorithms.cs:141-160 | the corrected blurred byte is the rectangle sum divided by its true area `(y2-y1+1)*(x2-x1)` |
| BoxBlurFacts.BoxPixelMeanWithin | src/Emphasis.ComputerVision/UnoptimizedAlgorithms.cs:141-160 | the corrected blur of a window whose bytes lie in `[lo, hi]` lies in `[lo, hi]` |
| BoxBlurFacts.UniformBlurOvershoots | src/Emphasis.ComputerVision/UnoptimizedAlgorithms.cs:159 | on a uniform 3x3 image of 100 the formula as written gives 150 at the centre |
| BoxBlurFacts.UniformBlurMean | src/Emphasis.ComputerVision/UnoptimizedAlgorithms.cs:159 | on the same image the corrected formula gives 100 |
| BackgroundFilter.Background | src/Emphasis.ComputerVision/UnoptimizedAlgorithms.cs:166-291 | every output pixel is `BackgroundValue`, the copy of the window pixel `BackgroundCell` chooses; bytes past the image are unchanged |
| BackgroundWindow.ChosenIsBest | src/Emphasis.ComputerVision/UnoptimizedAlgorithms.cs:212-276 | the chosen entry is the first one with more than half of `ws*ws` votes if there is one; otherwise it has the most votes and every earlier entry has fewer |
| BackgroundWindow.BackgroundCellIs | src/Emphasis.ComputerVision/UnoptimizedAlgorithms.cs:206-284 | the copied cell is the position stored with the chosen sorted entry |
| BackgroundWindow.RunEndSorted | src/Emphasis.ComputerVision/UnoptimizedAlgorithms.cs:217-231 | the grey-level run of entry `k` ends at the last entry less than 50 above it |
| BackgroundWindow.VotesPositive | src/Emphasis.ComputerVision/UnoptimizedAlgorithms.cs:250-267 | every voting entry votes for itself, so its count is at least one |
| Enlarge.Entry | src/Emphasis.ComputerVision/UnoptimizedAlgorithms.cs:371-423 | entry (0, 0) of a block is the source pixel; an interpolated entry lies between the pixel and its neighbour; a copied entry is the pixel |
| Enlarge.Enlarge2 | src/Emphasis.ComputerVision/UnoptimizedAlgorithms.cs:398-423 | every block of the first `height-1` rows and `width-1` columns is four copies of its source pixel; every other destination byte is unchanged |
| Enlarge.Enlarge2Interpolated | src/Emphasis.ComputerVision/UnoptimizedAlgorithms.cs:371-396 | every block of the first `height-1` rows and `width-1` columns holds the source pixel and its means with the right, lower and diagonal neighbours; every other byte is unchanged |
| Enlarge.Enlarge2MissesLastRow | src/Emphasis.ComputerVision/UnoptimizedAlgorithms.cs:400-402 | a byte of the last destination row is outside every block the loops write, and inside the blocks of a full pass |
| Enlarge.Enlarge2Whole | src/Emphasis.ComputerVision/UnoptimizedAlgorithms.cs:398-423 | the corrected pass writes the blocks of all `height` rows and `width` columns |
| Labelling.PrepareComponents | src/Emphasis.ComputerVision/UnoptimizedAlgorithms.cs:1047-1055 | pixel `i` gets label `i` when it has a stroke width, else the 32-bit `n + i`; entries past `swt` are unchanged |
| Labelling.IndexComponents | src/Emphasis.ComputerVision/UnoptimizedAlgorithms.cs:1057-1064 | every pixel gets its own index as label |
| Labelling.PreparedIsLabelled | src/Emphasis.ComputerVision/UnoptimizedAlgorithms.cs:1047-1055 | the prepared labels are a valid starting labelling, and `ModOverflow(s[i], n)` recovers `i` |
| Labelling.PreparedIsTied | src/Emphasis.ComputerVision/UnoptimizedAlgorithms.cs:1047-1064 | the prepared and the indexed labellings tie every label to a pixel its pixel reaches, for any step relation |
| Labelling.FollowFour | src/Emphasis.ComputerVision/UnoptimizedAlgorithms.cs:1131-1134 | the four hops `cn = coloring[ModOverflow(cn, n)]` equal `Follow` of four hops, which stays at or below the start and ends on a root |
| Labelling.ColorComponentByStrokeWidth | src/Emphasis.ComputerVision/UnoptimizedAlgorithms.cs:1191-1234 | returns `StrokeNeighbourMin`, the least of the pixel's own label and the labels of its stroke-joined neighbours |
| Labelling.StrokeNeighbourMinSpec | src/Emphasis.ComputerVision/UnoptimizedAlgorithms.cs:1200-1233 | the result is at most the own label and every joined neighbour's label, equals one of them, and is the own label for a pixel without stroke width |
| Labelling.JoinedSymmetric | src/Emphasis.ComputerVision/UnoptimizedAlgorithms.cs:1223-1228 | the stroke-width join of two neighbours holds in both directions |
| Labelling.StrokeStepFacts | src/Emphasis.ComputerVision/UnoptimizedAlgorithms.cs:1085-1183 | one pixel update keeps the labelling valid and never raises a label; it changes nothing exactly when the pixel is stable; otherwise it strictly lowers the label sum |
| Labelling.StrokeStepTied | src/Emphasis.ComputerVision/UnoptimizedAlgorithms.cs:1085-1183 | one pixel update keeps every label tied to a pixel reached by a chain of stroke-joined neighbours |
| Labelling.ColorComponentsWatershed | src/Emphasis.ComputerVision/UnoptimizedAlgorithms.cs:1073-1104 | ends after at least one round with a stable labelling, no label raised, and labels still tied to reachable pixels if they were |
| Labelling.ColorComponentsFixedPoint | src/Emphasis.ComputerVision/UnoptimizedAlgorithms.cs:1106-1144 | from a valid labelling, ends with a valid, stable labelling, no label raised, and labels still tied if they were |
| Labelling.ColorComponentsFixedPointBackPropagation | src/Emphasis.ComputerVision/UnoptimizedAlgorithms.cs:1146-1189 | the same for the driver that also lowers the old label's root |
| Labelling.StrokeDriver | src/Emphasis.ComputerVision/UnoptimizedAlgorithms.cs:1079-1101 | the shared round loop: keeps its rule's invariant and ends stable, lowered and tied |
| Labelling.StableJoinedEqual | src/Emphasis.ComputerVision/UnoptimizedAlgorithms.cs:1191-1234 | in a stable labelling two stroke-joined neighbours have the same label |
| Labelling.StableTiedComponents | src/Emphasis.ComputerVision/UnoptimizedAlgorithms.cs:1106-1144 | in a stable, tied labelling two pixels have the same label exactly when a chain of stroke-joined neighbours links them |
| Labelling.UnjoinedMergeNotTied | src/Emphasis.ComputerVision/UnoptimizedAlgorithms.cs:1223-1228 | on a 2x1 image with widths 1 and 100, giving both pixels label 0 is not a tied labelling |
| Similarity.ColorComponentByColorSimilarity | src/Emphasis.ComputerVision/UnoptimizedAlgorithms.cs:1286-1382 | returns `SimilarityMin`; the component records become `MergeParents` of the old ones |
| Similarity.SimilarityMinSpec | src/Emphasis.ComputerVision/UnoptimizedAlgorithms.cs:1286-1382 | the result is at most the own label, and is either the own label or the label of a stroke-joined or colour-matching neighbour; a background pixel only takes stroke-joined labels |
| Similarity.StrokeJoinBound | src/Emphasis.ComputerVision/UnoptimizedAlgorithms.cs:1286-1382 | the result is at most every stroke-joined neighbour's label |
| Similarity.MostSimilarBound | src/Emphasis.ComputerVision/UnoptimizedAlgorithms.cs:1286-1382 | the result is at most the label of every colour match with the least colour difference |
| Similarity.SimilarityOfferIsLabel | src/Emphasis.ComputerVision/UnoptimizedAlgorithms.cs:1286-1382 | a lower result names a root pixel of the labelling |
| Similarity.SimilarityWriteFacts | src/Emphasis.ComputerVision/UnoptimizedAlgorithms.cs:1260-1278 | one pixel update keeps every label rooted and never raises a label; it changes nothing exactly when the pixel is at rest; otherwise it lowers the label sum |
| Similarity.SimilarityWriteTied | src/Emphasis.ComputerVision/UnoptimizedAlgorithms.cs:1260-1278 | one pixel update keeps every label tied to a pixel reached by stroke joins and colour matches |
| Similarity.SimilarityPixel | src/Emphasis.ComputerVision/UnoptimizedAlgorithms.cs:1260-1278 | the labelling becomes `SimilarityWrite` of the old one, the records `MergeParents`; reports a write exactly when the pixel was not at rest; keeps labels tied |
| Similarity.SimilaritySweep | src/Emphasis.ComputerVision/UnoptimizedAlgorithms.cs:1255-1280 | a sweep with no write leaves a stable labelling; a sweep with a write lowers the label sum; labels stay rooted, lowered and tied |
| Similarity.ColorComponentsFixedPointByColorSimilarity | src/Emphasis.ComputerVision/UnoptimizedAlgorithms.cs:1236-1284 | ends after at least one round with a rooted, similarity-stable labelling; no label and no `ParentColoring` raised; labels still tied if they were |
| Similarity.MergeLowers | src/Emphasis.ComputerVision/UnoptimizedAlgorithms.cs:1373-1379 | both the written and the corrected merge only lower `ParentColoring` |
| Similarity.MergeSkipsComponentZero | src/Emphasis.ComputerVision/UnoptimizedAlgorithms.cs:1377 | a pixel of component 0 that wants a merge leaves the records unchanged, while the corrected merge lowers component 0's parent |
| Similarity.MergeIntendedSpec | src/Emphasis.ComputerVision/UnoptimizedAlgorithms.cs:1373-1379 | the corrected merge brings the component's parent down to the new label, and agrees with the written one except for component 0 |
| Analysis.SeenIffTaken | src/Emphasis.ComputerVision/UnoptimizedAlgorithms.cs:1420-1437 | a label gets a component exactly when some earlier pixel takes part with that label |
| Analysis.FirstSeenDistinct | src/Emphasis.ComputerVision/UnoptimizedAlgorithms.cs:1427-1437 | components are numbered by distinct labels, each naming a pixel |
| Analysis.SamplesBound | src/Emphasis.ComputerVision/UnoptimizedAlgorithms.cs:1440-1453 | a component keeps fewer than `componentSizeLimit` stroke-width samples, at most one per taking pixel |
| Analysis.SamplesInOrder | src/Emphasis.ComputerVision/UnoptimizedAlgorithms.cs:1444-1451 | the stored sample pixels are earlier pixels, in increasing scan order |
| Analysis.SlotInjective | src/Emphasis.ComputerVision/UnoptimizedAlgorithms.cs:1444-1450 | slot `ci * componentSizeLimit + m` names one (component, sample) pair |
| Analysis.VisitSummarises | src/Emphasis.ComputerVision/UnoptimizedAlgorithms.cs:1420-1467 | one pixel of the scan keeps the buffers equal to the closed-form records of the pixels seen |
| Analysis.StopsOverflow | src/Emphasis.ComputerVision/UnoptimizedAlgorithms.cs:1430-1432 | when the scan gives up, the image has more than `componentsLimit` labels |
| Analysis.SummaryWithin | src/Emphasis.ComputerVision/UnoptimizedAlgorithms.cs:1414-1437 | while scanning, `count + 1` is the number of labels seen, at most `componentsLimit` |
| AnalysisFinish.FinishSwtSpec | src/Emphasis.ComputerVision/UnoptimizedAlgorithms.cs:1482-1495 | finishing a component writes the root's width to slot 0 and sorts the first `swtSize` slots, leaving all other slots |
| AnalysisFinish.FinishedComponent | src/Emphasis.ComputerVision/UnoptimizedAlgorithms.cs:1473-1515 | each finished record is the closed-form `Final` record of its label, with the root in slot 0, the samples in their slots and the widths sorted |
| AnalysisFinish.FinishedAnalysed | src/Emphasis.ComputerVision/UnoptimizedAlgorithms.cs:1471-1517 | the buffers after both loops are `Analysed`: every component's record, items and sorted widths as the closed forms give them |
| AnalysisFinish.DivTruncWithin | src/Emphasis.ComputerVision/UnoptimizedAlgorithms.cs:1512 | the truncating channel average stays in `int` range and below a non-negative sum |
| AnalysisPass.ComponentAnalysis | src/Emphasis.ComputerVision/UnoptimizedAlgorithms.cs:1391-1518 | returns the number of distinct labels, capped at `componentsLimit`; on giving up the buffers hold the scan so far; otherwise they are `Analysed` |
| AnalysisPass.Prepare | src/Emphasis.ComputerVision/UnoptimizedAlgorithms.cs:1405-1411 | the index buffer is all `-1` and the first `componentsLimit` records are initialised: the empty summary |
| AnalysisPass.Scan | src/Emphasis.ComputerVision/UnoptimizedAlgorithms.cs:1413-1469 | either gives up with `count == componentsLimit`, or ends with the buffers summarising every pixel |
| AnalysisPass.AnalysePixel | src/Emphasis.ComputerVision/UnoptimizedAlgorithms.cs:1420-1467 | gives up exactly when the pixel would open component `componentsLimit`, otherwise performs one `Visit` |
| AnalysisPass.CountPixel | src/Emphasis.ComputerVision/UnoptimizedAlgorithms.cs:1439-1467 | the buffers become `Count` of the old ones: size, sample, box and channel sums of one pixel |
| AnalysisPass.FinishAll | src/Emphasis.ComputerVision/UnoptimizedAlgorithms.cs:1473-1515 | from a full summary, the second loop leaves the buffers `Analysed` |
| AnalysisPass.FinishComponent | src/Emphasis.ComputerVision/UnoptimizedAlgorithms.cs:1475-1514 | the buffers become `FinishAt` of the old ones |
| AnalysisPass.SortSlots | src/Emphasis.ComputerVision/UnoptimizedAlgorithms.cs:1493 | the range `[offset, offset + swtSize)` is sorted in place and nothing else changes |
| AnalysisPass.Averages | src/Emphasis.ComputerVision/UnoptimizedAlgorithms.cs:1508-1514 | the channel averages are the truncated quotients of the sums by the size |
| Filters.TextDetectionFilter1 | src/Emphasis.ComputerVision/UnoptimizedAlgorithms.cs:1520-1549 | returns `max(count, 0)` and changes no component |
| Filters.DefaultFilter | src/Emphasis.ComputerVision/UnoptimizedAlgorithms.cs:1551-1581 | returns the number of the first `count` components that pass all three tests; the others get `Validity = -1`; nothing else changes |
| Filters.DefaultFilterTwice | src/Emphasis.ComputerVision/UnoptimizedAlgorithms.cs:1570-1577 | filtering again changes nothing and counts the same |
| Filters.CountDefaultAll | src/Emphasis.ComputerVision/UnoptimizedAlgorithms.cs:1557-1580 | the count is at most the number of components, and equals it exactly when every component passes |
| Filters.PassiveFilter | src/Emphasis.ComputerVision/UnoptimizedAlgorithms.cs:1583-1613 | each of the first `count` components gets the bit of every test it fails; returns how many are then valid; nothing else changes |
| Filters.PassiveValid | src/Emphasis.ComputerVision/UnoptimizedAlgorithms.cs:1601-1609 | a marked component is valid exactly when it was valid and passes all three tests |
| Filters.PassiveCount | src/Emphasis.ComputerVision/UnoptimizedAlgorithms.cs:1589-1612 | for valid inputs, the returned count is the number passing all three tests |
| Filters.PassiveFilterTwice | src/Emphasis.ComputerVision/UnoptimizedAlgorithms.cs:1601-1606 | marking twice is marking once |
| ComponentRecord.SetBit | src/Emphasis.ComputerVision/UnoptimizedAlgorithms.cs:1602-1606 | or-ing a flag bit into `Validity` sets that bit and keeps the other flag bits; a set bit leaves the value as it is |
| ArrayOps.ReplaceEquals | src/Emphasis.ComputerVision/UnoptimizedAlgorithms.cs:1888-1913 | returns a fresh copy with every entry equal to `value` replaced by `result` and the others kept (byte and int overloads) |
| ArrayOps.ReplaceGreaterOrEqualsBytes | src/Emphasis.ComputerVision/UnoptimizedAlgorithms.cs:1930-1941 | returns a fresh copy with every entry at least `value` replaced by `result` |
| ArrayOps.ReplaceGreaterOrEqualsInts | src/Emphasis.ComputerVision/UnoptimizedAlgorithms.cs:1944-1955 | the same for `int` arrays |
| ArrayOps.MultiplyBy | src/Emphasis.ComputerVision/UnoptimizedAlgorithms.cs:1972-1982 | returns a fresh copy with every entry multiplied by `value`, wrapped to 32 bits |
| ArrayOps.ReplacedEqualIdempotent | src/Emphasis.ComputerVision/UnoptimizedAlgorithms.cs:1888-1913 | replacing twice is replacing once |
| ArrayOps.ReplacedEqualUndo | src/Emphasis.ComputerVision/UnoptimizedAlgorithms.cs:1888-1913 | when `result` does not occur, replacing `result` by `value` undoes the replacement |
| ArrayOps.ReplacedAtLeastIdempotent | src/Emphasis.ComputerVision/UnoptimizedAlgorithms.cs:1930-1955 | afterwards every entry is below `value` or is `result`, and replacing again changes nothing |
| ArrayOps.ReplacedAtLeastCaps | src/Emphasis.ComputerVision/UnoptimizedAlgorithms.cs:1930-1955 | when `result < value`, every entry ends below `value` |
| ArrayOps.MultipliedTwice | src/Emphasis.ComputerVision/UnoptimizedAlgorithms.cs:1972-1982 | multiplying by `a` then `b` is multiplying by the wrapped `a*b` |
| ArrayOps.MultipliedByOne | src/Emphasis.ComputerVision/UnoptimizedAlgorithms.cs:1972-1982 | multiplying by one changes nothing |
| ArrayOps.MultipliedWraps | src/Emphasis.ComputerVision/UnoptimizedAlgorithms.cs:1978 | the product wraps: `0x40000000 * 2` is `int.MinValue` |

## Left out

- Floating point: the statistics `SizeRatio`, `Diameter`, `SwtAverage`, `SwtVariance` and `DiameterToSwtMedianRatio` are reals. The filters compare them exactly, with no `float` rounding.
- AnalysisPass.ComponentAnalysis does not compute the floating-point statistics (lines 1489-1506, including `Hypot`). They keep their values. The integer fields, samples and averages are modelled in full.
- Concurrency: `Interlocked` operations and the compare-and-swap loops of `AtomicMin`/`AtomicMax` run as one thread. The `ref int` location is a value passed in and a value returned.
- `List<int>.Sort` in `Median` and `Array.Sort` in `ComponentAnalysis` are library calls. They are modelled by their result, the sorted permutation `SortedList`.
- `Component.Initialize`, `IsValid` and the validity bit values are not part of this model. They are stated as explicit constants in `ComponentRecord`.
- Read-only image inputs (`source`, `swt`, `coloring` in the analysis) are taken as values (`Frame`, `Scene`). The model does not capture aliasing between them and the buffers written; the methods require the buffers to be distinct.
- BackgroundFilter.Background does not keep the source's `hist` buffer. It is only written (line 245), never read, so the output does not depend on it. Its five other stack buffers are arrays allocated once per call.
- The floating-point passes are outside this model: `Grayscale` (21-37), `Gauss`, `Sobel3`, `Sobel5`, `GradientAngle`, `Gradient`, `GradientNeighbors`, `NonMaximumSuppression`, both `StrokeWidthTransform` overloads, `Hypot`, both `Normalize` overloads, and the `float` overloads of `ReplaceEquals` and `ReplaceGreaterOrEquals`.
- `Dump` writes to the console, so it is left out as I/O.
- `ComponentRBush` and `RemoveBoxes` (lines 1633-1662) are left out because they rest on the external RBush spatial index (`BulkLoad`, `Search`) and on `Box2D` and `Component` members (`BoundingBox`, `Envelope`, `Contains`) that are not part of this model. `RemoveBoxes` has logic of its own: it sets `Validity = 0` on a valid component whose box contains more than two other components' boxes. `MergeComponents` (lines 1664-1717) only queries the index and computes local values, so it changes nothing and has no effect to model.
- BoxFilter.BoxBlur requires `Blurrable`, which excludes a window radius below 1 and an image one pixel wide or high. With radius 0, or a radius of at least 1 on a one-pixel side, the window area at line 159 is zero and the source throws `DivideByZeroException`. A negative radius `-r` does not throw: `x2 - x1` and `y2 - y1` are both `-2r`, the row loop from `y + r` down to `y - r` is empty, and every byte becomes 0 (for `r < 2^15`, where `4r²` does not wrap). Neither the throw nor the negative-radius output is modelled. It also requires the coordinates plus the radius to stay within 32 bits.
- BackgroundFilter.Background requires `ws >= 1`. With a window size of 0 the source reads `indexes[hi]` of an empty span at line 281 and throws; the model does not represent that throw. It also requires `ws * ws` to stay within 32 bits.
- PixelOps.IsSameColorInts requires every compared `int` entry to exceed `int.MinValue + 255`. Below that bound, `pixel[c] - other[i1 + c]` at line 361 wraps, and `Math.Abs(int.MinValue)` throws `OverflowException`; the model covers neither.
- AnalysisPass.ComponentAnalysis requires `Analysis.Fits`: `componentSizeLimit >= 1`, non-negative labels, buffers of a full image, at most four source channels, and distinct arrays. The source also accepts `componentSizeLimit == 0`, where every pixel skips its sample and all roots share slot 0; a negative label throws at line 1427. Neither case is modelled. Its `componentsLimit` is a `nat`. The source also accepts a negative `componentsLimit`: the first component opened gets `ci = 0 >= componentsLimit` and the call returns 0 (line 1432), and an image with no component also returns 0. That case is not modelled.
- Filters.TextDetectionFilter1, Filters.DefaultFilter and Filters.PassiveFilter require `count <= componentList.Length`. Beyond it the source throws `IndexOutOfRangeException`, which is not modelled.
- Labelling.ColorComponentsWatershed and the other drivers promise the tying of labels to reachable pixels only for a labelling that is tied on entry, as `PrepareComponents` and `IndexComponents` labellings are (`PreparedIsTied`).
- Buffer sizes: every method requires its arrays to be large enough for the indexes the source computes. A too-short array makes the source throw `IndexOutOfRangeException`, which is not modelled.
- Labelling.ColorComponentsFixedPoint, Labelling.ColorComponentsFixedPointBackPropagation and Similarity.ColorComponentsFixedPointByColorSimilarity require a rooted start (`Labelled` or `Rooted`): every label is non-negative, and a label below `n` names a pixel whose own label is at most it. That is what `PrepareComponents` and `IndexComponents` produce (`PreparedIsLabelled`). From an unrooted labelling the source's four hops can raise a label and need never settle. Take a 3x1 image with `swt = [1, 1, 1]` and `coloring = [2, 0, 1]`. In the first sweep, pixel 0 is offered 0, its hops 0, 2, 1, 0 write 2 back, and pixel 2 is raised from 1 to 2. From `[2, 0, 2]`, every sweep rewrites pixels 0 and 2 with 2 and clears `isColored`, so the loops at lines 1121-1139 and 1164-1185 never end. The similarity driver's loop (lines 1252-1280) does the same four hops, and its offer is at most every stroke-joined neighbour's label, so the same input keeps it writing too. Unrooted starts are not modelled.
- Labelling termination: from the rooted starts those drivers require (and from any start for `ColorComponentsWatershed`), every driver terminates because each round that writes strictly lowers the sum of labels. The round count is not bounded further.

## Findings

| source | as written | input that shows it | evidently intended | confidence | as-written member | corrected member |
|---|---|---|---|---|---|---|
| src/Emphasis.ComputerVision/UnoptimizedAlgorithms.cs:159 | the window sum covers rows `y1..y2` (`y2-y1+1` rows) but is divided by `(y2-y1)*(x2-x1)` | a uniform 3x3 single-channel image of 100 with window radius 1: the centre blurs to 150 | divide by the rows actually summed, `(y2-y1+1)*(x2-x1)`, so a uniform image stays uniform and the blur stays within the window's range | high (not executed) | BoxBlurFacts.UniformBlurOvershoots | BoxBlurFacts.UniformBlurMean |
| src/Emphasis.ComputerVision/UnoptimizedAlgorithms.cs:1377 | the merge test `ci0 > 0` skips component 0, yet components are numbered from 0 (`count` starts at -1 and is incremented before use, lines 1414 and 1430) | any pixel of component 0 whose colour match offers a lower label: the records are left unchanged | test `ci0 >= 0`, so component 0's `ParentColoring` is lowered like the others | medium (not executed) | Similarity.MergeSkipsComponentZero | Similarity.MergeIntendedSpec |
| src/Emphasis.ComputerVision/UnoptimizedAlgorithms.cs:400 | `Enlarge2` loops over `y < height - 1` and `x < width - 1`; it copies without reading neighbours, yet it skips the last source row and column | any image with `height >= 1`: every byte of the last destination row is never written | loop over all `height` rows and `width` columns, as the plain copy needs no neighbour | medium (not executed) | Enlarge.Enlarge2MissesLastRow | Enlarge.Enlarge2Whole |

The labelling, blur and enlargement methods follow the source as written. The
corrected definitions carry the intended property:

- `BoxPixelMean` with `UniformBlurMean` and `BoxPixelMeanWithin` for the blur;
- `MergeParentsIntended` with `MergeIntendedSpec` for the merge;
- `Enlarge2Whole` for the enlargement.
