# TracerBench statistics helpers and mark-wait errors, in Dafny

This project models two pieces of TracerBench.

The first is the `Stats` class of the statistics package, which compares a control sample array with an experiment sample array. The model covers:

- the constructor's in-place sort and sample counts;
- the overall range of both arrays (`getRange`);
- the inter-quartile-range outlier fences (`getOutliers`);
- the significance flag of a confidence interval (`isSig` in `getConfidenceInterval`);
- the eight-glyph sparkline (`getSparkline`);
- the histogram buckets (`getBuckets`).

The second is the error that `waitForMark` raises when waiting for a performance mark fails (`waitForMarkError`).

Samples are exact `real`s. `Math.floor` is `.Floor`, and `Math.round(x)` is `(x + 0.5).Floor`, which rounds halves towards +Infinity as JavaScript does. `Math.min()` and `Math.max()` of no arguments are +Infinity and -Infinity. The model represents that pair as `StatsRange.EmptyRange`, and `getBuckets` lays out no buckets over it.

Modules:

- `JsMath` (`js_math.dfy`): `Math.round`, `Math.pow(2, n)`, `Math.min`/`Math.max` over a list, and a lemma that the floor of an integer quotient is integer division.
- `StatsSort` (`stats_sort.dfy`): the in-place ascending sort, an insertion sort on an `array<real>`. It is proved to leave the array ascending with the same multiset of samples.
- `StatsRange`, `StatsSignificance`, `StatsOutliers`, `StatsSparkline`, `StatsBuckets`: one module per helper of `stats.ts`. Each loop of the source is a method proved against a specification function, and the lemmas state what the source promises about that function.
- `Stats` (`stats.dfy`): the `Stats` class. Its `readonly` fields are `const`, and `controlSorted`/`experimentSorted` are the very arrays passed in, sorted in place. `Valid()` collects what the constructor establishes.
- `MarkObserver` (`mark_observer.dfy`): `waitForMarkError`. The `Error` object is a class whose two detail fields are assigned after construction.

The significance rule is modelled as written: an interval with one bound exactly zero and the other non-zero, such as `[0, 5]`, counts as significant.

## Model

| member | source | states |
|---|---|---|
| `JsMath.Round` | packages/stats/src/stats.ts:175 | `Math.round(x)` is the integer within half a unit of `x`, halves going up |
| `JsMath.Pow2` | packages/stats/src/stats.ts:263 | `Math.pow(2, bits)` for a natural exponent is at least 1, which is what keeps `lshift` from shrinking or flipping the sign of its operand |
| `JsMath.MinOf` | packages/stats/src/stats.ts:234 | `Math.min(...a)` of a non-empty list is one of its elements and at most every element |
| `JsMath.MaxOf` | packages/stats/src/stats.ts:234 | `Math.max(...a)` of a non-empty list is one of its elements and at least every element |
| `StatsSort.SortAscending` | packages/stats/src/stats.ts:77-80 | sorting with comparator `a - b` leaves the array ascending and a permutation of what it held |
| `Stats.Stats.constructor` | packages/stats/src/stats.ts:71-87 | `controlSorted`/`experimentSorted` alias the input arrays. Those arrays end up ascending and keep their samples. `sampleCount` holds their lengths, `range` is their range and `buckets` their 12-bucket histogram (the `getBuckets` call is line 155) |
| `Stats.Stats.BucketsCountEverySample` | packages/stats/src/stats.ts:307-321 | in a constructed `Stats`, the bucket counts of each array add up to that array's `sampleCount` |
| `Stats.Stats.RangeFromSortedEnds` | packages/stats/src/stats.ts:79-87 | with both arrays non-empty, `range.min` is the smaller first sorted sample and `range.max` the larger last sorted sample |
| `StatsRange.GetRange` | packages/stats/src/stats.ts:229-235 | empty exactly when both arrays are empty; otherwise `min <= max`, both occur in one of the arrays, and every sample of both lies between them |
| `StatsSignificance.IsSig` | packages/stats/src/stats.ts:202-207 | `isSig` holds exactly when both bounds are on the same side of zero (product `>= 0`) and not both zero; so it is false exactly when zero lies strictly between them, in either order, or both are zero |
| `StatsOutliers.GetOutliers` | packages/stats/src/stats.ts:162-182 | `IQR = q75 - q25`, `lowerOutlier = floor(q25 - 1.5 IQR)`, `upperOutlier = round(q75 + 1.5 IQR)`. The fences enclose the quartiles when `q25 <= q75`. The outliers are the rounded samples beyond a fence, in input order |
| `StatsOutliers.RoundedOutsideIsSubsequence` | packages/stats/src/stats.ts:174-179 | the outliers are exactly the subsequence of rounded samples strictly beyond a fence: one per such position, at strictly increasing positions, and a position is taken iff its rounded sample is beyond a fence |
| `StatsOutliers.OutliersAreOutside` | packages/stats/src/stats.ts:176-177 | every reported outlier is strictly below `lowerOutlier` or strictly above `upperOutlier` |
| `StatsOutliers.OutsideSamplesAreOutliers` | packages/stats/src/stats.ts:174-179 | every sample whose rounded value is beyond a fence is reported |
| `StatsSparkline.Lshift` | packages/stats/src/stats.ts:262-264 | `lshift(n, bits)` keeps the sign of `n`'s whole part and never moves it towards zero: at least `floor(n)` for `n >= 0`, at most `floor(n)` (so negative) for `n < 0` |
| `StatsSparkline.TickIndex` | packages/stats/src/stats.ts:275 | the index `floor(lshift(n - min, 8) / f)` is the number of whole divisors in the shifted offset: `index·f <= lshift(n - min, 8) < (index + 1)·f` |
| `StatsSparkline.Glyph` | packages/stats/src/stats.ts:275 | `ticks[i]` as `join` renders it: at most one character, non-empty exactly when `i` is in `0..7`, and only ever a tick character (`undefined` renders as nothing) |
| `StatsSparkline.Join` | packages/stats/src/stats.ts:280 | `results.join('')` is exactly as long as all parts together; every character of the line comes from some part, and every character of every part is in the line (order and multiplicity: `JoinPositions`) |
| `StatsSparkline.JoinPositions` | packages/stats/src/stats.ts:280 | `results.join('')` places each part whole, in order, at the offset given by the summed lengths of the parts before it |
| `StatsSparkline.Divisor` | packages/stats/src/stats.ts:268-272 | the divisor `f` is at least 1; once `max - min >= 1` it is `lshift(max - min, 8)` divided by 7 |
| `StatsSparkline.GetSparkline` | packages/stats/src/stats.ts:257-281 | the line is the join of the glyph pushed for each number in order: `ticks[floor(lshift(n - min, 8) / f)]`, or nothing when that index is outside the ticks |
| `StatsSparkline.GetSparklineDefault` | packages/stats/src/stats.ts:257-261 | with the default bounds (the numbers' own min and max) the line has exactly one glyph per number, each one of the eight ticks; no numbers give the empty line |
| `StatsSparkline.TickIndexInBounds` | packages/stats/src/stats.ts:266-275 | for `min <= n <= max` the index is in 0..7; `min` maps to the lowest tick, and `max` to the highest once the bounds are at least one unit apart |
| `StatsSparkline.GlyphsInBounds` | packages/stats/src/stats.ts:274-278 | for numbers between the bounds, one glyph is pushed per number, the tick at its index |
| `StatsSparkline.JoinSingles` | packages/stats/src/stats.ts:280 | joining one-character strings gives one character per string, in order |
| `StatsSparkline.SparklineInBounds` | packages/stats/src/stats.ts:266-280 | for numbers between the bounds the line's length is the number count, and its `i`-th character is the tick at number `i`'s index |
| `StatsBuckets.GetBuckets` | packages/stats/src/stats.ts:283-324 | the result is the layout of the widened range with each bucket's control and experiment counts set to the samples in `[min, max)` |
| `StatsBuckets.PushBuckets` | packages/stats/src/stats.ts:288-305 | the push loop lays out `bucketCount` buckets when the widened range is non-empty, none otherwise; bucket `i` spans `[floor(minBuffer + i·inc), floor(minBuffer + (i+1)·inc))` with zero counts |
| `StatsBuckets.CountSamples` | packages/stats/src/stats.ts:307-321 | every bucket adds to its counts the control and experiment samples in `[bucket.min, bucket.max)`; bounds and order unchanged |
| `StatsBuckets.CountBelowEnd` | packages/stats/src/stats.ts:295 | `count < maxBuffer` holds exactly before the `bucketCount`-th push, and never when the widened range is empty, so the loop stops once `count` reaches `max + 1` |
| `StatsBuckets.NegativeCountNeverStops` | packages/stats/src/stats.ts:292-305 | with a negative `bucketCount` over a non-empty range, `minBuffer + k·inc` is below `maxBuffer` for every `k`, so the push loop never ends |
| `StatsBuckets.EdgesAscend` | packages/stats/src/stats.ts:294-305 | bucket edges never decrease along the layout |
| `StatsBuckets.BucketsContiguous` | packages/stats/src/stats.ts:288-305 | for `min <= max` there are `bucketCount` buckets. The first starts at `floor(min - 1)` and the last ends at `floor(max + 1)`. Each ends where the next begins (`bucket[i].max == bucket[i+1].min`), and none ends below its start |
| `StatsBuckets.CountSplit` | packages/stats/src/stats.ts:312 | counting over `[lo, hi)` is counting over `[lo, mid)` plus over `[mid, hi)` |
| `StatsBuckets.CountAll` | packages/stats/src/stats.ts:307-309 | when every sample lies in `[lo, hi)` all of them are counted |
| `StatsBuckets.TotalsTelescope` | packages/stats/src/stats.ts:310-321 | the counts of the first `k` buckets add up to the samples between the first edge and edge `k` |
| `StatsBuckets.OuterEdgesEnclose` | packages/stats/src/stats.ts:289-291 | the one-unit buffer puts every sample of the range at or above the first edge and below the last |
| `StatsBuckets.BucketTotalsMatchSampleCounts` | packages/stats/src/stats.ts:307-321 | over the range of both arrays, the control counts of all buckets add up to the control sample count, and likewise for the experiment |
| `StatsBuckets.InExactlyOneBucket` | packages/stats/src/stats.ts:307-309 | every sample in the range lies in one bucket's `[min, max)` and in no other |
| `StatsBuckets.FindBucket` | packages/stats/src/stats.ts:307-309 | a sample between the first edge and edge `k` lies in one of the first `k` buckets |
| `MarkObserver.MarkError.constructor` | packages/core/src/util/inject-mark-observer.ts:99-102 | `new Error(message)` keeps the message; the detail fields start out unset |
| `MarkObserver.WaitForMarkError` | packages/core/src/util/inject-mark-observer.ts:88-106 | the message always starts with `errored while waiting for <mark>`, and is exactly that with no details. `": " + exceptionDetails.text` is appended when present, then `": " + original.message`, so the exception text comes first. The new error carries both details unchanged |

## Left out

- Floating point: every number is an exact real. IEEE-754 rounding, `NaN` and infinite samples are not modelled. With floating-point accumulation `getBuckets` can push one bucket more or fewer than `bucketCount`; the model proves the exact-arithmetic count.
- `getSevenFigureSummary`, `getHodgesLehmann`, `getHistogram` and the `confidenceInterval` call rest on d3 (`quantile`, `cross`, `histogram`, `scaleLinear`) and on a module that is not part of this model. The quartiles therefore enter `StatsOutliers.GetOutliers` as parameters, the confidence bounds enter `StatsSignificance.IsSig` as parameters, and `GetSparkline` takes its numbers as given.
- For the same reason the constructor does not compute the `sparkLine`, `confidenceIntervals`, `confidenceInterval`, `estimator`, `sevenFigureSummary` and `outliers` fields. The helpers behind them are modelled separately, as listed above.
- `getPopulationVariance` and the `Math.ceil(x * 100) / 100` rounding of the interval bounds: decimal floating-point behaviour through a helper that is not part of this model.
- `StatsBuckets.GetBuckets`: requires `bucketCount` to be a whole number of at least 1; the only caller uses the default of 12. The source behaves differently for other values, and the model does not cover them:
  - With 0, JavaScript divides by zero and pushes a single bucket ending at +Infinity.
  - With a negative count over a non-empty range the increment is negative, so `count` falls for ever and `while (count < maxBuffer)` (stats.ts:292-305) never ends. `StatsBuckets.NegativeCountNeverStops` states this.
  - With a fractional count such as 2.5 the loop pushes 3 buckets. The last one's unfloored end `count + bucketIncrementor` lies beyond `maxBuffer`, though its floored `max` may equal `maxBuffer` (for `min = max = 0` the buckets are `[-1, -1)`, `[-1, 0)` and `[0, 1)`).
- `StatsSort.SortAscending`: the JavaScript sort's algorithm and its stability are not modelled. Only the outcome is: ascending order and the same samples.
- `injectMarkObserver`, `waitForMark` and the observer script templates (`markObserver`, `navigationObserver`) in `inject-mark-observer.ts`: DevTools-protocol I/O with race cancellation, and script text built with `JSON.stringify` and `isNavigationTimingMark`, which is not part of this model.
- `MarkObserver.WaitForMarkError`: `original` is taken to be an `Error` object or absent. A falsy thrown value (`0`, `""`), which the source would treat as absent, is not distinguished.
- The trace-model builder that `packages/trace-model/src/index.ts` re-exports (`buildModel`) is not part of this model, so no event classification or span, async or flow matching is modelled.
- The CLI tests (`tsc.test.ts`, `analyze.test.ts`) drive external processes and files on disk; they are not modelled.
