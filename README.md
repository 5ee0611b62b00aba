# Dynamic-bucket histogram

A Dafny model of `DBHistogram`, the approximate-percentile estimator in
`src/dynamic-bucket-histogram.js`. Samples are counted in sparse,
logarithmically scaled buckets. The buckets listed in `focusBuckets` also
keep finer sub-buckets. Two histograms with the same settings can be
added. `toJSON` reports the extrema, the count, five percentiles found by a
cumulative walk over the buckets, and the number of bucket slots.

Files (one module each, in dependency order):

- `extrema.dfy` (`Extrema`): `safeMin`/`safeMax`. An unset (`NaN`) value
  is `None` of an `Option<real>`.
- `sparse.dfy` (`SparseArrays`): JavaScript arrays written only by index
  assignment. They are a map of the present entries plus a `length`.
- `buckets.dfy` (`Buckets`): buckets, sub-buckets, their totals, the
  soundness invariant, and what `update` does to the bucket array.
- `merge.dfy` (`Merge`): `copySubBuckets`, `mergeSubBuckets`,
  `mergeSubBucketsAndBucket` (the count redistribution), and the bucket
  loop of `add`.
- `percentile.dfy` (`Percentile`): the `percentile` walk and the
  interpolation, with the nested `while` loops as methods.
- `histogram.dfy` (`Histogram`): `valueToBucket`, the focus list of a sum,
  `numberOfBuckets`, and the class `DBHistogram` with its constructor,
  `update`, `add` and `toJSON`.

Two invariants are kept apart. `ShapedState` (the class's `Consistent()`)
holds in every state the source can reach, whatever the order of `update`
and `add` calls:

- the settings are usable, and every present bucket holds samples;
- a bucket's sub-bucket counts add up to at most its count, and each
  sub-bucket holds samples;
- the bucket counts add up to `count`;
- `min`/`max` are unset exactly when `count` is 0, and otherwise bound every bucket;
- every sub-bucket lies within its bucket's extrema.

`ValidState` (the class's `Valid()`) adds soundness: each bucket's
sub-buckets add up to exactly its count. In full, it says:

- every present bucket holds samples;
- a bucket's sub-buckets add up to its count, and each of them holds samples;
- the bucket counts add up to `count`;
- `min`/`max` are unset exactly when `count` is 0, and otherwise bound every bucket;
- every sub-bucket lies within its bucket's extrema.

`update` and `add` keep `ShapedState`. `update` keeps `ValidState` when
the histogram is *covered*, that is, when every present bucket whose index
is in `focusBuckets` already has its sub-buckets. A histogram fed only by
`update` is always covered. `add` keeps `ValidState`, but its result need
not be covered. A later `update` can then leave a bucket with fewer
sub-bucket samples than its count (`UncoveredRecordUnbalances`). From such
a state, `add` may need several passes to hand out the remainder
(`UnbalancedMergeTakesSeveralPasses`), and `percentile` can walk off the
last sub-bucket and report a value above `max`
(`UnbalancedPercentileAboveMax`).

`percentile` is specified by a reference definition. `Walk` is the
sequence of cells in visiting order: buckets by index, each focus bucket
replaced by its present sub-buckets. `Crossing` is the first cell at which
the cumulative count reaches the rank. `PercentileOf` is the linear
interpolation inside that cell. The imperative walk is proved to compute
exactly `PercentileOf`, and on a sound histogram `PercentileOf` is proved
to lie inside the crossing cell and within the histogram's `[min, max]`.

A sample equal to `minValue` lands in bucket 1 (`floor(0) + 1`), not in
bucket 0: bucket 0 holds only the samples below `minValue`
(`ValueToBucketAtMin`, `ValueToBucketBelowMin`).

## Model

| member | source | states |
|---|---|---|
| Extrema.SafeMin | src/dynamic-bucket-histogram.js:251-266 | the result is unset only when both are; it is one of the operands and no larger than any set operand |
| Extrema.SafeMax | src/dynamic-bucket-histogram.js:251-262 | the result is unset only when both are; it is one of the operands and no smaller than any set operand |
| Extrema.ExtremaCommute | src/dynamic-bucket-histogram.js:79-80 | folding extrema does not depend on operand order |
| Extrema.ExtremaAssociate | src/dynamic-bucket-histogram.js:79-80 | folding extrema does not depend on grouping |
| Buckets.Record | src/dynamic-bucket-histogram.js:44-61 | recording a sample keeps the array well formed; the target bucket is present with one more sample and has sub-buckets exactly when it is a focus bucket or had them; every other bucket is unchanged |
| SparseArrays.Empty | src/dynamic-bucket-histogram.js:9 | `[]` is a well-formed array with no entries |
| SparseArrays.Assign | src/dynamic-bucket-histogram.js:116-124 | `a[i] = v` sets entry `i`, keeps every other entry, grows the array to cover `i`, and keeps it well formed |
| Buckets.Fold | src/dynamic-bucket-histogram.js:45-47 | one more sample: the count grows by one and the extrema enclose the value and the old extrema |
| Buckets.AssignTotal | src/dynamic-bucket-histogram.js:56-58 | writing a sub-bucket changes the sub-bucket total by exactly the change in that cell's count |
| Buckets.BucketAssignTotal | src/dynamic-bucket-histogram.js:44-45 | writing a bucket changes the total by exactly the change in that bucket's count |
| Buckets.RecordCounts | src/dynamic-bucket-histogram.js:44-51 | after a sample, the target bucket exists, its count is one more, its extrema fold the value, it gains sub-buckets exactly when it is a focus bucket, every other bucket is unchanged, and the total grows by one |
| Buckets.RecordKeepsSound | src/dynamic-bucket-histogram.js:53-61 | on a covered sound array, recording a sample keeps it sound (sub-bucket totals equal bucket counts) and covered |
| Buckets.RecordKeepsShaped | src/dynamic-bucket-histogram.js:44-61 | recording a sample keeps every bucket occupied and its sub-buckets occupied and within its count, whether or not the array is covered |
| Buckets.SoundIsShaped | src/dynamic-bucket-histogram.js:44-61 | an array whose sub-bucket totals equal their bucket counts satisfies the weaker shape invariant |
| Histogram.ValueToBucket | src/dynamic-bucket-histogram.js:19-21 | the index is 0 exactly when `floor(mainScale * (log10(v) - log10(minValue))) + 1` is not positive |
| Histogram.ValueToBucketMonotone | src/dynamic-bucket-histogram.js:19-21 | for a monotone `log10`, a larger sample never lands in a lower bucket |
| Histogram.IndexMonotone | src/dynamic-bucket-histogram.js:19-21 | the clamped `floor(mainScale * x) + 1` never decreases in `x` |
| Histogram.ValueToBucketAtMin | src/dynamic-bucket-histogram.js:19-21 | `minValue` itself lands in bucket 1 |
| Histogram.ValueToBucketBelowMin | src/dynamic-bucket-histogram.js:19-21 | for a strictly increasing `log10`, every sample below `minValue` lands in bucket 0 |
| Histogram.SubBucketZero | src/dynamic-bucket-histogram.js:23-26 | in bucket 0, the sub-bucket index is the floor of `value / minValue * subScale` |
| Histogram.ValueToSubBucket | src/dynamic-bucket-histogram.js:23-29 | in bucket 0 the index is the floor of `value / minValue * subScale`; elsewhere it is the supplied logarithmic index |
| Histogram.IndexOf | src/dynamic-bucket-histogram.js:83-85 | `indexOf` gives -1 exactly for an absent element, and otherwise the first position holding it |
| Histogram.FirstOccurrencesOrdered | src/dynamic-bucket-histogram.js:82-85 | the filter keeps elements at their first occurrence, in the order of those occurrences |
| Histogram.OrderedAppend | src/dynamic-bucket-histogram.js:82-85 | keeping the next first occurrence keeps the kept elements within the scanned prefix and in first-occurrence order |
| Histogram.FirstOccurrencesMembers | src/dynamic-bucket-histogram.js:82-85 | the filter keeps every element, and only elements of the list |
| Histogram.FirstOccurrencesFacts | src/dynamic-bucket-histogram.js:82-85 | the filter keeps exactly the list's elements, without repeats, in first-occurrence order |
| Histogram.Dedup | src/dynamic-bucket-histogram.js:82-85 | the focus list of a sum holds exactly the focus buckets of both operands, without repeats, in first-occurrence order |
| Histogram.FirstOccurrencesOfDistinct | src/dynamic-bucket-histogram.js:82-85 | a list without repeats passes the filter unchanged |
| Histogram.DedupIdempotent | src/dynamic-bucket-histogram.js:82-85 | deduplicating twice is deduplicating once |
| Histogram.DBHistogram.constructor | src/dynamic-bucket-histogram.js:3-13 | zero settings take the defaults 0.01, 5 and 5; the new histogram is empty, consistent, valid and covered |
| Histogram.DBHistogram.Update | src/dynamic-bucket-histogram.js:35-62 | a non-positive value is refused with nothing changed; otherwise the buckets become `Record` of the old ones (bucket, and sub-bucket for a focus bucket), the count grows by one and the extrema fold the value; any consistent histogram stays consistent, and a covered valid one stays valid and covered |
| Histogram.RecordSample | src/dynamic-bucket-histogram.js:44-61 | the step-by-step updates of bucket and sub-bucket build exactly `Record` |
| Histogram.RecordValid | src/dynamic-bucket-histogram.js:44-61 | recording a sample adds one to the total, keeps the buckets within the folded extrema and the sub-buckets within their buckets, and keeps a covered array sound |
| Histogram.RecordBounded | src/dynamic-bucket-histogram.js:44-61 | after a sample, every bucket lies within the folded extrema |
| Histogram.RecordKeepsState | src/dynamic-bucket-histogram.js:35-62 | recording a sample keeps any consistent state consistent with the count one higher and folded extrema, and keeps a covered valid state valid and covered |
| Histogram.RecordNested | src/dynamic-bucket-histogram.js:44-61 | after a sample, every sub-bucket still lies within its bucket's extrema |
| Histogram.UncoveredRecordUnbalances | src/dynamic-bucket-histogram.js:53-61 | on a bucket that holds samples but has no sub-buckets, recording into it as a focus bucket leaves a sub-bucket total (1) behind the bucket count (2), so coverage is needed |
| Histogram.TwoSamplesAfterMerge | src/dynamic-bucket-histogram.js:53-61 | two samples recorded into an uncovered focus bucket that already held one leave a single sub-bucket of count 2 under a bucket of count 3 |
| Histogram.UnbalancedState | src/dynamic-bucket-histogram.js:53-61 | that state is consistent but not sound |
| Histogram.UnbalancedWalk | src/dynamic-bucket-histogram.js:219-239 | its walk is the lone sub-bucket, so the bucket's third sample is never visited |
| Histogram.ExtrapolatedPercentile | src/dynamic-bucket-histogram.js:241-246 | interpolating the 75th percentile past that sub-bucket's count gives 3.5625 |
| Histogram.UnbalancedPercentileAboveMax | src/dynamic-bucket-histogram.js:213-247 | a consistent, unsound histogram reached by `add` and two `update`s reports a 75th percentile (3.5625) above its `max` (3.5) |
| Merge.Combine | src/dynamic-bucket-histogram.js:166-169 | a merged cell's count is the sum, and its extrema enclose both cells' extrema |
| Merge.JoinCountsBelow | src/dynamic-bucket-histogram.js:163-177 | the index-wise merge's counts are the sum of both sides' counts |
| Merge.Join | src/dynamic-bucket-histogram.js:163-177 | the merge covers `max(length)` indices, holds exactly the indices of either side, and each count is the sum of both sides' counts there |
| Merge.JoinSound | src/dynamic-bucket-histogram.js:163-177 | the index-wise merge of two sub-bucket arrays is well formed, its total is the sum of the totals, and its cells hold samples |
| Merge.CopySubBuckets | src/dynamic-bucket-histogram.js:126-133 | the copy equals the source, holes included |
| Merge.MergeSubBuckets | src/dynamic-bucket-histogram.js:163-177 | the loop builds the index-wise merge `Join` |
| Merge.Scaled | src/dynamic-bucket-histogram.js:138-142 | scaling never lowers a count |
| Merge.ScaledIsFloor | src/dynamic-bucket-histogram.js:138-142 | the scaled count is the floor of `count * (1 + otherCount / sourceCount)` |
| Merge.ScaleSums | src/dynamic-bucket-histogram.js:140-147 | `sourceCount` times the floored total, plus what the floors drop, is exactly `sourceCount + otherCount` times the original total; the floors drop less than one count per present sub-bucket |
| Merge.RemainderBelowPresent | src/dynamic-bucket-histogram.js:143-148 | after scaling, the remainder is at least 0 and less than the number of present sub-buckets, as the comment at line 148 claims |
| Merge.ShortfallBounds | src/dynamic-bucket-histogram.js:143-148 | if `S*T + R == (S+o)*S` and the floors drop at most `S-1` per present sub-bucket, the shortfall `S+o-T` is at least 0 and below the number present |
| Merge.ShortfallNonNegative | src/dynamic-bucket-histogram.js:143-148 | when the sub-buckets hold at most their bucket's samples, scaling never overshoots `sourceCount + otherCount` |
| Merge.ScaledAtMost | src/dynamic-bucket-histogram.js:140-147 | a floored scaled total of at most `S` samples is at most `S + o` |
| Merge.ScaleSubBuckets | src/dynamic-bucket-histogram.js:140-142 | the `forEach` leaves every present sub-bucket with its scaled count |
| Merge.RaiseAll | src/dynamic-bucket-histogram.js:147-159 | a full pass raises every present sub-bucket by one, so the total grows by the number present |
| Merge.FullPass | src/dynamic-bucket-histogram.js:147-159 | a full pass over the scaled counts plus `q` yields the scaled counts plus `q + 1` |
| Merge.NoPartialPass | src/dynamic-bucket-histogram.js:147-160 | when the remainder loop ends at a pass boundary, or nothing was short, the number of passes is `Passes` and the lifted counts are a valid spread |
| Merge.LastPass | src/dynamic-bucket-histogram.js:147-160 | a partial last pass of `remainder` raises after `q` full passes yields a redistribution |
| Merge.DivUnique | src/dynamic-bucket-histogram.js:147-160 | integer division is determined by quotient and remainder |
| Merge.FirstUnraised | src/dynamic-bucket-histogram.js:150-152 | picks the sub-bucket not yet raised that comes first in a stable descending sort of the scaled counts |
| Merge.UnraisedLeft | src/dynamic-bucket-histogram.js:150-159 | while remainder is left, some present sub-bucket is not yet raised in this pass |
| Merge.RaiseNext | src/dynamic-bucket-histogram.js:150-159 | raising the first unraised sub-bucket keeps the spread ordered and adds one to the total |
| Merge.RaiseFirst | src/dynamic-bucket-histogram.js:147-159 | raising one sub-bucket per unit of remainder, each the first not yet raised in sorted order, adds exactly the remainder and keeps the raised ones ahead of the rest |
| Merge.Redistribute | src/dynamic-bucket-histogram.js:135-161 | every sub-bucket keeps its index and extrema; after as many full passes as the shortfall allows, its count is its scaled count plus the passes, or one more, and the raised ones precede the rest in sorted order; the counts add up to `sourceCount + otherCount` when anything was short, and to the scaled total otherwise |
| Merge.RedistributesSound | src/dynamic-bucket-histogram.js:135-161 | a redistribution is a well-formed array of sub-buckets that hold samples |
| Merge.RedistributesKeepsCount | src/dynamic-bucket-histogram.js:135-161 | when the sub-buckets hold at most their bucket's samples, a redistribution hands out exactly `sourceCount + otherCount` |
| Merge.RedistributesOnePass | src/dynamic-bucket-histogram.js:135-161 | when the sub-buckets hold exactly their bucket's samples, every count is its scaled count or one more: one pass suffices |
| Merge.UnbalancedMergeTakesSeveralPasses | src/dynamic-bucket-histogram.js:143-160 | a lone sub-bucket of count 1 in a bucket of 3, merged with 3 more samples, needs 4 full passes of the remainder loop |
| Merge.MergedCountsBelow | src/dynamic-bucket-histogram.js:87-111 | the merged bucket counts add up to the sum of both operands' |
| Merge.MergedAtShaped | src/dynamic-bucket-histogram.js:87-111 | a merged bucket keeps the shape invariant, its count is the sum of the operands' counts at that index, and it is sound when the operands' buckets there are |
| Merge.MergeBucketAt | src/dynamic-bucket-histogram.js:88-110 | one index of the loop: on both sides, summed count, combined extrema and merged or redistributed sub-buckets; on one side, that bucket unchanged |
| Merge.MergeBuckets | src/dynamic-bucket-histogram.js:76-111 | the result is well formed, covers `max(length)` indices and holds exactly the indices of either operand, each merged as above |
| Merge.MergedShaped | src/dynamic-bucket-histogram.js:87-111 | an array merged index by index is shaped, sound when both operands are, and its total is the sum |
| Histogram.DBHistogram.Add | src/dynamic-bucket-histogram.js:64-114 | differing settings are refused; otherwise the result is new and consistent, valid when both operands are, with the same settings, the summed count, the combined extrema, the deduplicated focus list, and every index of either operand merged; neither operand changes |
| Histogram.DBHistogram.Sum | src/dynamic-bucket-histogram.js:70-85 | the new histogram carries the given settings and fields and is consistent |
| Histogram.MergedConsistent | src/dynamic-bucket-histogram.js:79-111 | the sum of two consistent histograms with the same settings is consistent, and valid when both are sound |
| Histogram.MergedBounded | src/dynamic-bucket-histogram.js:79-111 | merged buckets lie within the combined extrema |
| Histogram.MergedAtNested | src/dynamic-bucket-histogram.js:88-110 | merged sub-buckets lie within their merged bucket |
| Histogram.MergedNested | src/dynamic-bucket-histogram.js:87-111 | after `add`, every sub-bucket lies within its bucket |
| Histogram.PresentAtMost | src/dynamic-bucket-histogram.js:207 | a sub-bucket array has no more present entries than its length |
| Histogram.NumberOfBuckets | src/dynamic-bucket-histogram.js:204-211 | the slot count is at least the number of cells the walk visits, and equal when no bucket has sub-buckets |
| Histogram.SlotsBelow | src/dynamic-bucket-histogram.js:205-210 | the slots counted over the first buckets are at least the cells the walk visits there, and equal when no bucket has sub-buckets |
| Histogram.NumberOfBucketsCoversWalk | src/dynamic-bucket-histogram.js:204-211 | `numberOfBuckets` bounds the number of cells `percentile` can visit, and equals it without sub-buckets |
| Histogram.DBHistogram.ToJSON | src/dynamic-bucket-histogram.js:179-202 | `{count: 0}` exactly when the buckets hold no sample; otherwise the extrema, the count, the five percentiles `PercentileOf` the walk at ranks `p * samplesCount`, and `numberOfBuckets`; on a valid histogram each percentile lies within `[min, max]` |
| Histogram.ReportedPercentile | src/dynamic-bucket-histogram.js:195-199 | the percentile `toJSON` reports is `PercentileOf` the walk, and lies within the extrema on a sound histogram |
| Histogram.PercentileBounded | src/dynamic-bucket-histogram.js:241-246 | the interpolated percentile lies within the histogram's `[min, max]` |
| Histogram.ExtremaSet | src/dynamic-bucket-histogram.js:180-184 | a bounded array that holds samples has both extrema set |
| Histogram.CellsPercentileBounded | src/dynamic-bucket-histogram.js:241-246 | over cells all within `[lo, hi]`, the percentile is within `[lo, hi]` |
| Histogram.WalkWithin | src/dynamic-bucket-histogram.js:219-239 | every cell the walk visits lies within the histogram's extrema |
| Histogram.SubCellsWithin | src/dynamic-bucket-histogram.js:222-231 | the sub-buckets a bucket contributes to the walk lie within its extrema |
| Histogram.WalkBelowWithin | src/dynamic-bucket-histogram.js:219-239 | the cells visited in the first buckets lie within the histogram's extrema |
| Percentile.SumAppend | src/dynamic-bucket-histogram.js:228-235 | cumulative counts add over concatenation |
| Percentile.Walk | src/dynamic-bucket-histogram.js:219-239 | the walk has one cell per bucket without sub-buckets and one per present sub-bucket, and its cells hold samples on a shaped array |
| Percentile.SubCellsSum | src/dynamic-bucket-histogram.js:222-231 | the sub-buckets a bucket contributes sum to its sub-bucket total and hold samples |
| Percentile.CellsOfSum | src/dynamic-bucket-histogram.js:221-236 | the cells a sound bucket contributes sum to its count and hold samples |
| Percentile.WalkBelowSum | src/dynamic-bucket-histogram.js:180-184 | the walk's counts add up to `samplesCount`, and every cell holds samples |
| Percentile.WalkPrefix | src/dynamic-bucket-histogram.js:219-239 | walking fewer buckets visits a prefix of the cells |
| Percentile.SumMonotone | src/dynamic-bucket-histogram.js:219-239 | cumulative counts never decrease along the walk |
| Percentile.CrossingFrom | src/dynamic-bucket-histogram.js:219-239 | the crossing search stays within the walk |
| Percentile.CrossingIsUnique | src/dynamic-bucket-histogram.js:219-239 | the cell whose cumulative range brackets the rank is the crossing cell |
| Percentile.CrossingBrackets | src/dynamic-bucket-histogram.js:219-239 | for a rank in `(0, total]`, the crossing cell brackets it: `prevSum < rank <= currSum` |
| Percentile.CrossingAt | src/dynamic-bucket-histogram.js:219-239 | a rank reached within the first `n` cells is bracketed by one of them |
| Percentile.InterpolateWithin | src/dynamic-bucket-histogram.js:241-246 | interpolating at a rank within a cell's count stays within its `[min, max]` |
| Percentile.CrossingWithin | src/dynamic-bucket-histogram.js:241-246 | the percentile lies within the crossing cell's extrema |
| Percentile.PercentileWithin | src/dynamic-bucket-histogram.js:213-247 | for `0 < p <= 1`, the crossing cell brackets `p * total` and the percentile lies within it |
| Percentile.PercentileInCell | src/dynamic-bucket-histogram.js:213-247 | over a sound array with `samplesCount` its total, the walk stops at the first cell with `prevSum < p * samplesCount <= currSum`, and the result lies within that cell's `[min, max]` |
| Percentile.PrefixSumIsSum | src/dynamic-bucket-histogram.js:228-235 | the running sum is the sum of the cells visited |
| Percentile.SubCellsLength | src/dynamic-bucket-histogram.js:222-231 | a bucket contributes one cell per present sub-bucket |
| Percentile.WalkBelowLength | src/dynamic-bucket-histogram.js:219-239 | the number of cells visited so far is the sum of what each bucket contributes |
| Percentile.WalkVisitsBucket | src/dynamic-bucket-histogram.js:233-236 | a bucket without sub-buckets is the next cell of the walk when `pos` reaches it |
| Percentile.WalkVisitsSubBucket | src/dynamic-bucket-histogram.js:226-229 | a present sub-bucket is the next cell of the walk when `subPos` reaches it |
| Percentile.WalkLengthBound | src/dynamic-bucket-histogram.js:219-239 | the walk position never runs past the walk, and reaches its end with `pos` |
| Percentile.BelowRatio | src/dynamic-bucket-histogram.js:219 | `currSum / samplesCount < p` holds exactly when `currSum < p * samplesCount` |
| Percentile.ShareBelow | src/dynamic-bucket-histogram.js:219 | the loop guard is `currSum < p * samplesCount` |
| Percentile.CrossedAt | src/dynamic-bucket-histogram.js:241-246 | interpolating in the cell where the walk stopped is `PercentileOf` the walk |
| Percentile.StopsAt | src/dynamic-bucket-histogram.js:241-246 | when the running sum first reaches the rank at a cell, or the walk ends there, the percentile interpolates in that cell |
| Percentile.RanOffAt | src/dynamic-bucket-histogram.js:219-246 | when the rank exceeds every sample counted, the percentile interpolates in the last cell |
| Percentile.InterpolatesLast | src/dynamic-bucket-histogram.js:241-246 | a crossing at the last cell interpolates in it from its running sum |
| Percentile.InterpolateBeyond | src/dynamic-bucket-histogram.js:241-246 | interpolating at a rank beyond a cell's count gives a value above its `max` |
| Percentile.PercentileBeyondLast | src/dynamic-bucket-histogram.js:213-247 | a rank beyond the walk's total extrapolates past the last cell's `max` |
| Percentile.WalkCounts | src/dynamic-bucket-histogram.js:180-184 | a sound array with samples has a non-empty walk of occupied cells summing to `samplesCount` |
| Percentile.WalkShaped | src/dynamic-bucket-histogram.js:219-239 | on a shaped array, the walk's cells hold samples and the walk is non-empty when any bucket holds samples |
| Percentile.RankWithin | src/dynamic-bucket-histogram.js:245 | the rank `p * samplesCount` is positive and at most `samplesCount` |
| Percentile.WalkSubBuckets | src/dynamic-bucket-histogram.js:222-231 | the inner loop advances the running sum over the bucket's sub-buckets and stops at the first one where the rank is reached, with `prevSum` just before it |
| Percentile.VisitBucket | src/dynamic-bucket-histogram.js:220-237 | one iteration of the outer loop visits the bucket's cells in walk order |
| Percentile.WalkBuckets | src/dynamic-bucket-histogram.js:214-239 | the loops stop at the first cell with `prevSum < p * samplesCount <= currSum`, holding that cell and `prevSum` |
| Percentile.Percentile | src/dynamic-bucket-histogram.js:213-247 | the returned value is `PercentileOf` the walk at rank `p * samplesCount` |

## Left out

- Floating point: values, extrema and percentiles are exact reals. Counts are unbounded naturals.
- `Math.log`: `log10` is a parameter of `update`. Monotonicity of `valueToBucket` is proved for any monotone `log10`.
- Histogram.DBHistogram.Update: `log10` and `subIndex` are supplied on each call, so two calls on one histogram could pass different functions. In the source both are fixed by `minValue`, `mainScale` and `subScale`. No contract or lemma relies on two calls using the same functions.
- Histogram.ValueToBucket: does not evaluate `Math.log`, because it is supplied as a function.
- `valueToSubBucket` outside bucket 0: the logarithmic formula with `Math.pow` is a supplied function `subIndex`. Because the index is a `nat`, a formula result below 0 is not modelled.
- `bucketBounds`: it needs `Math.pow` and is not called by the modelled operations.
- `normalizedLog`: it reads `this.norm`, which nothing sets.
- `util.format`: the error messages of `update` and `add` are not modelled. A refused `update` returns `false`, and a refused `add` returns `Incompatible`.
- Constructor settings that are negative or `NaN`: the model takes naturals and a non-negative `minValue`. A zero setting takes the default, as `||` does.
- `(this.count + 1) || 1`: the `|| 1` only matters when `count` is `NaN`, which a consistent histogram never has.
- Merge.Redistribute: ties in the sort are broken by index (a stable sort). The source leaves the order to `Array.prototype.sort`.
- Merge.Scaled: the ratio `1 + otherCount / sourceCount` is computed exactly as `floor(count * (sourceCount + otherCount) / sourceCount)`. Floating-point rounding of the ratio is not modelled.
- Histogram.DBHistogram.Update: it accepts any consistent histogram and keeps it consistent, but keeps `Valid()` only for a covered histogram, where every present focus bucket has sub-buckets. `add` can return a histogram that is not covered, because its focus list is the union of both operands'. After that, `update` can unbalance a bucket's sub-bucket total (`UncoveredRecordUnbalances`).
- Histogram.DBHistogram.ToJSON: the percentiles lie within `[min, max]` only on a valid histogram. On a consistent but unbalanced one the walk can run past the last sub-bucket and extrapolate above `max` (`UnbalancedPercentileAboveMax`); the model states the value the source computes there, not a bound.
- Merge.Redistribute: when a bucket's sub-buckets hold fewer samples than its count, the remainder loop makes several full passes before the last partial one (`UnbalancedMergeTakesSeveralPasses`). The model covers that case; only under soundness does it promise a single pass (`RedistributesOnePass`).
- Percentile.Percentile: the division in the loop guard is evaluated by `ShareBelow`. Each nested loop is its own method (`WalkBuckets`, `VisitBucket`, `WalkSubBuckets`), and the cell index reached is a ghost.
- Histogram.DBHistogram.Add: the bucket loop runs before the result object is made, and the result is created by a second constructor, `Sum`, that sets its fields. The source creates the result first and assigns its fields one by one; the final state is the same.
- The rolling-window and facade histograms, and the statistical accuracy tests: they are not part of this model.
