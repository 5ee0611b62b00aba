/** The dynamic-bucket histogram: the bucket index of a sample, the focus
    list of a sum, `numberOfBuckets`, and the class with its constructor,
    `update`, `add` and `toJSON`. */
module Histogram {
  import opened Extrema
  import opened SparseArrays
  import opened Buckets
  import opened Merge
  import opened Percentile

  // ---------------------------------------------------------------------
  // valueToBucket / valueToSubBucket

  /** `valueToBucket`: `max(0, floor(mainScale * (log10(value) - log10(minValue))) + 1)`.
      The logarithm is a parameter. */
  function ValueToBucket(log10: real -> real, minValue: real, mainScale: nat, value: real): (r: nat)
    ensures r == 0 <==> (mainScale as real * (log10(value) - log10(minValue))).Floor + 1 <= 0
  {
    var i := (mainScale as real * (log10(value) - log10(minValue))).Floor + 1;
    if i < 0 then 0 else i
  }

  /** `valueToSubBucket`: below `minValue` (bucket 0) the sub-bucket is
      `floor(value / minValue * subScale)`; in the other buckets it is given
      by `subIndex`, which stands for the logarithmic formula. */
  function ValueToSubBucket(minValue: real, subScale: nat, subIndex: (nat, real) -> nat, bucket: nat, value: real): (r: nat)
    requires minValue > 0.0 && value > 0.0
    ensures bucket == 0 ==> r as real <= value / minValue * subScale as real < r as real + 1.0
    ensures bucket != 0 ==> r == subIndex(bucket, value)
  {
    if bucket == 0 then SubBucketZero(minValue, subScale, value) else subIndex(bucket, value)
  }

  function SubBucketZero(minValue: real, subScale: nat, value: real): (r: nat)
    requires minValue > 0.0 && value > 0.0
    ensures r as real <= value / minValue * subScale as real < r as real + 1.0
  {
    NonNegativeScale(value / minValue, subScale as real);
    (value / minValue * subScale as real).Floor
  }

  lemma NonNegativeScale(x: real, y: real)
    requires x > 0.0 && y >= 0.0
    ensures x * y >= 0.0
  {
  }

  /** `log10` only ever grows. */
  ghost predicate Monotone(log10: real -> real)
  {
    forall x: real, y: real :: 0.0 < x <= y ==> log10(x) <= log10(y)
  }

  /** `log10` strictly grows. */
  ghost predicate StrictlyMonotone(log10: real -> real)
  {
    forall x: real, y: real :: 0.0 < x < y ==> log10(x) < log10(y)
  }

  lemma ScaleMonotone(k: real, a: real, b: real)
    requires k >= 0.0 && a <= b
    ensures k * a <= k * b
  {
  }

  /** A larger sample never lands in a lower bucket. */
  lemma ValueToBucketMonotone(log10: real -> real, minValue: real, mainScale: nat, v: real, w: real)
    requires Monotone(log10) && 0.0 < v <= w
    ensures ValueToBucket(log10, minValue, mainScale, v) <= ValueToBucket(log10, minValue, mainScale, w)
  {
    assert log10(v) <= log10(w);
    IndexMonotone(mainScale, log10(v) - log10(minValue), log10(w) - log10(minValue));
  }

  /** The bucket index grows with the scaled logarithm. */
  lemma IndexMonotone(mainScale: nat, x: real, y: real)
    requires x <= y
    ensures var i, j := (mainScale as real * x).Floor + 1, (mainScale as real * y).Floor + 1;
      (if i < 0 then 0 else i) <= (if j < 0 then 0 else j)
  {
    ScaleMonotone(mainScale as real, x, y);
    FloorMonotone(mainScale as real * x, mainScale as real * y);
  }

  lemma FloorMonotone(x: real, y: real)
    requires x <= y
    ensures x.Floor <= y.Floor
  {
  }

  /** `minValue` itself lands in bucket 1. */
  lemma ValueToBucketAtMin(log10: real -> real, minValue: real, mainScale: nat)
    ensures ValueToBucket(log10, minValue, mainScale, minValue) == 1
  {
  }

  lemma ScaleNegative(k: real, a: real)
    requires k > 0.0 && a < 0.0
    ensures k * a < 0.0
  {
  }

  /** A sample below `minValue` lands in bucket 0. */
  lemma ValueToBucketBelowMin(log10: real -> real, minValue: real, mainScale: nat, v: real)
    requires StrictlyMonotone(log10) && 0.0 < v < minValue && mainScale > 0
    ensures ValueToBucket(log10, minValue, mainScale, v) == 0
  {
    ScaleNegative(mainScale as real, log10(v) - log10(minValue));
  }

  // ---------------------------------------------------------------------
  // The focus list of a sum

  /** `s.indexOf(x)`: the first position of `x` in `s`, or -1. */
  function IndexOf(s: seq<nat>, x: nat): (r: int)
    ensures -1 <= r < |s|
    ensures r == -1 <==> x !in s
    ensures r >= 0 ==> s[r] == x && forall k :: 0 <= k < r ==> s[k] != x
  {
    if |s| == 0 then -1
    else if s[0] == x then 0
    else var r := IndexOf(s[1..], x); if r < 0 then -1 else r + 1
  }

  /** The elements at positions below `n` that are the first occurrence of
      their value, in order. */
  function FirstOccurrences(s: seq<nat>, n: nat): seq<nat>
    requires n <= |s|
  {
    if n == 0 then []
    else FirstOccurrences(s, n - 1) + (if IndexOf(s, s[n - 1]) == n - 1 then [s[n - 1]] else [])
  }

  /** `concat.filter((elem, pos) => concat.indexOf(elem) == pos)`: keeps
      every element of `s`, once, in the order of first occurrence. */
  function Dedup(s: seq<nat>): (r: seq<nat>)
    ensures forall x :: x in r <==> x in s
    ensures forall i, j :: 0 <= i < j < |r| ==> r[i] != r[j]
    ensures forall i, j :: 0 <= i < j < |r| ==> IndexOf(s, r[i]) < IndexOf(s, r[j])
  {
    FirstOccurrencesFacts(s);
    FirstOccurrences(s, |s|)
  }

  /** Each kept element is kept at its first occurrence, and the kept
      elements come in the order of those occurrences. */
  lemma {:induction false} FirstOccurrencesOrdered(s: seq<nat>, n: nat)
    requires n <= |s|
    ensures forall i :: 0 <= i < |FirstOccurrences(s, n)| ==> 0 <= IndexOf(s, FirstOccurrences(s, n)[i]) < n
    ensures forall i, j :: 0 <= i < j < |FirstOccurrences(s, n)| ==>
      IndexOf(s, FirstOccurrences(s, n)[i]) < IndexOf(s, FirstOccurrences(s, n)[j])
  {
    if n > 0 {
      FirstOccurrencesOrdered(s, n - 1);
      var p := FirstOccurrences(s, n - 1);
      if IndexOf(s, s[n - 1]) == n - 1 {
        OrderedAppend(s, p, FirstOccurrences(s, n), n);
      } else {
        assert FirstOccurrences(s, n) == p;
      }
    }
  }

  /** Appending the element first seen at `n - 1` to elements first seen
      earlier, in order, keeps them in order. */
  lemma OrderedAppend(s: seq<nat>, p: seq<nat>, r: seq<nat>, n: nat)
    requires 0 < n <= |s| && IndexOf(s, s[n - 1]) == n - 1 && r == p + [s[n - 1]]
    requires forall i :: 0 <= i < |p| ==> 0 <= IndexOf(s, p[i]) < n - 1
    requires forall i, j :: 0 <= i < j < |p| ==> IndexOf(s, p[i]) < IndexOf(s, p[j])
    ensures forall i :: 0 <= i < |r| ==> 0 <= IndexOf(s, r[i]) < n
    ensures forall i, j :: 0 <= i < j < |r| ==> IndexOf(s, r[i]) < IndexOf(s, r[j])
  {
    forall i | 0 <= i < |r|
      ensures 0 <= IndexOf(s, r[i]) < n
    {
      if i < |p| {
        assert r[i] == p[i];
      }
    }
    forall i, j | 0 <= i < j < |r|
      ensures IndexOf(s, r[i]) < IndexOf(s, r[j])
    {
      assert r[i] == p[i];
      if j < |p| {
        assert r[j] == p[j];
      }
    }
  }

  /** Every element at a position below `n` is kept, and only elements of `s` are. */
  lemma {:induction false} FirstOccurrencesMembers(s: seq<nat>, n: nat)
    requires n <= |s|
    ensures forall k :: 0 <= k < n ==> s[k] in FirstOccurrences(s, n)
    ensures forall x :: x in FirstOccurrences(s, n) ==> x in s
  {
    if n > 0 {
      FirstOccurrencesMembers(s, n - 1);
      var p := FirstOccurrences(s, n - 1);
      var x := s[n - 1];
      if IndexOf(s, x) != n - 1 {
        var f := IndexOf(s, x);
        assert 0 <= f < n - 1 && s[f] == x;
        assert x in p;
      }
    }
  }

  /** Filtering a whole list keeps every element, once, in the order of
      first occurrence. */
  lemma FirstOccurrencesFacts(s: seq<nat>)
    ensures var r := FirstOccurrences(s, |s|);
      && (forall x :: x in r <==> x in s)
      && (forall i, j :: 0 <= i < j < |r| ==> r[i] != r[j])
      && (forall i, j :: 0 <= i < j < |r| ==> IndexOf(s, r[i]) < IndexOf(s, r[j]))
  {
    FirstOccurrencesOrdered(s, |s|);
    FirstOccurrencesMembers(s, |s|);
    var r := FirstOccurrences(s, |s|);
    forall i, j | 0 <= i < j < |r|
      ensures r[i] != r[j]
    {
      assert IndexOf(s, r[i]) < IndexOf(s, r[j]);
    }
    forall x | x in s
      ensures x in r
    {
      var k := IndexOf(s, x);
      assert s[k] == x;
    }
  }

  /** A list without repeats is its own deduplication. */
  lemma {:induction false} FirstOccurrencesOfDistinct(s: seq<nat>, n: nat)
    requires n <= |s|
    requires forall i, j :: 0 <= i < j < |s| ==> s[i] != s[j]
    ensures FirstOccurrences(s, n) == s[..n]
  {
    if n > 0 {
      FirstOccurrencesOfDistinct(s, n - 1);
      assert IndexOf(s, s[n - 1]) == n - 1;
      assert s[..n] == s[..n - 1] + [s[n - 1]];
    }
  }

  lemma DedupIdempotent(s: seq<nat>)
    ensures Dedup(Dedup(s)) == Dedup(s)
  {
    FirstOccurrencesOfDistinct(Dedup(s), |Dedup(s)|);
  }

  // ---------------------------------------------------------------------
  // numberOfBuckets

  /** What one bucket adds to `numberOfBuckets`: one for itself and the
      length of its sub-bucket array, holes included. */
  function Slots(m: Bucket): nat
  {
    if m.subBuckets.Some? then m.subBuckets.value.length + 1 else 1
  }

  /** The slots of the buckets below `n`: never fewer than the cells the
      walk visits there, and exactly as many when no bucket has sub-buckets. */
  function SlotsBelow(items: map<nat, Bucket>, n: nat): (r: nat)
    ensures WalkLength(items, n) <= r
    ensures (forall k :: k in items ==> items[k].subBuckets.None?) ==> r == WalkLength(items, n)
  {
    if n == 0 then 0
    else if n - 1 in items then
      var m := items[n - 1];
      if m.subBuckets.Some? then
        PresentAtMost(m.subBuckets.value.items, m.subBuckets.value.length);
        SlotsBelow(items, n - 1) + Slots(m)
      else SlotsBelow(items, n - 1) + Slots(m)
    else SlotsBelow(items, n - 1)
  }

  /** `numberOfBuckets`: the reduce over the present buckets.  It counts at
      least the cells `percentile` visits, and exactly those when no bucket
      has sub-buckets. */
  function NumberOfBuckets(b: Sparse<Bucket>): (r: nat)
    ensures WalkLength(b.items, b.length) <= r
    ensures (forall k :: k in b.items ==> b.items[k].subBuckets.None?) ==> r == WalkLength(b.items, b.length)
  {
    SlotsBelow(b.items, b.length)
  }

  lemma {:induction false} PresentAtMost(items: map<nat, Cell>, n: nat)
    ensures PresentBelow(items, n) <= n
  {
    if n > 0 {
      PresentAtMost(items, n - 1);
    }
  }

  /** `numberOfBuckets` is at least the number of cells `percentile` can
      visit; without sub-buckets, it is exactly that, one per present bucket. */
  lemma NumberOfBucketsCoversWalk(b: Sparse<Bucket>)
    ensures |Walk(b)| <= NumberOfBuckets(b)
    ensures (forall k :: k in b.items ==> b.items[k].subBuckets.None?) ==> |Walk(b)| == NumberOfBuckets(b)
  {
    WalkBelowLength(b.items, b.length);
  }

  // ---------------------------------------------------------------------
  // The histogram

  /** Every present bucket lies within the histogram's extrema. */
  predicate Bounded(b: Sparse<Bucket>, min: Option<real>, max: Option<real>)
  {
    forall i :: i in b.items ==>
      && min.Some? && max.Some? && b.items[i].min.Some? && b.items[i].max.Some?
      && min.value <= b.items[i].min.value && b.items[i].max.value <= max.value
  }

  /** A cell whose extrema are set and lie within `[lo, hi]`. */
  predicate CellWithin(c: Cell, lo: real, hi: real)
  {
    c.min.Some? && c.max.Some? && lo <= c.min.value && c.max.value <= hi
  }

  /** Every sub-bucket of `m` lies within `m`'s own extrema. */
  predicate SubsWithin(m: Bucket)
  {
    m.subBuckets.Some? ==>
      && m.min.Some? && m.max.Some?
      && forall j :: j in m.subBuckets.value.items ==>
           CellWithin(m.subBuckets.value.items[j], m.min.value, m.max.value)
  }

  /** Every bucket's sub-buckets lie within the bucket's extrema. */
  predicate Nested(b: Sparse<Bucket>)
  {
    forall i :: i in b.items ==> SubsWithin(b.items[i])
  }

  /** The invariant every histogram keeps, whatever the order of `update`
      and `add` calls: a usable configuration, a shaped bucket array whose
      counts add up to `count`, extrema that are unset exactly when the
      histogram is empty and that bound every bucket, and sub-buckets within
      their buckets. */
  ghost predicate ShapedState(minValue: real, mainScale: nat, subScale: nat, buckets: Sparse<Bucket>,
                              min: Option<real>, max: Option<real>, count: nat)
  {
    && minValue > 0.0 && mainScale > 0 && subScale > 0
    && Shaped(buckets)
    && count == BucketTotal(buckets)
    && (min.None? <==> count == 0) && (max.None? <==> count == 0)
    && Bounded(buckets, min, max) && Nested(buckets)
  }

  /** The stronger invariant of a histogram whose sub-buckets hold all the
      samples of their buckets: then every percentile lies within the
      extrema. */
  ghost predicate ValidState(minValue: real, mainScale: nat, subScale: nat, buckets: Sparse<Bucket>,
                             min: Option<real>, max: Option<real>, count: nat)
  {
    ShapedState(minValue, mainScale, subScale, buckets, min, max, count) && Sound(buckets)
  }

  /** What `toJSON` returns: `{count: 0}`, or the statistics. */
  datatype Summary =
    | Blank
    | Stats(min: real, max: real, count: nat, median: real, p75: real, p95: real, p99: real, p999: real, numBuckets: nat)

  datatype AddOutcome = Incompatible | Combined(result: DBHistogram)

  class DBHistogram {
    var minValue: real
    var mainScale: nat
    var subScale: nat
    var focusBuckets: seq<nat>
    var buckets: Sparse<Bucket>
    var min: Option<real>
    var max: Option<real>
    var count: nat

    /** The invariant every histogram keeps (see `ShapedState`). */
    ghost predicate Consistent()
      reads this
    {
      ShapedState(minValue, mainScale, subScale, buckets, min, max, count)
    }

    /** The stronger invariant (see `ValidState`). */
    ghost predicate Valid()
      reads this
    {
      ValidState(minValue, mainScale, subScale, buckets, min, max, count)
    }

    /** `new DBHistogram(properties, focusBuckets)`: a zero (or absent)
        setting takes its default, 0.01, 5 and 5. */
    constructor (minValue: real, mainScale: nat, subScale: nat, focusBuckets: seq<nat>)
      requires minValue >= 0.0
      ensures this.minValue == if minValue == 0.0 then 0.01 else minValue
      ensures this.mainScale == if mainScale == 0 then 5 else mainScale
      ensures this.subScale == if subScale == 0 then 5 else subScale
      ensures this.focusBuckets == focusBuckets
      ensures buckets == Empty() && min.None? && max.None? && count == 0
      ensures Consistent() && Valid() && Covered(buckets, this.focusBuckets)
    {
      this.minValue := if minValue == 0.0 then 0.01 else minValue;
      this.mainScale := if mainScale == 0 then 5 else mainScale;
      this.subScale := if subScale == 0 then 5 else subScale;
      this.focusBuckets := focusBuckets;
      buckets := Empty();
      min := None;
      max := None;
      count := 0;
    }

    /** The histogram `add` returns: created with the operands' settings,
        then given its extrema, count, focus list and buckets. */
    constructor Sum(minValue: real, mainScale: nat, subScale: nat, focusBuckets: seq<nat>,
                    buckets: Sparse<Bucket>, min: Option<real>, max: Option<real>, count: nat)
      requires ShapedState(minValue, mainScale, subScale, buckets, min, max, count)
      ensures this.minValue == minValue && this.mainScale == mainScale && this.subScale == subScale
      ensures this.focusBuckets == focusBuckets && this.buckets == buckets
      ensures this.min == min && this.max == max && this.count == count
      ensures Consistent()
    {
      this.minValue := minValue;
      this.mainScale := mainScale;
      this.subScale := subScale;
      this.focusBuckets := focusBuckets;
      this.buckets := buckets;
      this.min := min;
      this.max := max;
      this.count := count;
    }

    /** `update(value)`: a non-positive value is refused and nothing
        changes; otherwise the sample is recorded in its bucket (and
        sub-bucket, for a focus bucket), and the count and extrema of the
        histogram take it in.  The histogram stays consistent, and a valid
        histogram whose focus buckets all have sub-buckets stays valid. */
    method Update(value: real, log10: real -> real, subIndex: (nat, real) -> nat) returns (ok: bool)
      requires Consistent()
      modifies this
      ensures ok <==> value > 0.0
      ensures minValue == old(minValue) && mainScale == old(mainScale) && subScale == old(subScale)
      ensures focusBuckets == old(focusBuckets)
      ensures !ok ==> buckets == old(buckets) && count == old(count) && min == old(min) && max == old(max)
      ensures ok ==>
        && buckets == Record(old(buckets), focusBuckets, ValueToBucket(log10, minValue, mainScale, value),
                             ValueToSubBucket(minValue, subScale, subIndex, ValueToBucket(log10, minValue, mainScale, value), value),
                             value)
        && count == old(count) + 1
        && min == SafeMin(old(min), Some(value)) && max == SafeMax(old(max), Some(value))
      ensures Consistent()
      ensures old(Valid() && Covered(buckets, focusBuckets)) ==> Valid() && Covered(buckets, focusBuckets)
    {
      if value <= 0.0 {
        return false;
      }
      var bucket := ValueToBucket(log10, minValue, mainScale, value);
      var sub := ValueToSubBucket(minValue, subScale, subIndex, bucket, value);
      RecordKeepsState(minValue, mainScale, subScale, buckets, focusBuckets, bucket, sub, value, min, max, count);
      buckets := RecordSample(buckets, focusBuckets, bucket, sub, value);
      min := SafeMin(min, Some(value));
      max := SafeMax(max, Some(value));
      count := count + 1;
      return true;
    }

    /** `add(other)`: histograms with different settings are refused;
        otherwise the sum is a new consistent histogram with the same
        settings, the counts and extrema of both, their focus buckets once
        each, and every bucket index of either merged; it is valid when both
        operands are.  Neither operand changes. */
    method Add(other: DBHistogram) returns (r: AddOutcome)
      requires Consistent() && other.Consistent()
      ensures r.Incompatible? <==>
                mainScale != other.mainScale || subScale != other.subScale || minValue != other.minValue
      ensures r.Combined? ==>
        && fresh(r.result) && r.result.Consistent()
        && (Valid() && other.Valid() ==> r.result.Valid())
        && r.result.minValue == minValue && r.result.mainScale == mainScale && r.result.subScale == subScale
        && r.result.count == count + other.count
        && r.result.min == SafeMin(min, other.min) && r.result.max == SafeMax(max, other.max)
        && r.result.focusBuckets == Dedup(focusBuckets + other.focusBuckets)
        && r.result.buckets.length == (if buckets.length >= other.buckets.length then buckets.length else other.buckets.length)
        && (forall i :: i in r.result.buckets.items <==> i in buckets.items || i in other.buckets.items)
        && (forall i :: i in r.result.buckets.items ==>
              MergedAt(buckets.items, other.buckets.items, i, r.result.buckets.items[i]))
    {
      if mainScale != other.mainScale || subScale != other.subScale || minValue != other.minValue {
        return Incompatible;
      }
      var merged := MergeBuckets(buckets, other.buckets);
      MergedConsistent(minValue, mainScale, subScale, buckets, min, max, count, other.buckets, other.min, other.max, other.count, merged);
      var result := new DBHistogram.Sum(minValue, mainScale, subScale, Dedup(focusBuckets + other.focusBuckets),
                                        merged, SafeMin(min, other.min), SafeMax(max, other.max), count + other.count);
      return Combined(result);
    }

    /** `toJSON()`: `{count: 0}` when the buckets hold no sample; otherwise
        the extrema, the count, the five percentiles of the walk, and
        `numberOfBuckets`.  The percentiles of a valid histogram lie within
        its extrema. */
    method ToJSON() returns (s: Summary)
      requires Consistent()
      ensures s.Blank? <==> BucketTotal(buckets) == 0
      ensures s.Stats? ==>
        && Some(s.min) == min && Some(s.max) == max && s.count == count
        && Reports(buckets, count, min, max, 0.5, s.median)
        && Reports(buckets, count, min, max, 0.75, s.p75)
        && Reports(buckets, count, min, max, 0.95, s.p95)
        && Reports(buckets, count, min, max, 0.99, s.p99)
        && Reports(buckets, count, min, max, 0.999, s.p999)
        && s.numBuckets == NumberOfBuckets(buckets)
      ensures s.Stats? && Valid() ==>
        && s.min <= s.median <= s.max && s.min <= s.p75 <= s.max && s.min <= s.p95 <= s.max
        && s.min <= s.p99 <= s.max && s.min <= s.p999 <= s.max
    {
      var samplesCount := BucketTotal(buckets);
      if samplesCount == 0 {
        return Blank;
      }
      var median := ReportedPercentile(0.5, buckets, samplesCount, min, max);
      var p75 := ReportedPercentile(0.75, buckets, samplesCount, min, max);
      var p95 := ReportedPercentile(0.95, buckets, samplesCount, min, max);
      var p99 := ReportedPercentile(0.99, buckets, samplesCount, min, max);
      var p999 := ReportedPercentile(0.999, buckets, samplesCount, min, max);
      s := Stats(min.value, max.value, count, median, p75, p95, p99, p999, NumberOfBuckets(buckets));
    }
  }

  /** The bucket-array part of `update`, step by step: the bucket (created
      as `{count: 0}` if absent) takes the sample in, and a focus bucket's
      sub-bucket (created likewise, in a sub-bucket array created as `[]`)
      takes it in too. */
  method RecordSample(b: Sparse<Bucket>, focus: seq<nat>, i: nat, j: nat, v: real) returns (r: Sparse<Bucket>)
    ensures r == Record(b, focus, i, j, v)
  {
    var m := BucketAt(b, i);
    m := m.(count := m.count + 1);
    m := m.(min := SafeMin(m.min, Some(v)));
    m := m.(max := SafeMax(m.max, Some(v)));
    r := Assign(b, i, m);
    if i in focus {
      var subs := if m.subBuckets.Some? then m.subBuckets.value else Empty();
      var c := CellAt(subs, j);
      c := c.(count := c.count + 1);
      c := c.(min := SafeMin(c.min, Some(v)));
      c := c.(max := SafeMax(c.max, Some(v)));
      subs := Assign(subs, j, c);
      r := Assign(r, i, m.(subBuckets := Some(subs)));
    }
  }

  /** `v` is what `percentile(p, buckets, samplesCount)` returns: the
      interpolation of the walk at the rank `p * samplesCount`, which lies
      within the extrema `[min, max]` when the buckets are sound. */
  ghost predicate Reports(buckets: Sparse<Bucket>, samplesCount: nat, min: Option<real>, max: Option<real>,
                          p: real, v: real)
  {
    && |Walk(buckets)| > 0 && AllOccupied(Walk(buckets))
    && v == PercentileOf(Walk(buckets), p * samplesCount as real)
    && (Sound(buckets) ==> min.Some? && max.Some? && min.value <= v <= max.value)
  }

  /** `percentile` over a histogram's buckets, as `toJSON` calls it. */
  method ReportedPercentile(p: real, buckets: Sparse<Bucket>, samplesCount: nat, min: Option<real>, max: Option<real>)
    returns (v: real)
    requires 0.0 < p <= 1.0
    requires Shaped(buckets) && Nested(buckets) && Bounded(buckets, min, max)
    requires samplesCount == BucketTotal(buckets) > 0
    ensures Reports(buckets, samplesCount, min, max, p, v)
  {
    v := Percentile.Percentile(p, buckets, samplesCount);
    assert buckets.length - 1 in buckets.items;
    if Sound(buckets) {
      PercentileBounded(buckets, p, p * samplesCount as real, min, max);
    }
  }

  /** Recording a sample in a histogram whose focus buckets all have
      sub-buckets keeps everything `Valid` says about its buckets. */
  lemma RecordValid(b: Sparse<Bucket>, focus: seq<nat>, i: nat, j: nat, v: real,
                    count: nat, min: Option<real>, max: Option<real>)
    requires WellFormed(b) && count == BucketTotal(b) && Bounded(b, min, max)
    ensures var r := Record(b, focus, i, j, v);
      && BucketTotal(r) == count + 1
      && Bounded(r, SafeMin(min, Some(v)), SafeMax(max, Some(v)))
      && (Nested(b) ==> Nested(r))
      && (Shaped(b) ==> Shaped(r))
      && (Sound(b) && Covered(b, focus) ==> Sound(r) && Covered(r, focus))
  {
    RecordCounts(b, focus, i, j, v);
    RecordBounded(b, focus, i, j, v, min, max);
    if Shaped(b) {
      RecordKeepsShaped(b, focus, i, j, v);
    }
    if Nested(b) {
      RecordNested(b, focus, i, j, v);
    }
    if Sound(b) && Covered(b, focus) {
      RecordKeepsSound(b, focus, i, j, v);
    }
  }

  /** Recording a sample widens the extrema to cover it, and they still
      bound every bucket. */
  lemma RecordBounded(b: Sparse<Bucket>, focus: seq<nat>, i: nat, j: nat, v: real, min: Option<real>, max: Option<real>)
    requires WellFormed(b) && Bounded(b, min, max)
    ensures Bounded(Record(b, focus, i, j, v), SafeMin(min, Some(v)), SafeMax(max, Some(v)))
  {
    RecordCounts(b, focus, i, j, v);
  }

  /** `update` keeps the invariant: recording a sample and folding it into
      the count and the extrema gives a shaped state again, and a valid one
      when the state was valid and its focus buckets covered. */
  lemma RecordKeepsState(minValue: real, mainScale: nat, subScale: nat, b: Sparse<Bucket>, focus: seq<nat>,
                         i: nat, j: nat, v: real, min: Option<real>, max: Option<real>, count: nat)
    requires ShapedState(minValue, mainScale, subScale, b, min, max, count)
    ensures var r := Record(b, focus, i, j, v);
      ShapedState(minValue, mainScale, subScale, r, SafeMin(min, Some(v)), SafeMax(max, Some(v)), count + 1)
    ensures var r := Record(b, focus, i, j, v);
      ValidState(minValue, mainScale, subScale, b, min, max, count) && Covered(b, focus) ==>
        ValidState(minValue, mainScale, subScale, r, SafeMin(min, Some(v)), SafeMax(max, Some(v)), count + 1)
        && Covered(r, focus)
  {
    RecordValid(b, focus, i, j, v, count, min, max);
  }

  /** Merged buckets lie within the combined extrema of the operands. */
  lemma MergedBounded(a: Sparse<Bucket>, b: Sparse<Bucket>, r: Sparse<Bucket>,
                      aMin: Option<real>, aMax: Option<real>, bMin: Option<real>, bMax: Option<real>)
    requires Bounded(a, aMin, aMax) && Bounded(b, bMin, bMax)
    requires forall i :: i in r.items <==> i in a.items || i in b.items
    requires forall i :: i in r.items ==> MergedAt(a.items, b.items, i, r.items[i])
    ensures Bounded(r, SafeMin(aMin, bMin), SafeMax(aMax, bMax))
  {
  }

  /** Recording a sample widens the bucket's extrema at least as much as
      its sub-bucket's, so the sub-buckets stay within their bucket. */
  lemma RecordNested(b: Sparse<Bucket>, focus: seq<nat>, i: nat, j: nat, v: real)
    requires Nested(b)
    ensures Nested(Record(b, focus, i, j, v))
  {
    var r := Record(b, focus, i, j, v);
    var was := BucketAt(b, i);
    var m := r.items[i];
    assert m.min == SafeMin(was.min, Some(v)) && m.max == SafeMax(was.max, Some(v));
    if i in focus {
      var s := if was.subBuckets.Some? then was.subBuckets.value else Empty();
      var subs := m.subBuckets.value;
      assert subs == Assign(s, j, Fold(CellAt(s, j), v));
      forall k | k in subs.items
        ensures CellWithin(subs.items[k], m.min.value, m.max.value)
      {
        if k != j {
          assert subs.items[k] == s.items[k];
          assert was.subBuckets.Some? && SubsWithin(was);
        } else if j in s.items {
          assert was.subBuckets.Some? && SubsWithin(was);
        }
      }
    }
  }

  /** A merged bucket's sub-buckets lie within its extrema. */
  lemma MergedAtNested(a: map<nat, Bucket>, b: map<nat, Bucket>, i: nat, m: Bucket)
    requires forall k :: k in a ==> SubsWithin(a[k]) && Occupied(a[k].Stats())
    requires forall k :: k in b ==> SubsWithin(b[k]) && Occupied(b[k].Stats())
    requires MergedAt(a, b, i, m)
    ensures SubsWithin(m)
  {
    if i in a && i in b && m.subBuckets.Some? {
      var x, y := a[i], b[i];
      var subs := m.subBuckets.value;
      forall k | k in subs.items
        ensures CellWithin(subs.items[k], m.min.value, m.max.value)
      {
        if x.subBuckets.Some? && y.subBuckets.Some? {
          var xs, ys := x.subBuckets.value.items, y.subBuckets.value.items;
          assert subs.items[k] == JoinAt(xs, ys, k);
          if k in xs && k in ys {
            assert CellWithin(xs[k], x.min.value, x.max.value);
            assert CellWithin(ys[k], y.min.value, y.max.value);
          }
        } else if x.subBuckets.Some? {
          assert k in x.subBuckets.value.items;
        } else {
          assert k in y.subBuckets.value.items;
        }
      }
    }
  }

  /** `add` keeps every bucket's sub-buckets within the bucket. */
  lemma MergedNested(a: Sparse<Bucket>, b: Sparse<Bucket>, r: Sparse<Bucket>)
    requires Shaped(a) && Shaped(b) && Nested(a) && Nested(b)
    requires forall i :: i in r.items <==> i in a.items || i in b.items
    requires forall i :: i in r.items ==> MergedAt(a.items, b.items, i, r.items[i])
    ensures Nested(r)
  {
    forall i | i in r.items
      ensures SubsWithin(r.items[i])
    {
      MergedAtNested(a.items, b.items, i, r.items[i]);
    }
  }

  /** The sub-buckets below `n` of a bucket lie within its extrema. */
  lemma {:induction false} SubCellsWithin(items: map<nat, Cell>, n: nat, lo: real, hi: real)
    requires forall j :: j in items ==> CellWithin(items[j], lo, hi)
    ensures forall k :: 0 <= k < |SubCellsBelow(items, n)| ==> CellWithin(SubCellsBelow(items, n)[k], lo, hi)
  {
    if n > 0 {
      SubCellsWithin(items, n - 1, lo, hi);
      var p := SubCellsBelow(items, n - 1);
      if n - 1 in items {
        assert SubCellsBelow(items, n) == p + [items[n - 1]];
      }
    }
  }

  /** Every cell the walk visits below bucket `n` lies within the
      histogram's extrema. */
  lemma {:induction false} WalkBelowWithin(items: map<nat, Bucket>, n: nat, lo: real, hi: real)
    requires forall i :: i in items ==> SubsWithin(items[i]) && CellWithin(items[i].Stats(), lo, hi)
    ensures forall k :: 0 <= k < |WalkBelow(items, n)| ==> CellWithin(WalkBelow(items, n)[k], lo, hi)
  {
    if n > 0 {
      WalkBelowWithin(items, n - 1, lo, hi);
      var p := WalkBelow(items, n - 1);
      if n - 1 in items {
        var m := items[n - 1];
        var c := CellsOf(m);
        assert WalkBelow(items, n) == p + c;
        if m.subBuckets.Some? {
          SubCellsWithin(m.subBuckets.value.items, m.subBuckets.value.length, lo, hi);
        }
        forall k | 0 <= k < |p + c|
          ensures CellWithin((p + c)[k], lo, hi)
        {
          if k >= |p| {
            assert (p + c)[k] == c[k - |p|];
          }
        }
      }
    }
  }

  /** Every cell of `cells` lies within `[lo, hi]`. */
  predicate AllWithin(cells: seq<Cell>, lo: real, hi: real)
  {
    forall k :: 0 <= k < |cells| ==> CellWithin(cells[k], lo, hi)
  }

  /** Over cells that all lie within `[lo, hi]`, every percentile does too. */
  lemma CellsPercentileBounded(cells: seq<Cell>, p: real, total: nat, target: real, lo: real, hi: real)
    requires 0.0 < p <= 1.0 && AllOccupied(cells) && Sum(cells) == total > 0
    requires target == p * total as real
    requires AllWithin(cells, lo, hi)
    ensures |cells| > 0
    ensures lo <= PercentileOf(cells, target) <= hi
  {
    PercentileWithin(cells, p, total);
    var k := Crossing(cells, target);
    assert CellWithin(cells[k], lo, hi);
  }

  /** Every cell of the walk lies within the histogram's extrema. */
  lemma WalkWithin(b: Sparse<Bucket>, min: Option<real>, max: Option<real>)
    requires Nested(b) && Bounded(b, min, max) && min.Some? && max.Some?
    ensures AllWithin(Walk(b), min.value, max.value)
  {
    forall i | i in b.items
      ensures SubsWithin(b.items[i]) && CellWithin(b.items[i].Stats(), min.value, max.value)
    {
    }
    WalkBelowWithin(b.items, b.length, min.value, max.value);
  }

  /** A histogram holding samples has its extrema set. */
  lemma ExtremaSet(b: Sparse<Bucket>, min: Option<real>, max: Option<real>)
    requires WellFormed(b) && Bounded(b, min, max) && BucketTotal(b) > 0
    ensures min.Some? && max.Some?
  {
    assert b.length - 1 in b.items;
  }

  /** Every percentile `toJSON` reports lies within the histogram's
      extrema; `target` is the rank `p * samplesCount`. */
  lemma PercentileBounded(b: Sparse<Bucket>, p: real, target: real, min: Option<real>, max: Option<real>)
    requires 0.0 < p <= 1.0
    requires Sound(b) && Nested(b) && Bounded(b, min, max) && BucketTotal(b) > 0
    requires target == p * BucketTotal(b) as real
    ensures |Walk(b)| > 0 && AllOccupied(Walk(b))
    ensures min.Some? && max.Some?
    ensures min.value <= PercentileOf(Walk(b), target) <= max.value
  {
    ghost var cells := Walk(b);
    WalkBelowSum(b, b.length);
    ExtremaSet(b, min, max);
    WalkWithin(b, min, max);
    CellsPercentileBounded(cells, p, BucketTotal(b), target, min.value, max.value);
  }

  /** Coverage is needed: a bucket that holds a sample but no sub-buckets
      (as `add` can leave one whose index only the other operand focused
      on) gets a fresh sub-bucket array holding only the new sample, so its
      sub-bucket total falls behind its count. */
  lemma UncoveredRecordUnbalances()
    ensures var b := Sparse(map[1 := Bucket(1, Some(2.0), Some(2.0), None)], 2);
      && Sound(b) && !Covered(b, [1])
      && var r := Record(b, [1], 1, 0, 3.0);
      && r.items[1].count == 2 && Total(r.items[1].subBuckets.value) == 1 && !Sound(r)
  {
    var b := Sparse(map[1 := Bucket(1, Some(2.0), Some(2.0), None)], 2);
    var r := Record(b, [1], 1, 0, 3.0);
    var subs := r.items[1].subBuckets.value;
    assert subs.items == map[0 := Cell(1, Some(3.0), Some(3.0))] && subs.length == 1;
    assert Total(subs) == CountsBelow(subs.items, 0) + 1;
  }

  /** A histogram reachable by `update` and `add` whose focus bucket 1 holds
      a sample from before it had sub-buckets: `new DBHistogram({minValue:
      1, mainScale: 1}, [1])` added to a histogram without focus that took
      2, then updated with 3 and 3.5 (both in sub-bucket 2 of bucket 1).
      Its sub-buckets hold two of the bucket's three samples, so the walk
      falls short of the rank 2.25 of the 75th percentile and `percentile`
      extrapolates past the last cell to 3.5625, above the maximum 3.5. */
  lemma UnbalancedPercentileAboveMax()
    ensures var b := Record(Record(Sparse(map[1 := Bucket(1, Some(2.0), Some(2.0), None)], 2), [1], 1, 2, 3.0),
                            [1], 1, 2, 3.5);
      && ShapedState(1.0, 1, 5, b, Some(2.0), Some(3.5), 3) && !Sound(b)
      && |Walk(b)| > 0 && AllOccupied(Walk(b))
      && PercentileOf(Walk(b), 0.75 * 3 as real) == 3.5625 > 3.5
  {
    var c := Cell(2, Some(3.0), Some(3.5));
    var b := Sparse(map[1 := Bucket(3, Some(2.0), Some(3.5), Some(Sparse(map[2 := c], 3)))], 2);
    TwoSamplesAfterMerge();
    UnbalancedState(b, c);
    UnbalancedWalk(b, c);
    ExtrapolatedPercentile(c);
  }

  lemma ExtrapolatedPercentile(c: Cell)
    requires c == Cell(2, Some(3.0), Some(3.5))
    ensures PercentileOf([c], 0.75 * 3 as real) == 3.5625
  {
    assert Crossing([c], 0.75 * 3 as real) == 0;
  }

  lemma TwoSamplesAfterMerge()
    ensures Record(Record(Sparse(map[1 := Bucket(1, Some(2.0), Some(2.0), None)], 2), [1], 1, 2, 3.0), [1], 1, 2, 3.5)
            == Sparse(map[1 := Bucket(3, Some(2.0), Some(3.5), Some(Sparse(map[2 := Cell(2, Some(3.0), Some(3.5))], 3)))], 2)
  {
    var b0 := Sparse(map[1 := Bucket(1, Some(2.0), Some(2.0), None)], 2);
    var b1 := Record(b0, [1], 1, 2, 3.0);
    var s1 := Sparse(map[2 := Cell(1, Some(3.0), Some(3.0))], 3);
    assert b1 == Sparse(map[1 := Bucket(2, Some(2.0), Some(3.0), Some(s1))], 2);
    var c := Cell(2, Some(3.0), Some(3.5));
    assert SubsOf(b1.items[1]) == s1;
    assert Fold(CellAt(s1, 2), 3.5) == c;
    assert Assign(s1, 2, c) == Sparse(map[2 := c], 3);
    assert Fold(b1.items[1].Stats(), 3.5) == Cell(3, Some(2.0), Some(3.5));
  }

  lemma UnbalancedState(b: Sparse<Bucket>, c: Cell)
    requires c == Cell(2, Some(3.0), Some(3.5))
    requires b == Sparse(map[1 := Bucket(3, Some(2.0), Some(3.5), Some(Sparse(map[2 := c], 3)))], 2)
    ensures ShapedState(1.0, 1, 5, b, Some(2.0), Some(3.5), 3) && !Sound(b)
  {
    var subs := Sparse(map[2 := c], 3);
    assert CountsBelow(subs.items, 1) == 0;
    assert CountsBelow(subs.items, 2) == 0;
    assert Total(subs) == 2;
    assert BucketCountsBelow(b.items, 1) == 0;
    assert BucketTotal(b) == 3;
  }

  lemma UnbalancedWalk(b: Sparse<Bucket>, c: Cell)
    requires c == Cell(2, Some(3.0), Some(3.5))
    requires b == Sparse(map[1 := Bucket(3, Some(2.0), Some(3.5), Some(Sparse(map[2 := c], 3)))], 2)
    ensures Walk(b) == [c]
  {
    var subs := Sparse(map[2 := c], 3);
    assert SubCellsBelow(subs.items, 1) == [];
    assert SubCellsBelow(subs.items, 2) == [];
    assert WalkBelow(b.items, 1) == [];
    assert CellsOf(b.items[1]) == [c];
    assert Walk(b) == [] + [c];
  }

  /** The sum of two consistent histograms with the same settings is
      consistent, and valid when its buckets are sound. */
  lemma MergedConsistent(minValue: real, mainScale: nat, subScale: nat,
                         a: Sparse<Bucket>, aMin: Option<real>, aMax: Option<real>, aCount: nat,
                         b: Sparse<Bucket>, bMin: Option<real>, bMax: Option<real>, bCount: nat,
                         r: Sparse<Bucket>)
    requires ShapedState(minValue, mainScale, subScale, a, aMin, aMax, aCount)
    requires ShapedState(minValue, mainScale, subScale, b, bMin, bMax, bCount)
    requires WellFormed(r) && r.length == if a.length >= b.length then a.length else b.length
    requires forall i :: i in r.items <==> i in a.items || i in b.items
    requires forall i :: i in r.items ==> MergedAt(a.items, b.items, i, r.items[i])
    ensures ShapedState(minValue, mainScale, subScale, r, SafeMin(aMin, bMin), SafeMax(aMax, bMax), aCount + bCount)
    ensures Sound(a) && Sound(b) ==>
              ValidState(minValue, mainScale, subScale, r, SafeMin(aMin, bMin), SafeMax(aMax, bMax), aCount + bCount)
  {
    MergedShaped(a, b, r);
    MergedBounded(a, b, r, aMin, aMax, bMin, bMax);
    MergedNested(a, b, r);
  }
}
