/** `percentile`: the cumulative walk over buckets and sub-buckets and the
    linear interpolation inside the cell where the walk crosses the rank. */
module Percentile {
  import opened Extrema
  import opened SparseArrays
  import opened Buckets

  // ---------------------------------------------------------------------
  // The cells in walk order

  /** The sub-buckets present below index `n`, by index. */
  function SubCellsBelow(items: map<nat, Cell>, n: nat): seq<Cell>
  {
    if n == 0 then [] else SubCellsBelow(items, n - 1) + (if n - 1 in items then [items[n - 1]] else [])
  }

  /** The cells one bucket contributes to the walk: its present sub-buckets
      by index when it has sub-buckets, the bucket itself otherwise. */
  function CellsOf(m: Bucket): seq<Cell>
  {
    if m.subBuckets.Some? then SubCellsBelow(m.subBuckets.value.items, m.subBuckets.value.length)
    else [m.Stats()]
  }

  function WalkBelow(items: map<nat, Bucket>, n: nat): seq<Cell>
  {
    if n == 0 then [] else WalkBelow(items, n - 1) + (if n - 1 in items then CellsOf(items[n - 1]) else [])
  }

  /** Every cell in the order `percentile` visits them: buckets by index,
      the sub-buckets of a bucket by index. */
  function Walk(b: Sparse<Bucket>): (r: seq<Cell>)
    ensures |r| == WalkLength(b.items, b.length)
    ensures Shaped(b) ==> AllOccupied(r)
  {
    WalkBelowLength(b.items, b.length);
    if Shaped(b) then WalkBelowOccupied(b, b.length); WalkBelow(b.items, b.length)
    else WalkBelow(b.items, b.length)
  }

  /** Every cell in the sequence holds samples. */
  predicate AllOccupied(cells: seq<Cell>)
  {
    forall i :: 0 <= i < |cells| ==> Occupied(cells[i])
  }

  /** Sum of the counts of a sequence of cells. */
  function Sum(cells: seq<Cell>): nat
  {
    if cells == [] then 0 else Sum(cells[..|cells| - 1]) + cells[|cells| - 1].count
  }

  lemma {:induction false} SumAppend(s: seq<Cell>, t: seq<Cell>)
    ensures Sum(s + t) == Sum(s) + Sum(t)
  {
    if t != [] {
      assert (s + t)[..|s + t| - 1] == s + t[..|t| - 1];
      SumAppend(s, t[..|t| - 1]);
    } else {
      assert s + t == s;
    }
  }

  lemma {:induction false} SubCellsSum(items: map<nat, Cell>, n: nat)
    ensures Sum(SubCellsBelow(items, n)) == CountsBelow(items, n)
    ensures (forall j :: j in items ==> Occupied(items[j])) ==> AllOccupied(SubCellsBelow(items, n))
  {
    if n > 0 {
      SubCellsSum(items, n - 1);
      SumAppend(SubCellsBelow(items, n - 1), if n - 1 in items then [items[n - 1]] else []);
      assert Sum([]) == 0;
    }
  }

  lemma OccupiedAppend(s: seq<Cell>, t: seq<Cell>)
    requires AllOccupied(s) && AllOccupied(t)
    ensures AllOccupied(s + t)
  {
    forall i | 0 <= i < |s + t|
      ensures Occupied((s + t)[i])
    {
      if i >= |s| {
        assert (s + t)[i] == t[i - |s|];
      }
    }
  }

  /** A sound bucket contributes cells that hold samples, as many as it counts. */
  lemma CellsOfSum(m: Bucket)
    requires BucketSound(m)
    ensures Sum(CellsOf(m)) == m.count && AllOccupied(CellsOf(m))
  {
    if m.subBuckets.Some? {
      SubCellsSum(m.subBuckets.value.items, m.subBuckets.value.length);
    } else {
      assert Sum([m.Stats()]) == Sum([]) + m.count;
    }
  }

  /** In a sound histogram, the walk visits exactly the histogram's samples,
      and every cell it visits is occupied. */
  lemma {:induction false} WalkBelowSum(b: Sparse<Bucket>, n: nat)
    requires Sound(b)
    ensures Sum(WalkBelow(b.items, n)) == BucketCountsBelow(b.items, n)
    ensures AllOccupied(WalkBelow(b.items, n))
  {
    if n > 0 {
      WalkBelowSum(b, n - 1);
      var tail := if n - 1 in b.items then CellsOf(b.items[n - 1]) else [];
      SumAppend(WalkBelow(b.items, n - 1), tail);
      if n - 1 in b.items {
        CellsOfSum(b.items[n - 1]);
      }
      OccupiedAppend(WalkBelow(b.items, n - 1), tail);
    }
  }

  lemma {:induction false} SubCellsPrefix(items: map<nat, Cell>, j: nat, n: nat)
    requires j <= n
    ensures SubCellsBelow(items, j) <= SubCellsBelow(items, n)
  {
    if j < n {
      SubCellsPrefix(items, j, n - 1);
    }
  }

  lemma {:induction false} WalkPrefix(items: map<nat, Bucket>, j: nat, n: nat)
    requires j <= n
    ensures WalkBelow(items, j) <= WalkBelow(items, n)
  {
    if j < n {
      WalkPrefix(items, j, n - 1);
    }
  }

  // ---------------------------------------------------------------------
  // The crossing cell and the interpolation

  /** Sums of longer prefixes are never smaller. */
  lemma {:induction false} SumMonotone(cells: seq<Cell>, j: nat, k: nat)
    requires j <= k <= |cells|
    ensures Sum(cells[..j]) <= Sum(cells[..k])
  {
    if j < k {
      SumMonotone(cells, j, k - 1);
      assert cells[..k][..k - 1] == cells[..k - 1];
    }
  }

  /** The first position at or after `k` whose cell brings the cumulative
      count to `target`, or the last position if none does. */
  function CrossingFrom(cells: seq<Cell>, target: real, k: nat): (r: nat)
    requires k < |cells|
    ensures k <= r < |cells|
    decreases |cells| - k
  {
    if target <= Sum(cells[..k + 1]) as real || k == |cells| - 1 then k
    else CrossingFrom(cells, target, k + 1)
  }

  /** A cell whose preceding count is below the target and whose own count
      reaches it is the one the search finds. */
  lemma {:induction false} CrossingIsUnique(cells: seq<Cell>, target: real, j: nat, k: nat)
    requires j <= k < |cells|
    requires Sum(cells[..k]) as real < target <= Sum(cells[..k + 1]) as real
    ensures CrossingFrom(cells, target, j) == k
    decreases k - j
  {
    if j < k {
      SumMonotone(cells, j + 1, k);
      CrossingIsUnique(cells, target, j + 1, k);
    }
  }

  /** The cell `percentile` interpolates in, for the rank `target`. */
  function Crossing(cells: seq<Cell>, target: real): nat
    requires |cells| > 0
  {
    CrossingFrom(cells, target, 0)
  }

  /** Linear interpolation inside a cell, `rank` samples past the cells before it. */
  function Interpolate(c: Cell, rank: real): real
    requires Occupied(c)
  {
    rank / (c.count as real) * (c.max.value - c.min.value) + c.min.value
  }

  /** What `percentile` returns for the rank `target` = `percentile * samplesCount`. */
  function PercentileOf(cells: seq<Cell>, target: real): real
    requires |cells| > 0 && AllOccupied(cells)
  {
    var k := Crossing(cells, target);
    Interpolate(cells[k], target - Sum(cells[..k]) as real)
  }

  lemma ScaleWithin(f: real, d: real)
    requires 0.0 <= f <= 1.0 && 0.0 <= d
    ensures 0.0 <= f * d <= d
  {
  }

  /** The interpolated value lies within the cell's extrema when the rank
      falls inside the cell. */
  lemma InterpolateWithin(c: Cell, rank: real)
    requires Occupied(c) && 0.0 < rank <= c.count as real
    ensures c.min.value <= Interpolate(c, rank) <= c.max.value
  {
    var n := c.count as real;
    var f := rank / n;
    assert f <= 1.0 by {
      assert f * n == rank;
    }
    assert 0.0 <= f;
    var d := c.max.value - c.min.value;
    ScaleWithin(f, d);
    assert Interpolate(c, rank) == f * d + c.min.value;
  }

  /** For `0 < percentile <= 1` over a sound histogram with `samplesCount`
      its total, the walk crosses the rank inside a cell: the samples before
      that cell fall short of `percentile * samplesCount`, those up to and
      including it reach it, and the value returned lies within that cell's
      extrema. */
  lemma PercentileInCell(b: Sparse<Bucket>, p: real, samplesCount: nat)
    requires 0.0 < p <= 1.0
    requires Sound(b) && samplesCount == BucketTotal(b) && samplesCount > 0
    ensures var cells, target := Walk(b), p * samplesCount as real;
      && |cells| > 0 && AllOccupied(cells)
      && var k := Crossing(cells, target);
      && Sum(cells[..k]) as real < target <= Sum(cells[..k + 1]) as real
      && cells[k].min.value <= PercentileOf(cells, target) <= cells[k].max.value
  {
    WalkBelowSum(b, b.length);
    PercentileWithin(Walk(b), p, samplesCount);
  }

  /** For `0 < percentile <= 1` over cells that hold samples, the crossing
      cell brackets the rank `percentile * total` and the interpolation stays
      within that cell. */
  lemma PercentileWithin(cells: seq<Cell>, p: real, total: nat)
    requires 0.0 < p <= 1.0 && AllOccupied(cells) && Sum(cells) == total > 0
    ensures |cells| > 0
    ensures var target := p * total as real; var k := Crossing(cells, target);
      && Sum(cells[..k]) as real < target <= Sum(cells[..k + 1]) as real
      && cells[k].min.value <= PercentileOf(cells, target) <= cells[k].max.value
  {
    var target := p * total as real;
    RankWithin(p, total as real);
    CrossingBrackets(cells, target);
    CrossingWithin(cells, target);
  }

  /** Interpolating at the crossing cell stays within its extrema. */
  lemma CrossingWithin(cells: seq<Cell>, target: real)
    requires |cells| > 0 && AllOccupied(cells)
    requires var k := Crossing(cells, target);
      Sum(cells[..k]) as real < target <= Sum(cells[..k + 1]) as real
    ensures var k := Crossing(cells, target);
      cells[k].min.value <= PercentileOf(cells, target) <= cells[k].max.value
  {
    var k := Crossing(cells, target);
    SumStep(cells, k);
    InterpolateWithin(cells[k], target - Sum(cells[..k]) as real);
  }

  /** For a rank between 0 (excluded) and the total, the crossing cell
      brackets it. */
  lemma CrossingBrackets(cells: seq<Cell>, target: real)
    requires |cells| > 0 && 0.0 < target <= Sum(cells) as real
    ensures var k := Crossing(cells, target);
      Sum(cells[..k]) as real < target <= Sum(cells[..k + 1]) as real
  {
    assert cells[..|cells|] == cells;
    var k := CrossingAt(cells, target, |cells|);
    CrossingIsUnique(cells, target, 0, k);
  }

  lemma SumStep(cells: seq<Cell>, k: nat)
    requires k < |cells|
    ensures Sum(cells[..k + 1]) == Sum(cells[..k]) + cells[k].count
  {
    assert cells[..k + 1][..k] == cells[..k];
  }

  /** Some position below `n` is where the prefix sums cross `target`. */
  lemma {:induction false} CrossingAt(cells: seq<Cell>, target: real, n: nat) returns (k: nat)
    requires 0 < n <= |cells|
    requires 0.0 < target <= Sum(cells[..n]) as real
    ensures k < n && Sum(cells[..k]) as real < target <= Sum(cells[..k + 1]) as real
  {
    if Sum(cells[..n - 1]) as real < target {
      k := n - 1;
    } else {
      assert cells[..0] == [];
      k := CrossingAt(cells, target, n - 1);
    }
  }

  /** Sum of the counts of the first `n` cells, by position. */
  function PrefixSum(cells: seq<Cell>, n: nat): nat
    requires n <= |cells|
  {
    if n == 0 then 0 else PrefixSum(cells, n - 1) + cells[n - 1].count
  }

  lemma {:induction false} PrefixSumIsSum(cells: seq<Cell>, n: nat)
    requires n <= |cells|
    ensures PrefixSum(cells, n) == Sum(cells[..n])
  {
    if n > 0 {
      PrefixSumIsSum(cells, n - 1);
      assert cells[..n][..n - 1] == cells[..n - 1];
    }
  }

  /** How many cells the walk visits in the buckets below `n`. */
  function WalkLength(items: map<nat, Bucket>, n: nat): nat
  {
    if n == 0 then 0
    else WalkLength(items, n - 1) + (if n - 1 in items then Visits(items[n - 1]) else 0)
  }

  /** How many cells the walk visits in one bucket. */
  function Visits(m: Bucket): nat
  {
    if m.subBuckets.Some? then PresentBelow(m.subBuckets.value.items, m.subBuckets.value.length) else 1
  }

  lemma {:induction false} SubCellsLength(items: map<nat, Cell>, n: nat)
    ensures |SubCellsBelow(items, n)| == PresentBelow(items, n)
  {
    if n > 0 {
      SubCellsLength(items, n - 1);
    }
  }

  lemma {:induction false} WalkBelowLength(items: map<nat, Bucket>, n: nat)
    ensures |WalkBelow(items, n)| == WalkLength(items, n)
  {
    if n > 0 {
      WalkBelowLength(items, n - 1);
      if n - 1 in items && items[n - 1].subBuckets.Some? {
        SubCellsLength(items[n - 1].subBuckets.value.items, items[n - 1].subBuckets.value.length);
      }
    }
  }

  /** A bucket without sub-buckets is visited as one cell, right after the
      cells of the buckets below it. */
  lemma WalkVisitsBucket(b: Sparse<Bucket>, pos: nat)
    requires WellFormed(b) && pos in b.items && b.items[pos].subBuckets.None?
    ensures WalkLength(b.items, pos) < |Walk(b)|
    ensures Walk(b)[WalkLength(b.items, pos)] == b.items[pos].Stats()
  {
    WalkBelowLength(b.items, pos);
    WalkPrefix(b.items, pos + 1, b.length);
  }

  /** Sub-bucket `j` of bucket `pos` is visited after the cells of the
      buckets below `pos` and the sub-buckets below `j`. */
  lemma WalkVisitsSubBucket(b: Sparse<Bucket>, pos: nat, j: nat)
    requires WellFormed(b) && pos in b.items && b.items[pos].subBuckets.Some?
    requires j < b.items[pos].subBuckets.value.length && j in b.items[pos].subBuckets.value.items
    ensures var at := WalkLength(b.items, pos) + PresentBelow(b.items[pos].subBuckets.value.items, j);
      at < |Walk(b)| && Walk(b)[at] == b.items[pos].subBuckets.value.items[j]
  {
    var subs := b.items[pos].subBuckets.value;
    WalkBelowLength(b.items, pos);
    SubCellsLength(subs.items, j);
    SubCellsPrefix(subs.items, j + 1, subs.length);
    WalkPrefix(b.items, pos + 1, b.length);
    var w, sc := WalkBelow(b.items, pos), SubCellsBelow(subs.items, j);
    assert (w + sc + [subs.items[j]])[|w| + |sc|] == subs.items[j];
  }

  /** The walk visits no more cells below `pos` than in all. */
  lemma WalkLengthBound(b: Sparse<Bucket>, pos: nat)
    requires pos <= b.length
    ensures WalkLength(b.items, pos) <= |Walk(b)|
    ensures pos == b.length ==> WalkLength(b.items, pos) == |Walk(b)|
  {
    WalkBelowLength(b.items, pos);
    WalkBelowLength(b.items, b.length);
    WalkPrefix(b.items, pos, b.length);
  }

  // ---------------------------------------------------------------------
  // percentile

  lemma BelowRatio(x: real, n: real, p: real)
    requires n > 0.0
    ensures x / n < p <==> x < p * n
  {
    assert x / n * n == x;
    if x / n < p {
      assert x / n * n < p * n;
    }
    if x < p * n {
      assert x / n * n < p * n;
    }
  }

  /** `currSum / samplesCount < percentile`: the share counted so far is
      still below the percentile asked for. */
  method ShareBelow(sum: nat, total: nat, p: real) returns (b: bool)
    requires total > 0
    ensures b <==> sum as real < p * total as real
  {
    BelowRatio(sum as real, total as real, p);
    b := sum as real / total as real < p;
  }

  /** When the prefix sums cross `target` at the cell before position `idx`,
      `percentile` interpolates in that cell. */
  lemma CrossedAt(cells: seq<Cell>, target: real, idx: nat)
    requires 0 < idx <= |cells| && AllOccupied(cells)
    requires PrefixSum(cells, idx - 1) as real < target <= PrefixSum(cells, idx) as real
    ensures PercentileOf(cells, target) == Interpolate(cells[idx - 1], target - PrefixSum(cells, idx - 1) as real)
  {
    PrefixSumIsSum(cells, idx - 1);
    PrefixSumIsSum(cells, idx);
    CrossingIsUnique(cells, target, 0, idx - 1);
  }

  /** The walk over a sound histogram with samples: it is not empty, every
      cell it visits holds samples, and it visits all of them. */
  lemma WalkCounts(b: Sparse<Bucket>)
    requires Sound(b) && BucketTotal(b) > 0
    ensures |Walk(b)| > 0 && AllOccupied(Walk(b))
    ensures PrefixSum(Walk(b), |Walk(b)|) == BucketTotal(b)
    ensures WalkLength(b.items, b.length) == |Walk(b)|
  {
    var cells := Walk(b);
    WalkBelowSum(b, b.length);
    WalkLengthBound(b, b.length);
    PrefixSumIsSum(cells, |cells|);
    assert cells[..|cells|] == cells;
  }

  /** The rank `percentile * samplesCount` is positive and at most `samplesCount`. */
  lemma RankWithin(p: real, total: real)
    requires 0.0 < p <= 1.0 && 0.0 < total
    ensures 0.0 < p * total <= total
    ensures total * p == p * total
  {
  }

  /** Where the walk stops, at the crossing or at the last cell, is where
      `percentile` interpolates. */
  lemma StopsAt(cells: seq<Cell>, target: real, idx: nat)
    requires 0 < idx <= |cells| && AllOccupied(cells)
    requires PrefixSum(cells, idx - 1) as real < target
    requires target <= PrefixSum(cells, idx) as real || idx == |cells|
    ensures PercentileOf(cells, target) == Interpolate(cells[idx - 1], target - PrefixSum(cells, idx - 1) as real)
  {
    if target <= PrefixSum(cells, idx) as real {
      CrossedAt(cells, target, idx);
    } else {
      RanOffAt(cells, target);
    }
  }

  /** The walk over shaped buckets: every cell it visits holds samples, its
      length is what the loops count, and it is not empty once a bucket
      holds samples. */
  lemma WalkShaped(b: Sparse<Bucket>)
    requires Shaped(b)
    ensures AllOccupied(Walk(b))
    ensures WalkLength(b.items, b.length) == |Walk(b)|
    ensures BucketTotal(b) > 0 ==> |Walk(b)| > 0
  {
    WalkBelowOccupied(b, b.length);
    WalkLengthBound(b, b.length);
    if BucketTotal(b) > 0 {
      var n := b.length;
      assert n > 0;
      var m := b.items[n - 1];
      if m.subBuckets.Some? {
        var subs := m.subBuckets.value;
        assert subs.length - 1 in subs.items;
        assert PresentBelow(subs.items, subs.length) > 0;
      }
      assert WalkLength(b.items, n) >= Visits(m) > 0;
    }
  }

  lemma {:induction false} WalkBelowOccupied(b: Sparse<Bucket>, n: nat)
    requires Shaped(b)
    ensures AllOccupied(WalkBelow(b.items, n))
  {
    if n > 0 {
      WalkBelowOccupied(b, n - 1);
      var tail := if n - 1 in b.items then CellsOf(b.items[n - 1]) else [];
      if n - 1 in b.items {
        var m := b.items[n - 1];
        if m.subBuckets.Some? {
          SubCellsSum(m.subBuckets.value.items, m.subBuckets.value.length);
        }
      }
      OccupiedAppend(WalkBelow(b.items, n - 1), tail);
    }
  }

  /** A walk that counted every cell and still fell short of `target` made
      `percentile` interpolate in the last cell, past its end. */
  lemma RanOffAt(cells: seq<Cell>, target: real)
    requires |cells| > 0 && AllOccupied(cells)
    requires PrefixSum(cells, |cells|) as real < target
    ensures PercentileOf(cells, target)
            == Interpolate(cells[|cells| - 1], target - PrefixSum(cells, |cells| - 1) as real)
  {
    PrefixSumIsSum(cells, |cells|);
    CrossingRunsOff(cells, target, 0);
    InterpolatesLast(cells, target);
  }

  lemma InterpolatesLast(cells: seq<Cell>, target: real)
    requires |cells| > 0 && AllOccupied(cells)
    requires Crossing(cells, target) == |cells| - 1
    ensures PercentileOf(cells, target)
            == Interpolate(cells[|cells| - 1], target - PrefixSum(cells, |cells| - 1) as real)
  {
    var k := |cells| - 1;
    PrefixSumIsSum(cells, k);
    assert Sum(cells[..k]) as real == PrefixSum(cells, k) as real;
    assert PercentileOf(cells, target) == Interpolate(cells[k], target - Sum(cells[..k]) as real);
  }

  /** Interpolating past a cell's count lands beyond its maximum, when its
      extrema differ. */
  lemma InterpolateBeyond(c: Cell, rank: real)
    requires Occupied(c) && c.count as real < rank && c.min.value < c.max.value
    ensures c.max.value < Interpolate(c, rank)
  {
    var n, d := c.count as real, c.max.value - c.min.value;
    var f := rank / n;
    assert f * n == rank;
    assert (f - 1.0) * n == rank - n;
    PositiveFactor(f - 1.0, n);
    PositiveProduct(f - 1.0, d);
    assert f * d == (f - 1.0) * d + d;
    assert Interpolate(c, rank) == f * d + c.min.value;
  }

  lemma PositiveFactor(x: real, y: real)
    requires 0.0 < y
    ensures 0.0 < x * y ==> 0.0 < x
  {
    if x <= 0.0 {
      assert x * y <= 0.0 * y;
    }
  }

  lemma PositiveProduct(x: real, y: real)
    requires 0.0 < x && 0.0 < y
    ensures 0.0 < x * y
  {
  }

  /** A rank beyond every sample of the walk gives a percentile beyond the
      maximum of the last cell, when that cell's extrema differ. */
  lemma PercentileBeyondLast(cells: seq<Cell>, target: real)
    requires |cells| > 0 && AllOccupied(cells) && Sum(cells) as real < target
    requires cells[|cells| - 1].min.value < cells[|cells| - 1].max.value
    ensures cells[|cells| - 1].max.value < PercentileOf(cells, target)
  {
    var n := |cells|;
    assert cells[..n] == cells;
    PrefixSumIsSum(cells, n);
    RanOffAt(cells, target);
    assert PrefixSum(cells, n) == PrefixSum(cells, n - 1) + cells[n - 1].count;
    InterpolateBeyond(cells[n - 1], target - PrefixSum(cells, n - 1) as real);
  }

  /** No prefix reaches a target the whole walk falls short of, so the search
      ends at the last position. */
  lemma {:induction false} CrossingRunsOff(cells: seq<Cell>, target: real, j: nat)
    requires j < |cells| && (Sum(cells[..|cells|]) as real) < target
    ensures CrossingFrom(cells, target, j) == |cells| - 1
    decreases |cells| - j
  {
    SumMonotone(cells, j + 1, |cells|);
    if j < |cells| - 1 {
      CrossingRunsOff(cells, target, j + 1);
    }
  }

  /** The inner loop of `percentile`: walks the sub-buckets of bucket `pos`
      until the cumulative share reaches `percentile`.  On entry it has not;
      on exit either it still has not and every sub-bucket was counted, the
      last of them being the last cell counted, or the last cell counted is
      the one where the prefix sums cross the rank. */
  method WalkSubBuckets(buckets: Sparse<Bucket>, pos: nat, samplesCount: nat, p: real,
                        sumIn: nat, prevIn: nat, cellIn: Cell, ghost idxIn: nat)
    returns (currSum: nat, prevSum: nat, currBucket: Cell, below: bool, ghost idx: nat)
    requires WellFormed(buckets) && pos in buckets.items && buckets.items[pos].subBuckets.Some?
    requires WellFormed(buckets.items[pos].subBuckets.value) && buckets.items[pos].subBuckets.value.length > 0
    requires samplesCount > 0 && idxIn <= |Walk(buckets)|
    requires sumIn == PrefixSum(Walk(buckets), idxIn) && sumIn as real < p * samplesCount as real
    requires idxIn == WalkLength(buckets.items, pos)
    ensures idx <= |Walk(buckets)| && currSum == PrefixSum(Walk(buckets), idx)
    ensures below <==> currSum as real < p * samplesCount as real
    ensures below ==> idx == WalkLength(buckets.items, pos + 1)
    ensures 0 < idx && currBucket == Walk(buckets)[idx - 1] && prevSum == PrefixSum(Walk(buckets), idx - 1)
    ensures !below ==> prevSum as real < p * samplesCount as real
  {
    ghost var cells := Walk(buckets);
    ghost var target := p * samplesCount as real;
    currSum, prevSum, currBucket, below, idx := sumIn, prevIn, cellIn, true, idxIn;
    var subs := buckets.items[pos].subBuckets.value;
    var subPos := 0;
    while below && subPos < subs.length
      invariant subPos <= subs.length && idx <= |cells|
      invariant below <==> currSum as real < target
      invariant currSum == PrefixSum(cells, idx)
      invariant below ==> idx == WalkLength(buckets.items, pos) + PresentBelow(subs.items, subPos)
      invariant below && 0 < subPos && subPos - 1 in subs.items ==>
                  && 0 < idx && currBucket == cells[idx - 1] && prevSum == PrefixSum(cells, idx - 1)
      invariant !below ==>
                  && 0 < idx && currBucket == cells[idx - 1]
                  && prevSum == PrefixSum(cells, idx - 1) && prevSum as real < target
      decreases subs.length - subPos
    {
      prevSum := currSum;
      if subPos in subs.items {
        WalkVisitsSubBucket(buckets, pos, subPos);
        currBucket := subs.items[subPos];
        idx := idx + 1;
        currSum := currSum + currBucket.count;
      }
      subPos := subPos + 1;
      below := ShareBelow(currSum, samplesCount, p);
    }
    assert below ==> subPos - 1 in subs.items;
  }

  /** One pass of the outer loop of `percentile`, at bucket `pos`: counts
      the bucket itself, or walks its sub-buckets, or skips a hole. */
  method VisitBucket(buckets: Sparse<Bucket>, pos: nat, samplesCount: nat, p: real,
                     sumIn: nat, cellIn: Cell, ghost idxIn: nat)
    returns (currSum: nat, prevSum: nat, currBucket: Cell, below: bool, ghost idx: nat)
    requires WellFormed(buckets) && pos < buckets.length && samplesCount > 0
    requires pos in buckets.items ==> BucketShaped(buckets.items[pos])
    requires idxIn == WalkLength(buckets.items, pos) && idxIn <= |Walk(buckets)|
    requires sumIn == PrefixSum(Walk(buckets), idxIn) && sumIn as real < p * samplesCount as real
    ensures idx <= |Walk(buckets)| && currSum == PrefixSum(Walk(buckets), idx)
    ensures below <==> currSum as real < p * samplesCount as real
    ensures below ==> idx == WalkLength(buckets.items, pos + 1)
    ensures below && pos in buckets.items ==>
              && 0 < idx && currBucket == Walk(buckets)[idx - 1] && prevSum == PrefixSum(Walk(buckets), idx - 1)
    ensures !below ==>
              && 0 < idx && currBucket == Walk(buckets)[idx - 1]
              && prevSum == PrefixSum(Walk(buckets), idx - 1) && prevSum as real < p * samplesCount as real
  {
    currSum, currBucket, below, idx := sumIn, cellIn, true, idxIn;
    prevSum := currSum;
    if pos in buckets.items {
      if buckets.items[pos].subBuckets.Some? {
        currSum, prevSum, currBucket, below, idx :=
          WalkSubBuckets(buckets, pos, samplesCount, p, currSum, prevSum, currBucket, idx);
      } else {
        WalkVisitsBucket(buckets, pos);
        currBucket := buckets.items[pos].Stats();
        idx := idx + 1;
        currSum := currSum + currBucket.count;
        below := ShareBelow(currSum, samplesCount, p);
      }
    }
  }

  /** The outer loop of `percentile`: walks the buckets in order until the
      cumulative share reaches `percentile` or the buckets run out.  It ends
      at the cell where the prefix sums cross the rank
      `percentile * samplesCount`, or, if no prefix reaches it, at the last
      cell. */
  method WalkBuckets(buckets: Sparse<Bucket>, samplesCount: nat, p: real)
    returns (prevSum: nat, currBucket: Cell, ghost idx: nat)
    requires Shaped(buckets) && buckets.length > 0 && 0.0 < p && samplesCount > 0
    ensures 0 < idx <= |Walk(buckets)| && currBucket == Walk(buckets)[idx - 1]
    ensures prevSum == PrefixSum(Walk(buckets), idx - 1)
    ensures prevSum as real < p * samplesCount as real
    ensures p * samplesCount as real <= PrefixSum(Walk(buckets), idx) as real || idx == |Walk(buckets)|
  {
    ghost var cells := Walk(buckets);
    ghost var target := p * samplesCount as real;
    WalkShaped(buckets);
    var currSum: nat := 0;
    prevSum := 0;
    var pos := 0;
    currBucket := Cell(0, None, None);
    idx := 0;
    var below := ShareBelow(currSum, samplesCount, p);
    while below && pos < buckets.length
      invariant pos <= buckets.length && idx <= |cells|
      invariant below <==> currSum as real < target
      invariant currSum == PrefixSum(cells, idx)
      invariant below ==> idx == WalkLength(buckets.items, pos)
      invariant below && 0 < pos && pos - 1 in buckets.items ==>
                  && 0 < idx && currBucket == cells[idx - 1] && prevSum == PrefixSum(cells, idx - 1)
      invariant !below ==>
                  && 0 < idx && currBucket == cells[idx - 1]
                  && prevSum == PrefixSum(cells, idx - 1) && prevSum as real < target
      decreases buckets.length - pos
    {
      currSum, prevSum, currBucket, below, idx :=
        VisitBucket(buckets, pos, samplesCount, p, currSum, currBucket, idx);
      pos := pos + 1;
    }
    if below {
      assert pos == buckets.length && pos - 1 in buckets.items;
      assert idx == |cells|;
    }
  }

  /** `percentile(percentile, buckets, samplesCount)`: walks buckets and
      sub-buckets in order until the cumulative share reaches `percentile`,
      then interpolates inside the last cell counted; when the walk runs out
      first, it extrapolates from the last cell. */
  method Percentile(p: real, buckets: Sparse<Bucket>, samplesCount: nat) returns (v: real)
    requires 0.0 < p <= 1.0
    requires Shaped(buckets) && samplesCount == BucketTotal(buckets) && samplesCount > 0
    ensures |Walk(buckets)| > 0 && AllOccupied(Walk(buckets))
    ensures v == PercentileOf(Walk(buckets), p * samplesCount as real)
  {
    WalkShaped(buckets);
    var prevSum, currBucket, idx := WalkBuckets(buckets, samplesCount, p);
    StopsAt(Walk(buckets), p * samplesCount as real, idx);
    var value := currBucket.count;
    var cellHigh := currBucket.max.value;
    var cellLow := currBucket.min.value;
    RankWithin(p, samplesCount as real);
    var percentOfCell := (samplesCount as real * p - prevSum as real) / (value as real);
    v := percentOfCell * (cellHigh - cellLow) + cellLow;
  }
}
