/** Merging two histograms bucket by bucket (`add` and its helpers
    `setBucket`, `copySubBuckets`, `mergeSubBuckets` and
    `mergeSubBucketsAndBucket`). */
module Merge {
  import opened Extrema
  import opened SparseArrays
  import opened Buckets

  // ---------------------------------------------------------------------
  // mergeSubBuckets

  /** Two cells at the same index merged: counts add, extrema combine. */
  function Combine(x: Cell, y: Cell): (r: Cell)
    ensures r.count == x.count + y.count
    ensures Occupied(x) && Occupied(y) ==> Occupied(r)
    ensures Occupied(x) && Occupied(y) ==>
      r.min.value <= x.min.value && r.min.value <= y.min.value &&
      x.max.value <= r.max.value && y.max.value <= r.max.value
  {
    Cell(x.count + y.count, SafeMin(x.min, y.min), SafeMax(x.max, y.max))
  }

  /** The cell at index `i` of the index-wise merge of two sub-bucket arrays. */
  function JoinAt(a: map<nat, Cell>, b: map<nat, Cell>, i: nat): Cell
    requires i in a || i in b
  {
    if i in a && i in b then Combine(a[i], b[i])
    else if i in a then a[i]
    else b[i]
  }

  function JoinItems(a: map<nat, Cell>, b: map<nat, Cell>): map<nat, Cell>
  {
    map i | i in a.Keys + b.Keys :: JoinAt(a, b, i)
  }

  /** The index-wise merge of two sub-bucket arrays: an index present on both
      sides gets the combined cell, one present on one side keeps its cell. */
  function Join(a: Sparse<Cell>, b: Sparse<Cell>): (r: Sparse<Cell>)
    ensures r.length == if a.length >= b.length then a.length else b.length
    ensures forall i :: i in r.items <==> i in a.items || i in b.items
    ensures forall i :: i in r.items ==>
      r.items[i].count == CellAt(a, i).count + CellAt(b, i).count
  {
    Sparse(JoinItems(a.items, b.items), if a.length >= b.length then a.length else b.length)
  }

  lemma {:induction false} JoinCountsBelow(a: map<nat, Cell>, b: map<nat, Cell>, n: nat)
    ensures CountsBelow(JoinItems(a, b), n) == CountsBelow(a, n) + CountsBelow(b, n)
  {
    if n > 0 {
      JoinCountsBelow(a, b, n - 1);
    }
  }

  /** Merging sub-bucket arrays adds their totals and keeps every cell occupied. */
  lemma JoinSound(a: Sparse<Cell>, b: Sparse<Cell>)
    requires WellFormed(a) && WellFormed(b)
    ensures WellFormed(Join(a, b))
    ensures Total(Join(a, b)) == Total(a) + Total(b)
    ensures (forall j :: j in a.items ==> Occupied(a.items[j])) && (forall j :: j in b.items ==> Occupied(b.items[j])) ==>
      forall j :: j in Join(a, b).items ==> Occupied(Join(a, b).items[j])
  {
    var r := Join(a, b);
    assert r.length > 0 ==> r.length - 1 in r.items;
    JoinCountsBelow(a.items, b.items, r.length);
    CountsBelowGap(a.items, a.length, r.length);
    CountsBelowGap(b.items, b.length, r.length);
    if (forall j :: j in a.items ==> Occupied(a.items[j])) && (forall j :: j in b.items ==> Occupied(b.items[j])) {
      forall j | j in r.items
        ensures Occupied(r.items[j])
      {
        assert r.items[j] == JoinAt(a.items, b.items, j);
      }
    }
  }

  /** `copySubBuckets`: copies every present sub-bucket into a new array. */
  method CopySubBuckets(source: Sparse<Cell>) returns (r: Sparse<Cell>)
    requires WellFormed(source)
    ensures r == source
  {
    r := Empty();
    for i := 0 to source.length
      invariant WellFormed(r) && r.length <= i
      invariant r.items == map k | k in source.items && k < i :: source.items[k]
    {
      if i in source.items {
        r := Assign(r, i, source.items[i]);
      }
    }
    assert source.length > 0 ==> source.length - 1 in r.items;
    assert r.items == source.items;
  }

  /** `mergeSubBuckets`: walks every index below the longer array and sets
      the merged cell where either side has one. */
  method MergeSubBuckets(a: Sparse<Cell>, b: Sparse<Cell>) returns (r: Sparse<Cell>)
    requires WellFormed(a) && WellFormed(b)
    ensures r == Join(a, b)
  {
    r := Empty();
    var n := if a.length >= b.length then a.length else b.length;
    for i := 0 to n
      invariant WellFormed(r) && r.length <= i
      invariant r.items == JoinBelow(a.items, b.items, i)
    {
      JoinBelowNext(a.items, b.items, i);
      // each `r[i] = …` is past the current end, so the array grows to `i + 1`
      if i in a.items && i in b.items {
        r := Sparse(r.items[i := Combine(a.items[i], b.items[i])], i + 1);
      } else if i in a.items {
        r := Sparse(r.items[i := a.items[i]], i + 1);
      } else if i in b.items {
        r := Sparse(r.items[i := b.items[i]], i + 1);
      }
    }
    JoinBelowAll(a, b, n);
  }

  /** The merged cells at the indices below `n`. */
  function JoinBelow(a: map<nat, Cell>, b: map<nat, Cell>, n: nat): map<nat, Cell>
  {
    map k | k in a.Keys + b.Keys && k < n :: JoinAt(a, b, k)
  }

  lemma JoinBelowNext(a: map<nat, Cell>, b: map<nat, Cell>, i: nat)
    ensures JoinBelow(a, b, i + 1)
            == if i in a || i in b then JoinBelow(a, b, i)[i := JoinAt(a, b, i)] else JoinBelow(a, b, i)
  {
  }

  lemma JoinBelowAll(a: Sparse<Cell>, b: Sparse<Cell>, n: nat)
    requires WellFormed(a) && WellFormed(b)
    requires n == if a.length >= b.length then a.length else b.length
    ensures JoinBelow(a.items, b.items, n) == JoinItems(a.items, b.items)
    ensures n > 0 ==> n - 1 in JoinBelow(a.items, b.items, n)
  {
  }

  // ---------------------------------------------------------------------
  // mergeSubBucketsAndBucket

  /** `Math.floor(count * (1 + otherCount / sourceCount))`, in exact arithmetic. */
  function Scaled(count: nat, sourceCount: nat, otherCount: nat): (r: nat)
    requires sourceCount > 0
    ensures count <= r
  {
    MulDivAtLeast(count, sourceCount, otherCount);
    count * (sourceCount + otherCount) / sourceCount
  }

  lemma MulDivAtLeast(c: nat, s: nat, o: nat)
    requires s > 0
    ensures c <= c * (s + o) / s
  {
    var x := c * (s + o);
    assert x == c * s + c * o;
    assert x >= s * c;
    var q := x / s;
    assert s * q + x % s == x;
    if q < c {
      MulMonotone(s, q + 1, c);
    }
  }

  lemma MulMonotone(a: nat, b: nat, c: nat)
    requires b <= c
    ensures a * b <= a * c
  {
  }

  /** `Scaled` is the floor of the exact ratio: the largest whole number whose
      product with `sourceCount` does not exceed `count * (sourceCount + otherCount)`. */
  lemma ScaledIsFloor(count: nat, sourceCount: nat, otherCount: nat)
    requires sourceCount > 0
    ensures var r := Scaled(count, sourceCount, otherCount);
      sourceCount * r <= count * (sourceCount + otherCount) < sourceCount * (r + 1)
  {
    var x := count * (sourceCount + otherCount);
    var r := x / sourceCount;
    assert sourceCount * r + x % sourceCount == x;
    assert sourceCount * (r + 1) == sourceCount * r + sourceCount;
  }

  function ScaleCell(c: Cell, sourceCount: nat, otherCount: nat): Cell
    requires sourceCount > 0
  {
    Cell(Scaled(c.count, sourceCount, otherCount), c.min, c.max)
  }

  function ScaledItems(items: map<nat, Cell>, sourceCount: nat, otherCount: nat): map<nat, Cell>
    requires sourceCount > 0
  {
    map k | k in items :: ScaleCell(items[k], sourceCount, otherCount)
  }

  /** What the floor drops at the cells below `n`, times `sourceCount`. */
  function ResidueBelow(items: map<nat, Cell>, sourceCount: nat, otherCount: nat, n: nat): nat
    requires sourceCount > 0
  {
    if n == 0 then 0
    else ResidueBelow(items, sourceCount, otherCount, n - 1)
         + (if n - 1 in items then items[n - 1].count * (sourceCount + otherCount) % sourceCount else 0)
  }

  /** One step of `ScaleSums`, on plain numbers. */
  lemma ScaleStep(S: nat, o: nat, X: nat, Y: nat, R: nat, P: nat, c: nat)
    requires S > 0
    requires S * X + R == (S + o) * Y && R <= (S - 1) * P
    ensures var q, m := c * (S + o) / S, c * (S + o) % S;
      && S * (X + q) + (R + m) == (S + o) * (Y + c)
      && R + m <= (S - 1) * (P + 1)
  {
    var x := c * (S + o);
    var q, m := x / S, x % S;
    assert S * q + m == x;
    assert S * (X + q) == S * X + S * q;
    assert (S + o) * (Y + c) == (S + o) * Y + x;
    assert (S - 1) * (P + 1) == (S - 1) * P + (S - 1);
  }

  /** Scaling every cell by `(S + o) / S` and flooring scales the sum, up to
      what the floors drop, which is less than one per present cell. */
  lemma {:induction false} ScaleSums(items: map<nat, Cell>, S: nat, o: nat, n: nat)
    requires S > 0
    ensures S * CountsBelow(ScaledItems(items, S, o), n) + ResidueBelow(items, S, o, n)
            == (S + o) * CountsBelow(items, n)
    ensures ResidueBelow(items, S, o, n) <= (S - 1) * PresentBelow(items, n)
    ensures PresentBelow(items, n) == 0 ==> CountsBelow(items, n) == 0
  {
    if n > 0 {
      ScaleSums(items, S, o, n - 1);
      if n - 1 in items {
        ScaleStep(S, o, CountsBelow(ScaledItems(items, S, o), n - 1), CountsBelow(items, n - 1),
                  ResidueBelow(items, S, o, n - 1), PresentBelow(items, n - 1), items[n - 1].count);
      }
    }
  }

  /** The conclusion of `RemainderBelowPresent`, on plain numbers. */
  lemma ShortfallBounds(S: nat, o: nat, T: nat, R: nat, P: nat)
    requires S > 0 && P > 0
    requires S * T + R == (S + o) * S && R <= (S - 1) * P
    ensures 0 <= S + o - T < P
  {
    var x := S + o - T;
    assert S * x == R by {
      assert (S + o) * S == S * (S + o);
      assert S * (S + o) - S * T == S * x;
    }
    if x >= P {
      MulMonotone(S, P, x);
    }
  }

  /** The sum of the scaled counts, before the remainder loop runs. */
  function ScaledTotal(source: Sparse<Cell>, sourceCount: nat, otherCount: nat): nat
    requires sourceCount > 0
  {
    CountsBelow(ScaledItems(source.items, sourceCount, otherCount), source.length)
  }

  /** `reminder` as the remainder loop first sees it: what scaling fell
      short of `sourceCount + otherCount`, negative if it overshot. */
  function Shortfall(source: Sparse<Cell>, sourceCount: nat, otherCount: nat): int
    requires sourceCount > 0
  {
    sourceCount + otherCount - ScaledTotal(source, sourceCount, otherCount)
  }

  /** How many passes of the remainder loop raise every present sub-bucket
      by one; a last pass, if any remainder is left, raises only some. */
  function Passes(source: Sparse<Cell>, sourceCount: nat, otherCount: nat): nat
    requires sourceCount > 0 && PresentBelow(source.items, source.length) > 0
  {
    var short := Shortfall(source, sourceCount, otherCount);
    if short > 0 then short / PresentBelow(source.items, source.length) else 0
  }

  /** The shortfall `mergeSubBucketsAndBucket` has to hand out after scaling is
      never negative and is smaller than the number of present sub-buckets
      when the sub-buckets hold all the samples of their bucket, as the
      comment in its remainder loop claims; so that loop then makes at most
      one pass, a partial one. */
  lemma RemainderBelowPresent(source: Sparse<Cell>, sourceCount: nat, otherCount: nat)
    requires WellFormed(source) && Total(source) == sourceCount && sourceCount > 0
    ensures 0 <= Shortfall(source, sourceCount, otherCount) < PresentBelow(source.items, source.length)
    ensures Passes(source, sourceCount, otherCount) == 0
  {
    var n := source.length;
    var scaled, residue := ScaledTotal(source, sourceCount, otherCount), ResidueBelow(source.items, sourceCount, otherCount, n);
    var present, short := PresentBelow(source.items, n), Shortfall(source, sourceCount, otherCount);
    ScaleSums(source.items, sourceCount, otherCount, n);
    assert sourceCount * scaled + residue == (sourceCount + otherCount) * sourceCount;
    ShortfallBounds(sourceCount, otherCount, scaled, residue, present);
    DivUnique(short, present, 0, short);
  }

  /** Scaling never overshoots when the sub-buckets hold no more samples
      than their bucket. */
  lemma ShortfallNonNegative(source: Sparse<Cell>, sourceCount: nat, otherCount: nat)
    requires WellFormed(source) && Total(source) <= sourceCount && sourceCount > 0
    ensures Shortfall(source, sourceCount, otherCount) >= 0
  {
    var n := source.length;
    ScaleSums(source.items, sourceCount, otherCount, n);
    ScaledAtMost(sourceCount, otherCount, ScaledTotal(source, sourceCount, otherCount),
                 ResidueBelow(source.items, sourceCount, otherCount, n), Total(source));
  }

  /** A bucket of 3 samples whose one sub-bucket holds only 1 of them,
      merged with a bucket of 3 samples and no sub-buckets: the sub-bucket
      scales to 2, and the remainder loop raises it 4 times, in 4 full
      passes, so the remainder is not below the number of sub-buckets. */
  lemma UnbalancedMergeTakesSeveralPasses()
    ensures Passes(Sparse(map[0 := Cell(1, Some(3.0), Some(3.0))], 1), 3, 3) == 4
  {
    var s := Sparse(map[0 := Cell(1, Some(3.0), Some(3.0))], 1);
    assert Scaled(1, 3, 3) == 2;
    assert ScaledItems(s.items, 3, 3) == map[0 := Cell(2, Some(3.0), Some(3.0))];
    assert ScaledTotal(s, 3, 3) == 2;
    assert PresentBelow(s.items, 1) == 1;
  }

  /** The conclusion of `ShortfallNonNegative`, on plain numbers. */
  lemma ScaledAtMost(S: nat, o: nat, X: nat, R: nat, T: nat)
    requires S > 0 && T <= S
    requires S * X + R == (S + o) * T
    ensures X <= S + o
  {
    MulMonotone(S + o, T, S);
    if X > S + o {
      assert S * (S + o + 1) == (S + o) * S + S;
      MulMonotone(S, S + o + 1, X);
    }
  }

  /** Whole-number division has one answer. */
  lemma DivUnique(x: int, d: int, q: int, m: int)
    requires d > 0 && 0 <= m < d && x == q * d + m
    ensures x / d == q
  {
    var q', m' := x / d, x % d;
    assert q' * d + m' == x;
    if q > q' {
      var e := q - q';
      assert q * d == q' * d + e * d;
      MulAtLeastOne(e, d);
    } else if q < q' {
      var e := q' - q;
      assert q' * d == q * d + e * d;
      MulAtLeastOne(e, d);
    }
  }

  lemma MulAtLeastOne(e: int, d: int)
    requires e >= 1 && d > 0
    ensures e * d >= d
  {
  }

  /** In the order a stable descending sort of the scaled counts gives:
      `i` comes before `j`.  Full passes raise every count alike, so each
      pass sorts the sub-buckets the same way. */
  predicate Precedes(items: map<nat, Cell>, sourceCount: nat, otherCount: nat, i: nat, j: nat)
    requires sourceCount > 0 && i in items && j in items
  {
    var si := Scaled(items[i].count, sourceCount, otherCount);
    var sj := Scaled(items[j].count, sourceCount, otherCount);
    si > sj || (si == sj && i < j)
  }

  /** The scaled cells, each raised by `passes`. */
  function LiftedItems(items: map<nat, Cell>, sourceCount: nat, otherCount: nat, passes: nat): map<nat, Cell>
    requires sourceCount > 0
  {
    map k | k in items :: Cell(Scaled(items[k].count, sourceCount, otherCount) + passes, items[k].min, items[k].max)
  }

  /** `r` holds the sub-buckets of `source` (same indices, same extrema)
      after scaling, `q` full passes of the remainder loop and one partial
      pass: every count is the scaled count plus `q`, or plus `q + 1`, and
      those raised by the partial pass come before all the others in sorted
      order. */
  predicate Spread(source: Sparse<Cell>, sourceCount: nat, otherCount: nat, q: nat, r: Sparse<Cell>)
    requires sourceCount > 0
  {
    && r.length == source.length
    && r.items.Keys == source.items.Keys
    && (forall k :: k in r.items ==>
          && r.items[k].min == source.items[k].min
          && r.items[k].max == source.items[k].max
          && Scaled(source.items[k].count, sourceCount, otherCount) + q <= r.items[k].count
          && r.items[k].count <= Scaled(source.items[k].count, sourceCount, otherCount) + q + 1)
    && (forall i, j :: i in r.items && j in r.items
          && r.items[i].count > Scaled(source.items[i].count, sourceCount, otherCount) + q
          && r.items[j].count == Scaled(source.items[j].count, sourceCount, otherCount) + q
          ==> Precedes(source.items, sourceCount, otherCount, i, j))
  }

  /** `r` is what `mergeSubBucketsAndBucket` builds from the sub-buckets of
      one bucket (`sourceCount` samples) and the bare count `otherCount` of
      the other: every sub-bucket keeps its index and extrema, its count is
      scaled and floored, raised once by each full pass of the remainder
      loop and by at most one more, the ones raised once more come before
      all the others in sorted order, and the counts add up to the merged
      count when scaling fell short of it (to the scaled sum otherwise). */
  predicate Redistributes(source: Sparse<Cell>, sourceCount: nat, otherCount: nat, r: Sparse<Cell>)
  {
    && sourceCount > 0
    && PresentBelow(source.items, source.length) > 0
    && Spread(source, sourceCount, otherCount, Passes(source, sourceCount, otherCount), r)
    && Total(r) == if Shortfall(source, sourceCount, otherCount) > 0 then sourceCount + otherCount
                   else ScaledTotal(source, sourceCount, otherCount)
  }

  /** A redistributed array is still a non-empty array of occupied sub-buckets. */
  lemma RedistributesSound(source: Sparse<Cell>, sourceCount: nat, otherCount: nat, r: Sparse<Cell>)
    requires WellFormed(source) && forall k :: k in source.items ==> Occupied(source.items[k])
    requires Redistributes(source, sourceCount, otherCount, r)
    ensures WellFormed(r) && r.length > 0 && forall k :: k in r.items ==> Occupied(r.items[k])
  {
  }

  /** Sub-buckets that hold no more samples than their bucket are
      redistributed to hold exactly as many as the merged bucket. */
  lemma RedistributesKeepsCount(source: Sparse<Cell>, sourceCount: nat, otherCount: nat, r: Sparse<Cell>)
    requires WellFormed(source) && Total(source) <= sourceCount
    requires Redistributes(source, sourceCount, otherCount, r)
    ensures Total(r) == sourceCount + otherCount
  {
    ShortfallNonNegative(source, sourceCount, otherCount);
  }

  /** Sub-buckets that hold all the samples of their bucket are raised by at
      most one each: the remainder loop makes a single, partial pass. */
  lemma RedistributesOnePass(source: Sparse<Cell>, sourceCount: nat, otherCount: nat, r: Sparse<Cell>)
    requires WellFormed(source) && Total(source) == sourceCount
    requires Redistributes(source, sourceCount, otherCount, r)
    ensures forall k :: k in r.items ==>
              r.items[k].count == Scaled(source.items[k].count, sourceCount, otherCount)
              || r.items[k].count == Scaled(source.items[k].count, sourceCount, otherCount) + 1
  {
    RemainderBelowPresent(source, sourceCount, otherCount);
  }

  /** Some present cell has not been raised in the last pass yet while fewer
      cells than are present have been. */
  lemma {:induction false} SomeUnraised(source: map<nat, Cell>, r: map<nat, Cell>, S: nat, o: nat, q: nat, n: nat)
    returns (k: nat)
    requires S > 0
    requires forall k :: k in r <==> k in source
    requires forall k :: k in r ==>
      r[k].count == Scaled(source[k].count, S, o) + q || r[k].count == Scaled(source[k].count, S, o) + q + 1
    requires CountsBelow(r, n) < CountsBelow(LiftedItems(source, S, o, q), n) + PresentBelow(source, n)
    ensures k < n && k in r && r[k].count == Scaled(source[k].count, S, o) + q
  {
    if n - 1 in r && r[n - 1].count == Scaled(source[n - 1].count, S, o) + q {
      k := n - 1;
    } else {
      k := SomeUnraised(source, r, S, o, q, n - 1);
    }
  }

  /** The `forEach` of `mergeSubBucketsAndBucket`: every present sub-bucket's
      count is multiplied by `1 + otherCount / sourceCount` and floored. */
  method ScaleSubBuckets(s: Sparse<Cell>, sourceCount: nat, otherCount: nat) returns (r: Sparse<Cell>)
    requires WellFormed(s) && sourceCount > 0
    ensures r == Sparse(ScaledItems(s.items, sourceCount, otherCount), s.length)
  {
    r := s;
    for i := 0 to r.length
      invariant r.length == s.length && r.items.Keys == s.items.Keys
      invariant forall k :: k in r.items ==>
                  r.items[k] == if k < i then ScaleCell(s.items[k], sourceCount, otherCount) else s.items[k]
    {
      if i in r.items {
        r := Sparse(r.items[i := ScaleCell(r.items[i], sourceCount, otherCount)], r.length);
      }
    }
    assert r.items == ScaledItems(s.items, sourceCount, otherCount);
  }

  /** A cell with one more sample counted. */
  function Raise(c: Cell): Cell
  {
    Cell(c.count + 1, c.min, c.max)
  }

  lemma {:induction false} RaisedCountsBelow(a: map<nat, Cell>, b: map<nat, Cell>, n: nat)
    requires forall k :: k < n ==> (k in b <==> k in a)
    requires forall k :: k < n && k in a ==> b[k] == Raise(a[k])
    ensures CountsBelow(b, n) == CountsBelow(a, n) + PresentBelow(a, n)
  {
    if n > 0 {
      RaisedCountsBelow(a, b, n - 1);
    }
  }

  lemma {:induction false} PresentBelowSameKeys(a: map<nat, Cell>, b: map<nat, Cell>, n: nat)
    requires forall k :: k < n ==> (k in b <==> k in a)
    ensures PresentBelow(b, n) == PresentBelow(a, n)
  {
    if n > 0 {
      PresentBelowSameKeys(a, b, n - 1);
    }
  }

  lemma PresentOfNonEmpty(s: Sparse<Cell>)
    requires WellFormed(s) && s.length > 0
    ensures PresentBelow(s.items, s.length) > 0
  {
    assert s.length - 1 in s.items;
  }

  /** A full pass of the remainder loop: the remainder covers every present
      sub-bucket, and each gains one. */
  method RaiseAll(s: Sparse<Cell>) returns (r: Sparse<Cell>)
    requires WellFormed(s)
    ensures r.length == s.length && r.items.Keys == s.items.Keys
    ensures forall k :: k in r.items ==> r.items[k] == Raise(s.items[k])
    ensures Total(r) == Total(s) + PresentBelow(s.items, s.length)
  {
    r := s;
    for i := 0 to s.length
      invariant r.length == s.length && r.items.Keys == s.items.Keys
      invariant forall k :: k in r.items ==> r.items[k] == if k < i then Raise(s.items[k]) else s.items[k]
    {
      if i in r.items {
        r := Sparse(r.items[i := Raise(r.items[i])], r.length);
      }
    }
    RaisedCountsBelow(s.items, r.items, s.length);
  }

  /** The sub-bucket the last pass raises next: of those it has not raised
      yet, the first in the order of a stable descending sort. */
  method FirstUnraised(source: Sparse<Cell>, sourceCount: nat, otherCount: nat, q: nat, r: Sparse<Cell>,
                       ghost unraised: nat)
    returns (best: nat)
    requires sourceCount > 0 && r.items.Keys == source.items.Keys && WellFormed(r)
    requires unraised in r.items
    requires r.items[unraised].count == Scaled(source.items[unraised].count, sourceCount, otherCount) + q
    ensures best in r.items && r.items[best].count == Scaled(source.items[best].count, sourceCount, otherCount) + q
    ensures forall k :: k in r.items && r.items[k].count == Scaled(source.items[k].count, sourceCount, otherCount) + q
              ==> k == best || Precedes(source.items, sourceCount, otherCount, best, k)
  {
    var found := false;
    best := 0;
    for i := 0 to r.length
      invariant found ==>
                  && best < i && best in r.items
                  && r.items[best].count == Scaled(source.items[best].count, sourceCount, otherCount) + q
      invariant forall k ::
                  k < i && k in r.items
                  && r.items[k].count == Scaled(source.items[k].count, sourceCount, otherCount) + q
                  ==> found && (k == best || Precedes(source.items, sourceCount, otherCount, best, k))
    {
      if i in r.items && r.items[i].count == Scaled(source.items[i].count, sourceCount, otherCount) + q {
        if !found || Scaled(source.items[i].count, sourceCount, otherCount) > Scaled(source.items[best].count, sourceCount, otherCount) {
          found, best := true, i;
        }
      }
    }
  }

  /** The last, partial pass of the remainder loop: the remainder is smaller
      than the number of present sub-buckets, and the first `remainder` of
      them in the order of a stable descending sort each gain one. */
  method RaiseFirst(source: Sparse<Cell>, sourceCount: nat, otherCount: nat, base: Sparse<Cell>, q: nat, remainder: nat)
    returns (r: Sparse<Cell>)
    requires WellFormed(source) && sourceCount > 0
    requires base == Sparse(LiftedItems(source.items, sourceCount, otherCount, q), source.length)
    requires remainder < PresentBelow(source.items, source.length)
    ensures Spread(source, sourceCount, otherCount, q, r)
    ensures Total(r) == Total(base) + remainder
  {
    r := base;
    var raised := 0;
    while raised < remainder
      invariant 0 <= raised <= remainder
      invariant Spread(source, sourceCount, otherCount, q, r)
      invariant Total(r) == Total(base) + raised
    {
      ghost var unraised := UnraisedLeft(source, sourceCount, otherCount, q, base, r);
      var best := FirstUnraised(source, sourceCount, otherCount, q, r, unraised);
      var next := Sparse(r.items[best := Raise(r.items[best])], r.length);
      RaiseNext(source, sourceCount, otherCount, q, r, best, next);
      r := next;
      raised := raised + 1;
    }
  }

  /** While the partial pass has raised fewer cells than are present, some
      cell is still waiting for its raise. */
  lemma UnraisedLeft(source: Sparse<Cell>, sourceCount: nat, otherCount: nat, q: nat, base: Sparse<Cell>, r: Sparse<Cell>)
    returns (k: nat)
    requires WellFormed(source) && sourceCount > 0
    requires base == Sparse(LiftedItems(source.items, sourceCount, otherCount, q), source.length)
    requires Spread(source, sourceCount, otherCount, q, r)
    requires Total(r) < Total(base) + PresentBelow(source.items, source.length)
    ensures WellFormed(r)
    ensures k in r.items && r.items[k].count == Scaled(source.items[k].count, sourceCount, otherCount) + q
  {
    k := SomeUnraised(source.items, r.items, sourceCount, otherCount, q, r.length);
  }

  /** Raising the first unraised cell in sorted order keeps the raised ones
      ahead of the rest, and counts one more sample. */
  lemma RaiseNext(source: Sparse<Cell>, sourceCount: nat, otherCount: nat, q: nat,
                  r: Sparse<Cell>, best: nat, next: Sparse<Cell>)
    requires sourceCount > 0 && Spread(source, sourceCount, otherCount, q, r)
    requires best in r.items && r.items[best].count == Scaled(source.items[best].count, sourceCount, otherCount) + q
    requires forall k :: k in r.items && r.items[k].count == Scaled(source.items[k].count, sourceCount, otherCount) + q
               ==> k == best || Precedes(source.items, sourceCount, otherCount, best, k)
    requires best < r.length && next == Sparse(r.items[best := Raise(r.items[best])], r.length)
    ensures Spread(source, sourceCount, otherCount, q, next)
    ensures Total(next) == Total(r) + 1
  {
    CountsBelowSet(r.items, best, Raise(r.items[best]), r.length);
    forall i, j | i in next.items && j in next.items
      && next.items[i].count > Scaled(source.items[i].count, sourceCount, otherCount) + q
      && next.items[j].count == Scaled(source.items[j].count, sourceCount, otherCount) + q
      ensures Precedes(source.items, sourceCount, otherCount, i, j)
    {
      assert j != best && next.items[j] == r.items[j];
      if i != best {
        assert next.items[i] == r.items[i];
      }
    }
  }

  /** `mergeSubBucketsAndBucket`: copies the sub-buckets, scales their counts
      by `1 + otherCount / sourceCount`, then hands out the shortfall pass by
      pass, each pass one to each of the largest, until it is used up. */
  method Redistribute(source: Sparse<Cell>, sourceCount: nat, otherCount: nat) returns (r: Sparse<Cell>)
    requires WellFormed(source) && source.length > 0 && sourceCount > 0
    ensures Redistributes(source, sourceCount, otherCount, r)
  {
    var copy := CopySubBuckets(source);
    var scaled := ScaleSubBuckets(copy, sourceCount, otherCount);
    PresentOfNonEmpty(source);
    ghost var present := PresentBelow(source.items, source.length);
    ghost var short := Shortfall(source, sourceCount, otherCount);
    assert scaled.items == LiftedItems(source.items, sourceCount, otherCount, 0);
    var reminder: int := sourceCount + otherCount - Total(scaled);
    r := scaled;
    var passes: nat := 0;
    ghost var done := false;
    while reminder > 0
      invariant !done ==> r == Sparse(LiftedItems(source.items, sourceCount, otherCount, passes), source.length)
      invariant !done ==> Total(r) == Total(scaled) + passes * present
      invariant !done ==> reminder == short - passes * present
      invariant !done && passes > 0 ==> reminder >= 0
      invariant done ==> reminder == 0 && Redistributes(source, sourceCount, otherCount, r)
      decreases reminder
    {
      PresentBelowSameKeys(source.items, r.items, r.length);
      var n := PresentBelow(r.items, r.length);
      if reminder >= n {
        var next := RaiseAll(r);
        FullPass(source, sourceCount, otherCount, passes, r, next);
        assert (passes + 1) * present == passes * present + present;
        r := next;
        reminder := reminder - n;
        passes := passes + 1;
      } else {
        var base := r;
        r := RaiseFirst(source, sourceCount, otherCount, base, passes, reminder);
        LastPass(source, sourceCount, otherCount, passes, base, r, reminder);
        reminder := 0;
        done := true;
      }
    }
    if !done {
      NoPartialPass(source, sourceCount, otherCount, passes, reminder);
    }
  }

  /** A full pass raises the scaled cells once more. */
  lemma FullPass(source: Sparse<Cell>, sourceCount: nat, otherCount: nat, q: nat, r: Sparse<Cell>, next: Sparse<Cell>)
    requires sourceCount > 0
    requires r == Sparse(LiftedItems(source.items, sourceCount, otherCount, q), source.length)
    requires next.length == r.length && next.items.Keys == r.items.Keys
    requires forall k :: k in next.items ==> next.items[k] == Raise(r.items[k])
    ensures next == Sparse(LiftedItems(source.items, sourceCount, otherCount, q + 1), source.length)
  {
    assert next.items == LiftedItems(source.items, sourceCount, otherCount, q + 1);
  }

  /** The remainder loop ends after a partial pass: the passes made before
      it are all the full ones, and the counts reach the merged count. */
  lemma LastPass(source: Sparse<Cell>, sourceCount: nat, otherCount: nat, q: nat,
                 base: Sparse<Cell>, r: Sparse<Cell>, remainder: nat)
    requires sourceCount > 0 && PresentBelow(source.items, source.length) > 0
    requires Total(base) == ScaledTotal(source, sourceCount, otherCount) + q * PresentBelow(source.items, source.length)
    requires Shortfall(source, sourceCount, otherCount) - q * PresentBelow(source.items, source.length) == remainder
    requires 0 < remainder < PresentBelow(source.items, source.length)
    requires Spread(source, sourceCount, otherCount, q, r) && Total(r) == Total(base) + remainder
    ensures Redistributes(source, sourceCount, otherCount, r)
  {
    var present, short := PresentBelow(source.items, source.length), Shortfall(source, sourceCount, otherCount);
    assert 0 <= q * present;
    DivUnique(short, present, q, remainder);
    assert Passes(source, sourceCount, otherCount) == q;
  }

  /** The remainder loop ends without a partial pass: it made every full
      pass, or none because scaling left nothing to hand out. */
  lemma NoPartialPass(source: Sparse<Cell>, sourceCount: nat, otherCount: nat, q: nat, remainder: int)
    requires sourceCount > 0 && PresentBelow(source.items, source.length) > 0
    requires remainder <= 0 && (q > 0 ==> remainder >= 0)
    requires remainder == Shortfall(source, sourceCount, otherCount) - q * PresentBelow(source.items, source.length)
    ensures Passes(source, sourceCount, otherCount) == q
    ensures Spread(source, sourceCount, otherCount, q,
                   Sparse(LiftedItems(source.items, sourceCount, otherCount, q), source.length))
  {
    if q > 0 {
      DivUnique(Shortfall(source, sourceCount, otherCount), PresentBelow(source.items, source.length), q, 0);
    }
  }

  // ---------------------------------------------------------------------
  // The bucket loop of add

  /** What `add` puts at index `i`, which at least one operand has: on both
      sides, the summed count, the combined extrema, and sub-buckets merged
      index-wise (both sides have them) or redistributed (one side has them);
      on one side, that side's bucket unchanged, sub-buckets included. */
  predicate MergedAt(a: map<nat, Bucket>, b: map<nat, Bucket>, i: nat, m: Bucket)
  {
    if i in a && i in b then
      && m.count == a[i].count + b[i].count
      && m.min == SafeMin(a[i].min, b[i].min)
      && m.max == SafeMax(a[i].max, b[i].max)
      && (if a[i].subBuckets.Some? && b[i].subBuckets.Some? then
            m.subBuckets == Some(Join(a[i].subBuckets.value, b[i].subBuckets.value))
          else if a[i].subBuckets.Some? then
            m.subBuckets.Some? && Redistributes(a[i].subBuckets.value, a[i].count, b[i].count, m.subBuckets.value)
          else if b[i].subBuckets.Some? then
            m.subBuckets.Some? && Redistributes(b[i].subBuckets.value, b[i].count, a[i].count, m.subBuckets.value)
          else
            m.subBuckets.None?)
    else if i in a then m == a[i]
    else i in b && m == b[i]
  }

  /** A merged bucket is shaped, and sound when its operands are, and it
      counts the samples of both. */
  lemma MergedAtShaped(a: Sparse<Bucket>, b: Sparse<Bucket>, i: nat, m: Bucket)
    requires Shaped(a) && Shaped(b)
    requires MergedAt(a.items, b.items, i, m)
    ensures BucketShaped(m)
    ensures m.count == BucketAt(a, i).count + BucketAt(b, i).count
    ensures (i in a.items ==> BucketSound(a.items[i])) && (i in b.items ==> BucketSound(b.items[i]))
            ==> BucketSound(m)
  {
    if i in a.items && i in b.items {
      var x, y := a.items[i], b.items[i];
      if x.subBuckets.Some? && y.subBuckets.Some? {
        JoinSound(x.subBuckets.value, y.subBuckets.value);
      } else if x.subBuckets.Some? {
        RedistributesSound(x.subBuckets.value, x.count, y.count, m.subBuckets.value);
        RedistributesKeepsCount(x.subBuckets.value, x.count, y.count, m.subBuckets.value);
      } else if y.subBuckets.Some? {
        RedistributesSound(y.subBuckets.value, y.count, x.count, m.subBuckets.value);
        RedistributesKeepsCount(y.subBuckets.value, y.count, x.count, m.subBuckets.value);
      }
    }
  }

  lemma {:induction false} MergedCountsBelow(a: map<nat, Bucket>, b: map<nat, Bucket>, r: map<nat, Bucket>, n: nat)
    requires forall k :: k < n ==> (k in r <==> k in a || k in b)
    requires forall k :: k < n && k in r ==>
      r[k].count == (if k in a then a[k].count else 0) + (if k in b then b[k].count else 0)
    ensures BucketCountsBelow(r, n) == BucketCountsBelow(a, n) + BucketCountsBelow(b, n)
  {
    if n > 0 {
      MergedCountsBelow(a, b, r, n - 1);
    }
  }

  /** The body of `add`'s bucket loop for an index that either operand has
      (the calls to `setBucket` and the sub-bucket helpers). */
  method MergeBucketAt(a: Sparse<Bucket>, b: Sparse<Bucket>, i: nat) returns (merged: Bucket)
    requires Shaped(a) && Shaped(b) && (i in a.items || i in b.items)
    ensures MergedAt(a.items, b.items, i, merged)
  {
    if i in a.items && i in b.items {
      var x, y := a.items[i], b.items[i];
      var subs: Option<Sparse<Cell>> := None;
      if x.subBuckets.Some? && y.subBuckets.Some? {
        var joined := MergeSubBuckets(x.subBuckets.value, y.subBuckets.value);
        subs := Some(joined);
      } else if x.subBuckets.Some? {
        var spread := Redistribute(x.subBuckets.value, x.count, y.count);
        subs := Some(spread);
      } else if y.subBuckets.Some? {
        var spread := Redistribute(y.subBuckets.value, y.count, x.count);
        subs := Some(spread);
      }
      merged := Bucket(x.count + y.count, SafeMin(x.min, y.min), SafeMax(x.max, y.max), subs);
    } else if i in b.items {
      var y := b.items[i];
      var subs: Option<Sparse<Cell>> := None;
      if y.subBuckets.Some? {
        var copy := CopySubBuckets(y.subBuckets.value);
        subs := Some(copy);
      }
      merged := Bucket(y.count, y.min, y.max, subs);
    } else {
      var x := a.items[i];
      var subs: Option<Sparse<Cell>> := None;
      if x.subBuckets.Some? {
        var copy := CopySubBuckets(x.subBuckets.value);
        subs := Some(copy);
      }
      merged := Bucket(x.count, x.min, x.max, subs);
    }
  }

  /** The bucket loop of `add`: every index below the longer bucket array
      that either operand has gets its merged bucket.  The result is shaped,
      sound when both operands are, and holds as many samples as both
      operands together. */
  method MergeBuckets(a: Sparse<Bucket>, b: Sparse<Bucket>) returns (r: Sparse<Bucket>)
    requires Shaped(a) && Shaped(b)
    ensures r.length == if a.length >= b.length then a.length else b.length
    ensures forall i :: i in r.items <==> i in a.items || i in b.items
    ensures forall i :: i in r.items ==> MergedAt(a.items, b.items, i, r.items[i])
    ensures WellFormed(r)
  {
    r := Empty();
    var n := if a.length >= b.length then a.length else b.length;
    for i := 0 to n
      invariant WellFormed(r) && r.length <= i
      invariant forall k :: k in r.items <==> k < i && (k in a.items || k in b.items)
      invariant forall k :: k in r.items ==> MergedAt(a.items, b.items, k, r.items[k])
    {
      if i in a.items || i in b.items {
        var merged := MergeBucketAt(a, b, i);
        // `buckets[i] = merged` past the current end: the array grows to `i + 1`
        r := Sparse(r.items[i := merged], i + 1);
      }
    }
    assert n > 0 ==> n - 1 in r.items;
  }

  /** Buckets merged index by index form a shaped array holding the samples
      of both operands, sound when both operands are. */
  lemma MergedShaped(a: Sparse<Bucket>, b: Sparse<Bucket>, r: Sparse<Bucket>)
    requires Shaped(a) && Shaped(b) && WellFormed(r)
    requires r.length == if a.length >= b.length then a.length else b.length
    requires forall k :: k in r.items <==> k in a.items || k in b.items
    requires forall k :: k in r.items ==> MergedAt(a.items, b.items, k, r.items[k])
    ensures Shaped(r)
    ensures Sound(a) && Sound(b) ==> Sound(r)
    ensures BucketTotal(r) == BucketTotal(a) + BucketTotal(b)
  {
    forall k | k in r.items
      ensures BucketShaped(r.items[k])
      ensures Sound(a) && Sound(b) ==> BucketSound(r.items[k])
      ensures r.items[k].count == BucketAt(a, k).count + BucketAt(b, k).count
    {
      MergedAtShaped(a, b, k, r.items[k]);
    }
    MergedCountsBelow(a.items, b.items, r.items, r.length);
    BucketCountsBelowGap(a.items, a.length, r.length);
    BucketCountsBelowGap(b.items, b.length, r.length);
  }
}
