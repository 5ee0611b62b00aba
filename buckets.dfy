/** Buckets and sub-buckets of the histogram, the totals of their counts,
    the invariants the histogram keeps about them, and what one `update`
    does to them. */
module Buckets {
  import opened Extrema
  import opened SparseArrays

  /** A sub-bucket (and the statistics part of a bucket): how many samples
      fell in it and the extrema of their values. */
  datatype Cell = Cell(count: nat, min: Option<real>, max: Option<real>)

  /** A main bucket; `subBuckets` is present when the bucket was a focus bucket. */
  datatype Bucket = Bucket(count: nat, min: Option<real>, max: Option<real>, subBuckets: Option<Sparse<Cell>>)
  {
    function Stats(): Cell { Cell(count, min, max) }
  }

  /** A cell that holds at least one sample: its extrema are set and ordered. */
  predicate Occupied(c: Cell)
  {
    c.count >= 1 && c.min.Some? && c.max.Some? && c.min.value <= c.max.value
  }

  // ---------------------------------------------------------------------
  // Totals

  /** Sum of the counts of the cells present below index `n`. */
  function CountsBelow(items: map<nat, Cell>, n: nat): nat
  {
    if n == 0 then 0
    else CountsBelow(items, n - 1) + (if n - 1 in items then items[n - 1].count else 0)
  }

  /** Sum of the counts of all present sub-buckets. */
  function Total(s: Sparse<Cell>): nat
  {
    CountsBelow(s.items, s.length)
  }

  /** Number of cells present below index `n`. */
  function PresentBelow(items: map<nat, Cell>, n: nat): nat
  {
    if n == 0 then 0 else PresentBelow(items, n - 1) + (if n - 1 in items then 1 else 0)
  }

  /** Sum of the counts of the buckets present below index `n`. */
  function BucketCountsBelow(items: map<nat, Bucket>, n: nat): nat
  {
    if n == 0 then 0
    else BucketCountsBelow(items, n - 1) + (if n - 1 in items then items[n - 1].count else 0)
  }

  /** `toJSON`'s `samplesCount`: the sum of the counts of the present buckets. */
  function BucketTotal(b: Sparse<Bucket>): nat
  {
    BucketCountsBelow(b.items, b.length)
  }

  /** Entries at or above `n` do not contribute to the sum below `n`. */
  lemma {:induction false} CountsBelowIgnoresAbove(a: map<nat, Cell>, b: map<nat, Cell>, n: nat)
    requires forall k :: k < n ==> (k in a <==> k in b)
    requires forall k :: k < n && k in a ==> a[k].count == b[k].count
    ensures CountsBelow(a, n) == CountsBelow(b, n)
  {
    if n > 0 {
      CountsBelowIgnoresAbove(a, b, n - 1);
    }
  }

  /** Nothing is present between `n` and `m`, so the sums agree. */
  lemma {:induction false} CountsBelowGap(a: map<nat, Cell>, n: nat, m: nat)
    requires n <= m
    requires forall k :: n <= k < m ==> k !in a
    ensures CountsBelow(a, m) == CountsBelow(a, n)
  {
    if m > n {
      CountsBelowGap(a, n, m - 1);
    }
  }

  /** Setting entry `i` (below `n`) changes the sum below `n` by the change in its count. */
  lemma {:induction false} CountsBelowSet(a: map<nat, Cell>, i: nat, c: Cell, n: nat)
    requires i < n
    ensures CountsBelow(a[i := c], n) + (if i in a then a[i].count else 0) == CountsBelow(a, n) + c.count
  {
    if n - 1 == i {
      CountsBelowIgnoresAbove(a[i := c], a, i);
    } else {
      CountsBelowSet(a, i, c, n - 1);
    }
  }

  /** `a[i] = c` on a sub-bucket array changes its total by the change at `i`. */
  lemma AssignTotal(s: Sparse<Cell>, i: nat, c: Cell)
    requires WellFormed(s)
    ensures Total(Assign(s, i, c)) + (if i in s.items then s.items[i].count else 0) == Total(s) + c.count
  {
    var r := Assign(s, i, c);
    CountsBelowSet(s.items, i, c, r.length);
    CountsBelowGap(s.items, s.length, r.length);
  }

  lemma {:induction false} BucketCountsBelowIgnoresAbove(a: map<nat, Bucket>, b: map<nat, Bucket>, n: nat)
    requires forall k :: k < n ==> (k in a <==> k in b)
    requires forall k :: k < n && k in a ==> a[k].count == b[k].count
    ensures BucketCountsBelow(a, n) == BucketCountsBelow(b, n)
  {
    if n > 0 {
      BucketCountsBelowIgnoresAbove(a, b, n - 1);
    }
  }

  lemma {:induction false} BucketCountsBelowGap(a: map<nat, Bucket>, n: nat, m: nat)
    requires n <= m
    requires forall k :: n <= k < m ==> k !in a
    ensures BucketCountsBelow(a, m) == BucketCountsBelow(a, n)
  {
    if m > n {
      BucketCountsBelowGap(a, n, m - 1);
    }
  }

  lemma {:induction false} BucketCountsBelowSet(a: map<nat, Bucket>, i: nat, c: Bucket, n: nat)
    requires i < n
    ensures BucketCountsBelow(a[i := c], n) + (if i in a then a[i].count else 0) == BucketCountsBelow(a, n) + c.count
  {
    if n - 1 == i {
      BucketCountsBelowIgnoresAbove(a[i := c], a, i);
    } else {
      BucketCountsBelowSet(a, i, c, n - 1);
    }
  }

  lemma BucketAssignTotal(b: Sparse<Bucket>, i: nat, c: Bucket)
    requires WellFormed(b)
    ensures BucketTotal(Assign(b, i, c)) + (if i in b.items then b.items[i].count else 0) == BucketTotal(b) + c.count
  {
    var r := Assign(b, i, c);
    BucketCountsBelowSet(b.items, i, c, r.length);
    BucketCountsBelowGap(b.items, b.length, r.length);
  }

  // ---------------------------------------------------------------------
  // Invariants of the bucket array

  /** One bucket as the histogram keeps it: it holds samples, and if it has
      sub-buckets, they form an array whose counts add up to the bucket's
      count and each of which holds samples. */
  predicate BucketSound(m: Bucket)
  {
    && Occupied(m.Stats())
    && (m.subBuckets.Some? ==>
          && WellFormed(m.subBuckets.value)
          && Total(m.subBuckets.value) == m.count
          && forall j :: j in m.subBuckets.value.items ==> Occupied(m.subBuckets.value.items[j]))
  }

  /** The invariant of the bucket array: built by index assignment, every bucket sound. */
  predicate Sound(b: Sparse<Bucket>)
  {
    WellFormed(b) && forall i :: i in b.items ==> BucketSound(b.items[i])
  }

  /** A present bucket has sub-buckets exactly when its index is a focus
      bucket.  Histograms fed only by `update` satisfy this; `update` relies
      on it to keep the sub-bucket totals right. */
  predicate Covered(b: Sparse<Bucket>, focus: seq<nat>)
  {
    forall i :: i in b.items ==> (b.items[i].subBuckets.Some? <==> i in focus)
  }

  // ---------------------------------------------------------------------
  // update

  /** One sample `v` counted in a cell: count + 1 and the extrema folded with `v`. */
  function Fold(c: Cell, v: real): (r: Cell)
    ensures r.count == c.count + 1
    ensures Occupied(r) && r.min.value <= v <= r.max.value
    ensures c.min.Some? ==> r.min.value <= c.min.value
    ensures c.max.Some? ==> c.max.value <= r.max.value
  {
    Cell(c.count + 1, SafeMin(c.min, Some(v)), SafeMax(c.max, Some(v)))
  }

  /** The cell at `i`, or `{count: 0}` if there is none yet. */
  function CellAt(s: Sparse<Cell>, i: nat): Cell
  {
    if i in s.items then s.items[i] else Cell(0, None, None)
  }

  function BucketAt(b: Sparse<Bucket>, i: nat): Bucket
  {
    if i in b.items then b.items[i] else Bucket(0, None, None, None)
  }

  /** The sub-bucket array of `m`, or `[]` if it has none yet. */
  function SubsOf(m: Bucket): Sparse<Cell>
  {
    if m.subBuckets.Some? then m.subBuckets.value else Empty()
  }

  /** What `update` does to the bucket array when the sample `v` falls in
      bucket `i` and, if `i` is a focus bucket, in its sub-bucket `j`. */
  function Record(b: Sparse<Bucket>, focus: seq<nat>, i: nat, j: nat, v: real): (r: Sparse<Bucket>)
    ensures WellFormed(b) ==> WellFormed(r)
    ensures i in r.items && r.items[i].count == BucketAt(b, i).count + 1
    ensures r.items[i].subBuckets.Some? <==> i in focus || BucketAt(b, i).subBuckets.Some?
    ensures forall k :: k != i ==> (k in r.items <==> k in b.items)
    ensures forall k :: k != i && k in b.items ==> r.items[k] == b.items[k]
  {
    var was := BucketAt(b, i);
    var stats := Fold(was.Stats(), v);
    var subs :=
      if i in focus then
        var s := SubsOf(was);
        Some(Assign(s, j, Fold(CellAt(s, j), v)))
      else was.subBuckets;
    Assign(b, i, Bucket(stats.count, stats.min, stats.max, subs))
  }

  /** A recorded sample lands in bucket `i`, adds one to its count and to
      the histogram's total, folds `v` into its extrema, and leaves every
      other bucket as it was.  In a focus bucket it also lands in sub-bucket
      `j` (created along with the array if missing), which gains one and
      folds `v` while every other sub-bucket stays; outside the focus the
      sub-buckets are left alone. */
  lemma RecordCounts(b: Sparse<Bucket>, focus: seq<nat>, i: nat, j: nat, v: real)
    requires WellFormed(b)
    ensures var r := Record(b, focus, i, j, v);
      && i in r.items
      && r.items[i].count == BucketAt(b, i).count + 1
      && r.items[i].min == SafeMin(BucketAt(b, i).min, Some(v))
      && r.items[i].max == SafeMax(BucketAt(b, i).max, Some(v))
      && (forall k :: k != i ==> (k in r.items <==> k in b.items))
      && (forall k :: k != i && k in b.items ==> r.items[k] == b.items[k])
      && BucketTotal(r) == BucketTotal(b) + 1
    ensures var r, s := Record(b, focus, i, j, v), SubsOf(BucketAt(b, i));
      i in focus ==>
        && r.items[i].subBuckets.Some?
        && var t := r.items[i].subBuckets.value;
        && j in t.items
        && t.items[j] == Fold(CellAt(s, j), v)
        && (forall k :: k != j ==> (k in t.items <==> k in s.items))
        && (forall k :: k != j && k in s.items ==> t.items[k] == s.items[k])
        && t.length == (if j < s.length then s.length else j + 1)
        && (WellFormed(s) ==> Total(t) == Total(s) + 1)
    ensures var r := Record(b, focus, i, j, v);
      i !in focus ==> r.items[i].subBuckets == BucketAt(b, i).subBuckets
  {
    var r := Record(b, focus, i, j, v);
    BucketAssignTotal(b, i, r.items[i]);
    if i in focus {
      var s := SubsOf(BucketAt(b, i));
      if WellFormed(s) {
        AssignTotal(s, j, Fold(CellAt(s, j), v));
      }
    }
  }

  /** `update` keeps the histogram sound when every focus bucket already
      present has its sub-buckets; it also keeps that coverage. */
  lemma RecordKeepsSound(b: Sparse<Bucket>, focus: seq<nat>, i: nat, j: nat, v: real)
    requires Sound(b) && Covered(b, focus)
    ensures Sound(Record(b, focus, i, j, v)) && Covered(Record(b, focus, i, j, v), focus)
  {
    var r := Record(b, focus, i, j, v);
    var was := BucketAt(b, i);
    if i in focus {
      var s := SubsOf(was);
      assert i !in b.items ==> s == Empty();
      assert Total(s) == was.count;
      AssignTotal(s, j, Fold(CellAt(s, j), v));
    }
    assert r.items[i].count == was.count + 1;
  }

  // ---------------------------------------------------------------------
  // The weaker invariant every reachable histogram keeps

  /** One bucket of any histogram built by the constructor, `update` and
      `add`: it holds samples, and its sub-buckets, if any, form a non-empty
      array of occupied cells that hold no more samples than the bucket.
      They may hold fewer: a focus bucket that arrived through `add` from a
      histogram without that focus has none, and `update` starts them with
      the next sample only. */
  predicate BucketShaped(m: Bucket)
  {
    && Occupied(m.Stats())
    && (m.subBuckets.Some? ==>
          && WellFormed(m.subBuckets.value)
          && m.subBuckets.value.length > 0
          && Total(m.subBuckets.value) <= m.count
          && forall j :: j in m.subBuckets.value.items ==> Occupied(m.subBuckets.value.items[j]))
  }

  predicate Shaped(b: Sparse<Bucket>)
  {
    WellFormed(b) && forall i :: i in b.items ==> BucketShaped(b.items[i])
  }

  /** Sound buckets are shaped: their sub-buckets add up to the bucket and so
      are not empty. */
  lemma SoundIsShaped(b: Sparse<Bucket>)
    requires Sound(b)
    ensures Shaped(b)
  {
    forall i | i in b.items
      ensures BucketShaped(b.items[i])
    {
      var m := b.items[i];
      if m.subBuckets.Some? && m.subBuckets.value.length == 0 {
        assert Total(m.subBuckets.value) == 0;
      }
    }
  }

  /** `update` keeps every bucket shaped, whatever the focus. */
  lemma RecordKeepsShaped(b: Sparse<Bucket>, focus: seq<nat>, i: nat, j: nat, v: real)
    requires Shaped(b)
    ensures Shaped(Record(b, focus, i, j, v))
  {
    var r := Record(b, focus, i, j, v);
    var was := BucketAt(b, i);
    if i in focus {
      var s := SubsOf(was);
      assert Total(Empty<Cell>()) == 0;
      AssignTotal(s, j, Fold(CellAt(s, j), v));
    }
    assert r.items[i].count == was.count + 1;
  }
}
