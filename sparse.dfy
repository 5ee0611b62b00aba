/** JavaScript arrays with holes.

    `buckets` and `subBuckets` are plain arrays written only by index
    assignment (`a[i] = x`), so they have holes, and their `length` is one
    more than the highest index ever assigned.  A `Sparse<T>` keeps the
    entries that are present and that length. */
module SparseArrays {

  datatype Sparse<T> = Sparse(items: map<nat, T>, length: nat)

  /** What every array built by index assignment satisfies: each entry lies
      below `length`, and the last slot is occupied. */
  predicate WellFormed<T>(s: Sparse<T>)
  {
    && (forall i :: i in s.items ==> i < s.length)
    && (s.length > 0 ==> s.length - 1 in s.items)
  }

  /** `[]` */
  function Empty<T>(): (r: Sparse<T>)
    ensures WellFormed(r)
    ensures r.items == map[] && r.length == 0
  {
    Sparse(map[], 0)
  }

  /** `a[i] = v`: the entry is set and the array grows to `i + 1` if it was shorter. */
  function Assign<T>(s: Sparse<T>, i: nat, v: T): (r: Sparse<T>)
    ensures WellFormed(s) ==> WellFormed(r)
    ensures i in r.items && r.items[i] == v && i < r.length
    ensures forall k :: k != i ==> (k in r.items <==> k in s.items)
    ensures forall k :: k != i && k in s.items ==> r.items[k] == s.items[k]
  {
    Sparse(s.items[i := v], if i < s.length then s.length else i + 1)
  }
}
