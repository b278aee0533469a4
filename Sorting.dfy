/** The two orderings the report relies on: the ascending order of a sample
    that `np.percentile` and `median` work from, and the ascending list of
    distinct group keys that a sorted `groupby` emits one row per. */
module Sorting {

  // ---------------------------------------------------------------------------
  // Ascending order of a sample (duplicates kept)
  // ---------------------------------------------------------------------------

  predicate Sorted(s: seq<real>)
  {
    forall i, j :: 0 <= i < j < |s| ==> s[i] <= s[j]
  }

  /** Inserts x into a sorted sample before the first element not below it. */
  function Insert(x: real, s: seq<real>): (r: seq<real>)
    requires Sorted(s)
    ensures |r| == |s| + 1
    ensures Sorted(r)
    ensures multiset(r) == multiset(s) + multiset{x}
  {
    if s == [] || x <= s[0] then
      SortedCons(x, s);
      [x] + s
    else
      var rest := Insert(x, s[1..]);
      InsertBehindHead(x, s, rest);
      [s[0]] + rest
  }

  /** Putting back the head of a sorted sample in front of the rest with x
      inserted, where x is above the head, gives a sorted sample holding
      the head, the rest and x. */
  lemma InsertBehindHead(x: real, s: seq<real>, rest: seq<real>)
    requires Sorted(s) && s != [] && s[0] < x
    requires Sorted(rest) && multiset(rest) == multiset(s[1..]) + multiset{x}
    ensures Sorted([s[0]] + rest)
    ensures multiset([s[0]] + rest) == multiset(s) + multiset{x}
  {
    assert s == [s[0]] + s[1..];
    forall y | y in rest ensures s[0] <= y {
      assert y in multiset(rest);
      if y != x {
        assert y in s[1..];
      }
    }
    SortedCons(s[0], rest);
  }

  /** A sorted sample stays sorted when a value not above any of its
      elements is put in front. */
  lemma SortedCons(a: real, s: seq<real>)
    requires Sorted(s)
    requires forall y :: y in s ==> a <= y
    ensures Sorted([a] + s)
  {
    forall i, j | 0 <= i < j < |s| + 1 ensures ([a] + s)[i] <= ([a] + s)[j] {
      if i == 0 { assert s[j - 1] in s; }
    }
  }

  /** The sample in ascending order: a sorted permutation of it. */
  function Sort(s: seq<real>): (r: seq<real>)
    ensures |r| == |s|
    ensures Sorted(r)
    ensures multiset(r) == multiset(s)
  {
    if s == [] then []
    else
      assert s == [s[0]] + s[1..];
      Insert(s[0], Sort(s[1..]))
  }

  // ---------------------------------------------------------------------------
  // Distinct keys in strictly ascending order
  // ---------------------------------------------------------------------------

  predicate StrictlyIncreasing(ks: seq<int>)
  {
    forall i, j :: 0 <= i < j < |ks| ==> ks[i] < ks[j]
  }

  /** Adds a key to a strictly increasing list of keys unless already there. */
  function InsertKey(k: int, ks: seq<int>): (r: seq<int>)
    requires StrictlyIncreasing(ks)
    ensures StrictlyIncreasing(r)
    ensures forall x :: x in r <==> x == k || x in ks
  {
    if ks == [] || k < ks[0] then [k] + ks
    else if k == ks[0] then ks
    else
      var rest := InsertKey(k, ks[1..]);
      assert forall x :: x in ks <==> x == ks[0] || x in ks[1..];
      assert forall j :: 0 <= j < |rest| ==> ks[0] < rest[j] by {
        forall j | 0 <= j < |rest| ensures ks[0] < rest[j] {
          assert rest[j] in rest;
          if rest[j] != k {
            var i :| 0 <= i < |ks[1..]| && ks[1..][i] == rest[j];
            assert ks[i + 1] == rest[j];
          }
        }
      }
      [ks[0]] + rest
  }

  /** The distinct values of a key column, in strictly ascending order: the
      row labels of a sorted `groupby` on that column. */
  function DistinctSorted(ks: seq<int>): (r: seq<int>)
    ensures StrictlyIncreasing(r)
    ensures forall x :: x in r <==> x in ks
  {
    if ks == [] then []
    else
      assert forall x :: x in ks <==> x == ks[0] || x in ks[1..];
      InsertKey(ks[0], DistinctSorted(ks[1..]))
  }

  /** The positions, from lo on, at which a key column holds the key k, in
      increasing order: the rows that `groupby` collects into k's group. */
  function KeyIndices<K(==)>(keys: seq<K>, k: K, lo: nat): (idx: seq<int>)
    requires lo <= |keys|
    ensures StrictlyIncreasing(idx)
    ensures forall i :: i in idx <==> lo <= i < |keys| && keys[i] == k
    decreases |keys| - lo
  {
    if lo == |keys| then []
    else
      var rest := KeyIndices(keys, k, lo + 1);
      if keys[lo] == k then
        assert forall j :: 0 <= j < |rest| ==> lo < rest[j] by {
          forall j | 0 <= j < |rest| ensures lo < rest[j] {
            assert rest[j] in rest;
          }
        }
        [lo] + rest
      else
        rest
  }
}
