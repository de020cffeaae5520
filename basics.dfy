/** Small shared vocabulary: optional values, error results, orderings on
    integer sequences, and the ascending sort the clustering code applies to
    its finished clusters. */
module Basics {

  datatype Option<+T> = None | Some(value: T)

  datatype Result<+T, +E> = Ok(value: T) | Err(error: E)

  /** Strictly increasing, hence also free of repetitions. */
  predicate StrictlyAscending(s: seq<int>) {
    forall p, q :: 0 <= p < q < |s| ==> s[p] < s[q]
  }

  /** Non-decreasing. */
  predicate Ascending(s: seq<int>) {
    forall p, q :: 0 <= p < q < |s| ==> s[p] <= s[q]
  }

  predicate Distinct<T(==)>(s: seq<T>) {
    forall p, q :: 0 <= p < q < |s| ==> s[p] != s[q]
  }

  /** The list 0, 1, ..., n - 1. */
  function Range(n: nat): (r: seq<int>)
    ensures |r| == n
    ensures forall p :: 0 <= p < n ==> r[p] == p
  {
    seq(n, p => p)
  }

  /** Exchanges slots i and j: a permutation that moves nothing else. */
  function Swap<T>(s: seq<T>, i: nat, j: nat): (r: seq<T>)
    requires i < |s| && j < |s|
    ensures |r| == |s| && r[i] == s[j] && r[j] == s[i]
    ensures forall k :: 0 <= k < |s| && k != i && k != j ==> r[k] == s[k]
  {
    s[i := s[j]][j := s[i]]
  }

  /** Exchanging two elements keeps the multiset. */
  lemma SwapPermutes<T>(s: seq<T>, i: nat, j: nat)
    requires i < |s| && j < |s|
    ensures multiset(Swap(s, i, j)) == multiset(s)
  {
    var t := s[i := s[j]];
    assert multiset(t) == multiset(s) - multiset{s[i]} + multiset{s[j]};
  }

  /** In a list without repetitions every entry occurs exactly once. */
  lemma {:induction false} DistinctOnce<T>(s: seq<T>, k: nat)
    requires Distinct(s) && k < |s|
    ensures multiset(s)[s[k]] == 1
  {
    var t, last := s[..|s| - 1], s[|s| - 1];
    assert s == t + [last];
    assert Distinct(t);
    if k == |s| - 1 {
      assert forall q :: 0 <= q < |t| ==> t[q] != last;
      assert last !in multiset(t);
    } else {
      DistinctOnce(t, k);
      assert t[k] == s[k] != last;
    }
  }

  /** Inserts x into an ascending list, keeping it ascending. */
  function Insert(x: int, s: seq<int>): (r: seq<int>)
    requires Ascending(s)
    ensures Ascending(r)
    ensures multiset(r) == multiset(s) + multiset{x}
    ensures |r| == |s| + 1
    ensures forall y :: y in r ==> y == x || y in s
  {
    if s == [] then [x]
    else if x <= s[0] then [x] + s
    else
      var rest := Insert(x, s[1..]);
      assert s == [s[0]] + s[1..];
      forall q | 0 <= q < |rest| ensures s[0] <= rest[q] {
        assert rest[q] in rest;
      }
      ConsAscending(s[0], rest);
      [s[0]] + rest
  }

  /** An ascending list stays ascending below a head no greater than its entries. */
  lemma ConsAscending(h: int, rest: seq<int>)
    requires Ascending(rest) && forall q :: 0 <= q < |rest| ==> h <= rest[q]
    ensures Ascending([h] + rest)
  {
    var r := [h] + rest;
    forall p, q | 0 <= p < q < |r| ensures r[p] <= r[q] {
      if p > 0 {
        assert r[p] == rest[p - 1] && r[q] == rest[q - 1];
      }
    }
  }

  /** Ascending sort of a list of point indices (what Python's `sorted` does
      to a finished cluster): the result is ordered and a permutation. */
  function Sort(s: seq<int>): (r: seq<int>)
    ensures Ascending(r)
    ensures multiset(r) == multiset(s)
    ensures |r| == |s|
  {
    if s == [] then []
    else
      assert s == [s[0]] + s[1..];
      Insert(s[0], Sort(s[1..]))
  }

  /** Inserting a new value into a strictly ascending list keeps it strictly ascending. */
  lemma {:induction false} InsertStrict(x: int, s: seq<int>)
    requires StrictlyAscending(s) && x !in s
    ensures StrictlyAscending(Insert(x, s))
  {
    if s != [] && x > s[0] {
      var rest := Insert(x, s[1..]);
      InsertStrict(x, s[1..]);
      assert Insert(x, s) == [s[0]] + rest;
      forall q | 0 <= q < |rest| ensures s[0] < rest[q] {
        assert rest[q] in rest;
      }
      ConsStrict(s[0], rest);
    }
  }

  lemma ConsStrict(h: int, rest: seq<int>)
    requires StrictlyAscending(rest) && forall q :: 0 <= q < |rest| ==> h < rest[q]
    ensures StrictlyAscending([h] + rest)
  {
    var r := [h] + rest;
    forall p, q | 0 <= p < q < |r| ensures r[p] < r[q] {
      if p > 0 {
        assert r[p] == rest[p - 1] && r[q] == rest[q - 1];
      }
    }
  }

  /** An ascending permutation of a list without repetitions is strictly ascending. */
  lemma {:induction false} SortOfDistinct(s: seq<int>)
    requires Distinct(s)
    ensures StrictlyAscending(Sort(s))
  {
    if s != [] {
      assert s == [s[0]] + s[1..];
      SortOfDistinct(s[1..]);
      assert s[0] !in multiset(s[1..]);
      assert s[0] !in Sort(s[1..]) by {
        assert s[0] !in multiset(Sort(s[1..]));
      }
      InsertStrict(s[0], Sort(s[1..]));
    }
  }
}
