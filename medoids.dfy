/** The index bookkeeping of the CLARANS medoid search: the sorted list of
    medoids, the enumeration of the points that are not medoids, the mapping
    of a random (medoid rank, non-medoid rank) pair to an actual swap, and the
    update of the sorted medoid list when a swap is accepted.

    The swap evaluation itself (its cost sums over real distances) and the
    AGORAS seeding are not part of this module; the seed medoids and the
    random draws are inputs. */
module Clarans {
  import opened Basics
  import Sampling

  /** The points 0 .. n-1 that are not in s, in ascending order. */
  function Complement(s: seq<int>, n: nat): seq<int> {
    if n == 0 then [] else Complement(s, n - 1) + (if n - 1 in s then [] else [n - 1])
  }

  /** How many entries of s lie below y. */
  function CountBelow(s: seq<int>, y: int): nat {
    if s == [] then 0 else CountBelow(s[..|s| - 1], y) + (if s[|s| - 1] < y then 1 else 0)
  }

  /** The number of (medoid, non-medoid) pairs with k medoids among n points. */
  function SwapCount(k: nat, n: nat): nat
    requires k <= n
  {
    k * (n - k)
  }

  /** A proper medoid list: ascending, without repetition, within 0 .. n-1. */
  predicate MedoidList(s: seq<int>, n: nat) {
    StrictlyAscending(s) && forall p :: 0 <= p < |s| ==> 0 <= s[p] < n
  }

  /** The complement holds exactly the non-medoids below n. */
  lemma {:induction false} ComplementMembers(s: seq<int>, n: nat)
    ensures forall x :: x in Complement(s, n) <==> 0 <= x < n && x !in s
  {
    if n > 0 {
      ComplementMembers(s, n - 1);
    }
  }

  /** The complement is listed in strictly ascending order. */
  lemma {:induction false} ComplementAscending(s: seq<int>, n: nat)
    ensures StrictlyAscending(Complement(s, n))
  {
    if n > 0 {
      ComplementAscending(s, n - 1);
      ComplementMembers(s, n - 1);
      var c := Complement(s, n - 1);
      assert forall p :: 0 <= p < |c| ==> c[p] in c;
    }
  }

  /** For distinct entries, moving the bound y up by one counts y itself
      exactly when it is an entry. */
  lemma {:induction false} CountBelowStep(s: seq<int>, y: int)
    requires Distinct(s)
    ensures CountBelow(s, y + 1) == CountBelow(s, y) + (if y in s then 1 else 0)
  {
    if s != [] {
      var t := s[..|s| - 1];
      assert Distinct(t);
      CountBelowStep(t, y);
      assert s == t + [s[|s| - 1]];
      assert y in s <==> y in t || y == s[|s| - 1];
      assert y in t ==> y != s[|s| - 1];
    }
  }

  lemma {:induction false} CountBelowAtMost(s: seq<int>, y: int)
    ensures CountBelow(s, y) <= |s|
  {
    if s != [] {
      CountBelowAtMost(s[..|s| - 1], y);
    }
  }

  lemma {:induction false} CountBelowNone(s: seq<int>)
    requires forall p :: 0 <= p < |s| ==> s[p] >= 0
    ensures CountBelow(s, 0) == 0
  {
    if s != [] {
      CountBelowNone(s[..|s| - 1]);
    }
  }

  lemma {:induction false} CountBelowAll(s: seq<int>, n: int)
    requires forall p :: 0 <= p < |s| ==> s[p] < n
    ensures CountBelow(s, n) == |s|
  {
    if s != [] {
      CountBelowAll(s[..|s| - 1], n);
    }
  }

  /** The complement below m has m minus the number of medoids below m entries. */
  lemma {:induction false} ComplementLength(s: seq<int>, m: nat)
    requires Distinct(s) && forall p :: 0 <= p < |s| ==> s[p] >= 0
    ensures |Complement(s, m)| == m - CountBelow(s, m)
  {
    if m == 0 {
      CountBelowNone(s);
    } else {
      ComplementLength(s, m - 1);
      CountBelowStep(s, m - 1);
    }
  }

  lemma {:induction false} ComplementPrefix(s: seq<int>, m: nat, m': nat)
    requires m <= m'
    ensures |Complement(s, m)| <= |Complement(s, m')|
    ensures Complement(s, m')[..|Complement(s, m)|] == Complement(s, m)
  {
    if m < m' {
      ComplementPrefix(s, m, m' - 1);
    }
  }

  /** A non-medoid y is the entry of rank y - CountBelow(s, y) of the complement. */
  lemma ComplementAt(s: seq<int>, n: nat, y: int)
    requires MedoidList(s, n)
    requires 0 <= y < n && y !in s
    ensures 0 <= y - CountBelow(s, y) < |Complement(s, n)|
    ensures Complement(s, n)[y - CountBelow(s, y)] == y
  {
    ComplementLength(s, y);
    ComplementLength(s, y + 1);
    ComplementPrefix(s, y + 1, n);
    assert Complement(s, y + 1) == Complement(s, y) + [y];
  }

  /** There are n - |s| non-medoids. */
  lemma ComplementSize(s: seq<int>, n: nat)
    requires MedoidList(s, n)
    ensures |Complement(s, n)| == n - |s|
  {
    ComplementLength(s, n);
    CountBelowAll(s, n);
  }

  /** The part of the medoid state that the modelled operations touch:
      n points, k sorted medoids, and the not yet consumed stream of random
      (medoid rank, non-medoid rank) pairs. */
  class Medoids {
    const n: nat
    const k: nat
    var selected: seq<int>
    var randomSwap: seq<seq<nat>>

    ghost predicate Valid()
      reads this
    {
      && 0 < k <= n
      && |selected| == k
      && MedoidList(selected, n)
      && forall t :: 0 <= t < |randomSwap| ==> Sampling.InBox(randomSwap[t], [k, n - k])
    }

    /** Takes the seed medoids (AGORAS's output, given here), sorts them and
        starts the stream of random swaps with the given draws. */
    constructor (n: nat, seed: seq<int>, draws: seq<nat>)
      requires 0 < |seed| <= n && Distinct(seed)
      requires forall p :: 0 <= p < |seed| ==> 0 <= seed[p] < n
      requires |seed| < n ==> Sampling.ValidDraws(draws, SwapCount(|seed|, n))
      ensures Valid()
      ensures this.n == n && k == |seed|
      ensures multiset(selected) == multiset(seed)
      ensures k < n ==> |randomSwap| == SwapCount(k, n) && Distinct(randomSwap)
      ensures k < n ==> forall r :: Sampling.InBox(r, [k, n - k]) ==> r in randomSwap
      ensures k < n ==> Sampling.DecodedShuffle(randomSwap, [k, n - k], draws)
      ensures k == n ==> randomSwap == []
    {
      this.n := n;
      k := |seed|;
      var sorted := Sort(seed);
      SortOfDistinct(seed);
      forall p | 0 <= p < |sorted| ensures 0 <= sorted[p] < n {
        assert sorted[p] in multiset(seed);
      }
      selected := sorted;
      new;
      ResetRandomSwap(draws);
    }

    /** Restarts the stream of random swaps: every (medoid rank, non-medoid
        rank) pair once, in the order the draws determine. With no
        non-medoid left the stream is empty. */
    method ResetRandomSwap(draws: seq<nat>)
      requires 0 < k <= n && |selected| == k && MedoidList(selected, n)
      requires k < n ==> Sampling.ValidDraws(draws, SwapCount(k, n))
      modifies this`randomSwap
      ensures Valid()
      ensures k < n ==> |randomSwap| == SwapCount(k, n) && Distinct(randomSwap)
      ensures k < n ==> forall r :: Sampling.InBox(r, [k, n - k]) ==> r in randomSwap
      ensures k < n ==> Sampling.DecodedShuffle(randomSwap, [k, n - k], draws)
      ensures k == n ==> randomSwap == []
    {
      if k < n {
        var radices := [k, n - k];
        assert Sampling.Product(radices) == SwapCount(k, n) by {
          assert radices[1..] == [n - k] && radices[1..][1..] == [];
          assert Sampling.Product([n - k]) == n - k;
        }
        randomSwap := Sampling.ShuffledTuples(radices, draws);
      } else {
        randomSwap := [];
      }
    }

    /** The points that are not medoids, in ascending order. */
    method Unselected() returns (out: seq<int>)
      requires Valid()
      ensures out == Complement(selected, n)
      ensures StrictlyAscending(out)
      ensures forall x :: x in out <==> 0 <= x < n && x !in selected
      ensures |out| == n - k
    {
      out := [];
      var z := selected[0];
      var c := 1;
      for i := 0 to n
        invariant 1 <= c <= |selected|
        invariant out == Complement(selected, i)
        invariant forall p :: 0 <= p < c - 1 ==> selected[p] < i
        invariant z == -1 ==> c == |selected| && selected[c - 1] < i
        invariant z != -1 ==> z == selected[c - 1] && z >= i
      {
        if i == z {
          if c < |selected| {
            z := selected[c];
            c := c + 1;
          } else {
            z := -1;
          }
        } else {
          assert i !in selected by {
            forall p | 0 <= p < |selected| ensures selected[p] != i {
              if p >= c {
                assert selected[p] > selected[c - 1];
              }
            }
          }
          out := out + [i];
        }
      }
      ComplementAscending(selected, n);
      ComplementMembers(selected, n);
      ComplementSize(selected, n);
    }

    /** The next not yet tried swap: the next pair (n_i, h) of the stream
        names the medoid of rank n_i and the non-medoid of rank h. Stepping h
        over every medoid at or below it turns the rank among non-medoids
        into a point index. An exhausted stream yields None. */
    method NextRandomSwap() returns (swap: Option<(int, int)>)
      requires Valid()
      modifies this`randomSwap
      ensures Valid()
      ensures old(randomSwap) == [] ==> swap == None && randomSwap == []
      ensures old(randomSwap) != [] ==> randomSwap == old(randomSwap)[1..]
      ensures old(randomSwap) != [] ==>
        var ni, h := old(randomSwap)[0][0], old(randomSwap)[0][1];
        h < |Complement(selected, n)| &&
        swap == Some((selected[ni], Complement(selected, n)[h]))
    {
      if randomSwap == [] {
        return None;
      }
      var ni, h0 := randomSwap[0][0], randomSwap[0][1];
      randomSwap := randomSwap[1..];
      var h := TranslateRank(selected, n, h0);
      swap := Some((selected[ni], h));
    }

    /** Accepts the swap of medoid i with non-medoid h: i leaves the sorted
        medoid list and h is inserted at its ordered place. */
    method ReplaceMedoid(i: int, h: int)
      requires Valid()
      requires i in selected && 0 <= h < n && h !in selected
      modifies this`selected
      ensures Valid()
      ensures forall x :: x in selected <==> (x in old(selected) && x != i) || x == h
    {
      var rest := Delete(selected, i);
      selected := InsertSorted(rest, h);
      forall p | 0 <= p < |selected| ensures 0 <= selected[p] < n {
        assert selected[p] in selected;
      }
    }
  }

  /** The h-th point (0-based) that is not a medoid: h is raised by one for
      every medoid at or below its current value, medoids in ascending order. */
  method TranslateRank(selected: seq<int>, n: nat, h: nat) returns (point: int)
    requires MedoidList(selected, n)
    requires h < n - |selected|
    ensures h < |Complement(selected, n)|
    ensures point == Complement(selected, n)[h]
    ensures 0 <= point < n && point !in selected
  {
    point := h;
    for m := 0 to |selected|
      invariant point == h + CountBelow(selected[..m], point)
      invariant point !in selected[..m]
    {
      assert selected[..m + 1][..m] == selected[..m];
      if point >= selected[m] {
        CountBelowSkip(selected[..m], point);
        assert point + 1 !in selected[..m + 1] by {
          forall p | 0 <= p < m ensures selected[p] != point + 1 {
            assert selected[p] < selected[m];
          }
        }
        point := point + 1;
      }
    }
    assert selected[..|selected|] == selected;
    CountBelowAtMost(selected, point);
    ComplementAt(selected, n, point);
    ComplementSize(selected, n);
  }

  /** Moving the bound past a non-entry does not change the count. */
  lemma {:induction false} CountBelowSkip(s: seq<int>, y: int)
    requires y !in s
    ensures CountBelow(s, y + 1) == CountBelow(s, y)
  {
    if s != [] {
      CountBelowSkip(s[..|s| - 1], y);
    }
  }

  /** Deletes the first occurrence of i (it is a medoid, so there is one). */
  method Delete(selected: seq<int>, i: int) returns (rest: seq<int>)
    requires StrictlyAscending(selected) && i in selected
    ensures StrictlyAscending(rest)
    ensures |rest| == |selected| - 1
    ensures forall x :: x in rest <==> x in selected && x != i
  {
    var at := 0;
    while selected[at] != i
      invariant 0 <= at < |selected|
      invariant i in selected[at..]
      decreases |selected| - at
    {
      assert selected[at..] == [selected[at]] + selected[at + 1..];
      at := at + 1;
    }
    rest := selected[..at] + selected[at + 1..];
    DeleteFacts(selected, at, rest);
  }

  lemma DeleteFacts(selected: seq<int>, at: nat, rest: seq<int>)
    requires StrictlyAscending(selected) && at < |selected|
    requires rest == selected[..at] + selected[at + 1..]
    ensures StrictlyAscending(rest)
    ensures forall x :: x in rest <==> x in selected && x != selected[at]
  {
    DeleteShift(selected, at, rest);
    forall x | x in selected && x != selected[at] ensures x in rest {
      var p :| 0 <= p < |selected| && selected[p] == x;
      assert rest[if p < at then p else p - 1] == x;
    }
    forall p, q | 0 <= p < q < |rest| ensures rest[p] < rest[q] {
      assert rest[p] == selected[if p < at then p else p + 1];
      assert rest[q] == selected[if q < at then q else q + 1];
    }
  }

  /** After deleting slot at, every later entry moves down one slot. */
  lemma DeleteShift(selected: seq<int>, at: nat, rest: seq<int>)
    requires at < |selected| && rest == selected[..at] + selected[at + 1..]
    ensures |rest| == |selected| - 1
    ensures forall p :: 0 <= p < |rest| ==> rest[p] == selected[if p < at then p else p + 1]
    ensures forall x :: x in rest ==> x in selected
  {
  }

  /** Inserts h after every entry not above it, found by right bisection. */
  method InsertSorted(rest: seq<int>, h: int) returns (result: seq<int>)
    requires StrictlyAscending(rest) && h !in rest
    ensures StrictlyAscending(result)
    ensures |result| == |rest| + 1
    ensures forall x :: x in result <==> x in rest || x == h
  {
    var lo, hi := 0, |rest|;
    while lo < hi
      invariant 0 <= lo <= hi <= |rest|
      invariant forall p :: 0 <= p < lo ==> rest[p] <= h
      invariant forall p :: hi <= p < |rest| ==> rest[p] > h
    {
      var mid := (lo + hi) / 2;
      if h < rest[mid] {
        hi := mid;
      } else {
        lo := mid + 1;
      }
    }
    result := rest[..lo] + [h] + rest[lo..];
    InsertFacts(rest, h, lo, result);
  }

  lemma InsertFacts(rest: seq<int>, h: int, lo: nat, result: seq<int>)
    requires StrictlyAscending(rest) && h !in rest && lo <= |rest|
    requires forall p :: 0 <= p < lo ==> rest[p] <= h
    requires forall p :: lo <= p < |rest| ==> rest[p] > h
    requires result == rest[..lo] + [h] + rest[lo..]
    ensures StrictlyAscending(result)
    ensures forall x :: x in result <==> x in rest || x == h
  {
    assert rest == rest[..lo] + rest[lo..];
    forall p, q | 0 <= p < q < |result| ensures result[p] < result[q] {
      if q < lo {
        assert result[p] == rest[p] && result[q] == rest[q];
      } else if p > lo {
        assert result[p] == rest[p - 1] && result[q] == rest[q - 1];
      } else if p == lo {
        assert result[q] == rest[q - 1];
      } else if q == lo {
        assert result[p] == rest[p];
      } else {
        assert result[p] == rest[p] && result[q] == rest[q - 1];
      }
    }
  }
}
