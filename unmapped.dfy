/** The reduction step of the AGORAS medoid sampler: every point of an earlier
    sample u picks its nearest point in the next sample v, and only the points
    of v that were picked by someone survive, in their original order. */
module Agoras {
  import opened Basics

  /** The distance the reduction uses: 0 between a point and itself, the
      caller's distance otherwise. */
  function D(dist: (int, int) -> real, x: int, y: int): real {
    if x == y then 0.0 else dist(x, y)
  }

  /** Position of the first point of v[..m] that is nearest to x. */
  function NearestIn(dist: (int, int) -> real, x: int, v: seq<int>, m: nat): (k: nat)
    requires 0 < m <= |v|
    ensures k < m
  {
    if m == 1 then 0
    else
      var best := NearestIn(dist, x, v, m - 1);
      if D(dist, x, v[m - 1]) < D(dist, x, v[best]) then m - 1 else best
  }

  /** NearestIn is nearest: no point of v[..m] is closer to x, and every point
      before it is strictly farther, so ties go to the first. */
  lemma {:induction false} NearestInLeast(dist: (int, int) -> real, x: int, v: seq<int>, m: nat)
    requires 0 < m <= |v|
    ensures var k := NearestIn(dist, x, v, m);
      && (forall i :: 0 <= i < m ==> D(dist, x, v[k]) <= D(dist, x, v[i]))
      && (forall i :: 0 <= i < k ==> D(dist, x, v[i]) > D(dist, x, v[k]))
  {
    if m > 1 {
      NearestInLeast(dist, x, v, m - 1);
    }
  }

  /** The flags after the points of u have each marked their nearest point of v. */
  function Marks(dist: (int, int) -> real, u: seq<int>, v: seq<int>): (marks: seq<bool>)
    requires u != [] ==> v != []
    ensures |marks| == |v|
  {
    if u == [] then seq(|v|, _ => false)
    else Marks(dist, u[..|u| - 1], v)[NearestIn(dist, u[|u| - 1], v, |v|) := true]
  }

  /** The points of v whose flag is set, in the order of v. */
  function Keep(v: seq<int>, marks: seq<bool>): seq<int>
    requires |marks| == |v|
  {
    if v == [] then []
    else Keep(v[..|v| - 1], marks[..|v| - 1]) + (if marks[|v| - 1] then [v[|v| - 1]] else [])
  }

  function CountTrue(marks: seq<bool>): nat {
    if marks == [] then 0
    else CountTrue(marks[..|marks| - 1]) + (if marks[|marks| - 1] then 1 else 0)
  }

  /** r is obtained from v by deleting some elements: an order-preserving subsequence. */
  predicate IsSubsequence(r: seq<int>, v: seq<int>) {
    if r == [] then true
    else if v == [] then false
    else if r[|r| - 1] == v[|v| - 1] then IsSubsequence(r[..|r| - 1], v[..|v| - 1])
    else IsSubsequence(r, v[..|v| - 1])
  }

  /** Maps each point of u to its nearest point of v and returns v without
      the points nobody was mapped to. A non-empty u with an empty v has no
      nearest point to mark, so the source fails there; the precondition
      rules that call out. */
  method Unmapped(u: seq<int>, v: seq<int>, dist: (int, int) -> real) returns (r: seq<int>)
    requires u != [] ==> v != []
    ensures r == Keep(v, Marks(dist, u, v))
    ensures IsSubsequence(r, v)
    ensures |r| <= |u| && |r| <= |v|
    ensures u != [] ==> r != []
  {
    var mapped := new bool[|v|](_ => false);
    for p := 0 to |u|
      invariant mapped[..] == Marks(dist, u[..p], v)
    {
      var minI := Nearest(u[p], v, dist);
      assert u[..p + 1][..p] == u[..p];
      assert Marks(dist, u[..p + 1], v) == Marks(dist, u[..p], v)[minI := true];
      mapped[minI] := true;
    }
    assert u[..|u|] == u;
    r := KeepMarked(v, mapped);
    KeepIsSubsequence(v, mapped[..]);
    KeepLength(v, mapped[..]);
    MarksCount(dist, u, v);
    CountTrueBound(mapped[..]);
  }

  /** The closing list comprehension of Unmapped: the points of v whose flag
      is set. */
  method KeepMarked(v: seq<int>, mapped: array<bool>) returns (r: seq<int>)
    requires mapped.Length == |v|
    ensures r == Keep(v, mapped[..])
  {
    r := [];
    for i := 0 to |v|
      invariant r == Keep(v[..i], mapped[..i])
    {
      assert v[..i + 1][..i] == v[..i] && mapped[..i + 1][..i] == mapped[..i];
      if mapped[i] {
        r := r + [v[i]];
      }
    }
    assert v[..|v|] == v && mapped[..|v|] == mapped[..];
  }

  /** The inner scan of Unmapped: the first point of v nearest to uu. */
  method Nearest(uu: int, v: seq<int>, dist: (int, int) -> real) returns (minI: nat)
    requires v != []
    ensures minI == NearestIn(dist, uu, v, |v|)
  {
    var minD: Option<real> := None;
    minI := 0;
    for i := 0 to |v|
      invariant minD.None? <==> i == 0
      invariant i > 0 ==> minI == NearestIn(dist, uu, v, i) && minD == Some(D(dist, uu, v[minI]))
    {
      var d := if uu == v[i] then 0.0 else dist(uu, v[i]);
      if minD.None? || d < minD.value {
        minD := Some(d);
        minI := i;
      }
    }
  }

  /** A flag is set exactly when some point of u has that point of v as its
      nearest. */
  lemma {:induction false} MarksMeaning(dist: (int, int) -> real, u: seq<int>, v: seq<int>, i: nat)
    requires u != [] ==> v != []
    requires i < |v|
    ensures Marks(dist, u, v)[i] <==> exists p :: 0 <= p < |u| && NearestIn(dist, u[p], v, |v|) == i
  {
    if u != [] {
      var w, last := u[..|u| - 1], |u| - 1;
      MarksMeaning(dist, w, v, i);
      assert Marks(dist, u, v)[i] == (i == NearestIn(dist, u[last], v, |v|) || Marks(dist, w, v)[i]);
      if Marks(dist, u, v)[i] {
        if i == NearestIn(dist, u[last], v, |v|) {
          assert 0 <= last < |u|;
        } else {
          var p :| 0 <= p < |w| && NearestIn(dist, w[p], v, |v|) == i;
          assert u[p] == w[p];
        }
      } else {
        forall p | 0 <= p < |u| ensures NearestIn(dist, u[p], v, |v|) != i {
          if p < last {
            assert u[p] == w[p];
          }
        }
      }
    }
  }

  lemma {:induction false} KeepIsSubsequence(v: seq<int>, marks: seq<bool>)
    requires |marks| == |v|
    ensures IsSubsequence(Keep(v, marks), v)
  {
    if v != [] {
      var n := |v| - 1;
      KeepIsSubsequence(v[..n], marks[..n]);
      if !marks[n] {
        assert Keep(v, marks) == Keep(v[..n], marks[..n]);
        SubsequenceExtend(Keep(v[..n], marks[..n]), v[..n], v[n]);
        assert v[..n] + [v[n]] == v;
      } else {
        var r := Keep(v, marks);
        assert r[..|r| - 1] == Keep(v[..n], marks[..n]);
      }
    }
  }

  /** Appending to the longer list keeps a subsequence a subsequence. */
  lemma {:induction false} SubsequenceExtend(r: seq<int>, v: seq<int>, x: int)
    requires IsSubsequence(r, v)
    ensures IsSubsequence(r, v + [x])
    decreases |v|, 1
  {
    if r != [] {
      var w := v + [x];
      assert w[..|w| - 1] == v;
      if r[|r| - 1] == x {
        SubsequencePrefix(r, v);
      }
    }
  }

  /** Dropping the last element of a subsequence keeps it a subsequence. */
  lemma {:induction false} SubsequencePrefix(r: seq<int>, v: seq<int>)
    requires r != [] && IsSubsequence(r, v)
    ensures IsSubsequence(r[..|r| - 1], v)
    decreases |v|, 0
  {
    var s := r[..|r| - 1];
    if s != [] {
      var w := v[..|v| - 1];
      if r[|r| - 1] == v[|v| - 1] {
        SubsequenceExtend(s, w, v[|v| - 1]);
        assert w + [v[|v| - 1]] == v;
      } else {
        SubsequencePrefix(r, w);
        SubsequenceExtend(s, w, v[|v| - 1]);
        assert w + [v[|v| - 1]] == v;
      }
    }
  }

  lemma {:induction false} KeepLength(v: seq<int>, marks: seq<bool>)
    requires |marks| == |v|
    ensures |Keep(v, marks)| == CountTrue(marks)
  {
    if v != [] {
      KeepLength(v[..|v| - 1], marks[..|v| - 1]);
    }
  }

  lemma {:induction false} CountTrueBound(marks: seq<bool>)
    ensures CountTrue(marks) <= |marks|
  {
    if marks != [] {
      CountTrueBound(marks[..|marks| - 1]);
    }
  }

  /** Setting one flag raises the count by at most one, and leaves at least one set. */
  lemma {:induction false} CountTrueSet(marks: seq<bool>, k: nat)
    requires k < |marks|
    ensures CountTrue(marks) <= CountTrue(marks[k := true]) <= CountTrue(marks) + 1
    ensures CountTrue(marks[k := true]) >= 1
  {
    var n := |marks| - 1;
    var m := marks[k := true];
    if k < n {
      assert m[..n] == marks[..n][k := true];
      CountTrueSet(marks[..n], k);
    } else {
      assert m[..n] == marks[..n];
    }
  }

  /** At most one flag per point of u, and at least one when u is non-empty. */
  lemma {:induction false} MarksCount(dist: (int, int) -> real, u: seq<int>, v: seq<int>)
    requires u != [] ==> v != []
    ensures CountTrue(Marks(dist, u, v)) <= |u|
    ensures u != [] ==> CountTrue(Marks(dist, u, v)) >= 1
  {
    if u == [] {
      AllFalseCount(|v|);
    } else {
      var w := u[..|u| - 1];
      MarksCount(dist, w, v);
      CountTrueSet(Marks(dist, w, v), NearestIn(dist, u[|u| - 1], v, |v|));
    }
  }

  lemma {:induction false} AllFalseCount(n: nat)
    ensures CountTrue(seq(n, _ => false)) == 0
  {
    if n > 0 {
      assert seq(n, _ => false)[..n - 1] == seq(n - 1, _ => false);
      AllFalseCount(n - 1);
    }
  }
}
