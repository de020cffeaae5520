/** The small helpers at the top of the clustering module: the minimum of a
    possibly empty stream, the per-point cluster labelling, and the exact
    comparison of two ratios. */
module Helpers {
  import opened Basics

  /** Minimum of a stream of distances, None when the stream is empty. */
  method RobustMin(xs: seq<real>) returns (minimum: Option<real>)
    ensures minimum == None <==> xs == []
    ensures minimum.Some? ==> minimum.value in xs
    ensures minimum.Some? ==> forall x :: x in xs ==> minimum.value <= x
  {
    minimum := None;
    for p := 0 to |xs|
      invariant minimum == None <==> p == 0
      invariant minimum.Some? ==> minimum.value in xs[..p]
      invariant minimum.Some? ==> forall q :: 0 <= q < p ==> minimum.value <= xs[q]
    {
      if minimum.None? || xs[p] < minimum.value {
        minimum := Some(xs[p]);
      }
    }
    assert xs[..|xs|] == xs;
  }

  /** The 1-based position of the last cluster that contains x, or 0 when no
      cluster does: the label that filling the labels cluster by cluster
      leaves behind for x. */
  function Label(clusters: seq<seq<nat>>, x: nat): nat
  {
    if clusters == [] then 0
    else if x in clusters[|clusters| - 1] then |clusters|
    else Label(clusters[..|clusters| - 1], x)
  }

  /** Labels every point 0 .. n-1 with the 1-based number of its cluster;
      points in no cluster keep the label 0. */
  method Components(clusters: seq<seq<nat>>, n: nat) returns (components: seq<nat>)
    requires forall c, x :: 0 <= c < |clusters| && x in clusters[c] ==> x < n
    ensures |components| == n
    ensures forall x :: 0 <= x < n ==> components[x] == Label(clusters, x)
  {
    var labels := new nat[n](_ => 0);
    for c := 0 to |clusters|
      invariant forall x :: 0 <= x < n ==> labels[x] == Label(clusters[..c], x)
    {
      var members := clusters[c];
      assert clusters[..c + 1][..c] == clusters[..c];
      for m := 0 to |members|
        invariant forall x :: 0 <= x < n ==>
          labels[x] == if x in members[..m] then c + 1 else Label(clusters[..c], x)
      {
        assert members[m] in clusters[c];
        labels[members[m]] := c + 1;
        assert members[..m + 1] == members[..m] + [members[m]];
      }
      assert members[..|members|] == members;
    }
    assert clusters[..|clusters|] == clusters;
    components := labels[..];
  }

  /** With clusters that share no point, every member of the c-th cluster
      (0-based) is labelled c + 1. */
  lemma {:induction false} LabelOfMember(clusters: seq<seq<nat>>, c: nat, x: nat)
    requires forall a, b :: 0 <= a < b < |clusters| ==> forall y :: y in clusters[a] ==> y !in clusters[b]
    requires c < |clusters| && x in clusters[c]
    ensures Label(clusters, x) == c + 1
  {
    var last := |clusters| - 1;
    if c < last {
      assert x !in clusters[last];
      LabelOfMember(clusters[..last], c, x);
    }
  }

  /** A point is labelled 0 exactly when it lies in no cluster. */
  lemma {:induction false} LabelZero(clusters: seq<seq<nat>>, x: nat)
    ensures Label(clusters, x) == 0 <==> forall c :: 0 <= c < |clusters| ==> x !in clusters[c]
  {
    if clusters != [] {
      var last := |clusters| - 1;
      LabelZero(clusters[..last], x);
      assert forall c :: 0 <= c < last ==> clusters[..last][c] == clusters[c];
    }
  }

  /** Whether a.0 / a.1 > b.0 / b.1, decided by cross-multiplication so that
      no division happens. */
  function RatioBiggerThan(a: (real, real), b: (real, real)): (bigger: bool)
    ensures a.1 > 0.0 && b.1 > 0.0 ==> (bigger <==> a.0 / a.1 > b.0 / b.1)
    ensures a.1 == 0.0 && b.1 > 0.0 ==> (bigger <==> a.0 > 0.0)
  {
    a.0 * b.1 > b.0 * a.1
  }
}
