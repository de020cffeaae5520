/** The automatic stopping rule of agglomerative clustering: before every
    merge the current partition is remembered if its Dunn index (smallest
    linkage between clusters over largest cluster diameter) beats the best
    one seen, and merging stops early once the linkage exceeds an optional
    limit. */
module Dunn {
  import opened Basics
  import opened PairIndex
  import opened Linkage
  import Helpers

  /** Each live slot has its diameter recorded, each merged-away slot None. */
  ghost predicate Recorded(matrix: seq<real>, n: nat, cl: seq<seq<nat>>, diameters: seq<Option<real>>)
    requires |matrix| == Triangle(n) && Slots(cl, n)
  {
    && |diameters| == n
    && forall c :: 0 <= c < n ==>
         diameters[c] == if cl[c] == [] then None else Some(Diameter(matrix, n, cl[c]))
  }

  /** maxDiameter is the largest diameter of a live cluster, or 0 while every
      cluster is a single point. */
  ghost predicate Largest(matrix: seq<real>, n: nat, cl: seq<seq<nat>>, maxDiameter: real)
    requires |matrix| == Triangle(n) && Slots(cl, n)
  {
    && (forall c :: 0 <= c < n && cl[c] != [] ==> Diameter(matrix, n, cl[c]) <= maxDiameter)
    && (maxDiameter == 0.0 ||
          exists c :: 0 <= c < n && cl[c] != [] && Diameter(matrix, n, cl[c]) == maxDiameter)
  }

  /** The diameter bookkeeping agrees with the cluster slots cl. */
  ghost predicate DiametersOf(matrix: seq<real>, n: nat, cl: seq<seq<nat>>,
                              diameters: seq<Option<real>>, maxDiameter: real)
  {
    && |matrix| == Triangle(n)
    && Slots(cl, n)
    && Recorded(matrix, n, cl, diameters)
    && Largest(matrix, n, cl, maxDiameter)
  }

  /** The diameter the criterion records for the merge of slots i and j. */
  function MergedDiameter(matrix: seq<real>, n: nat, cl: seq<seq<nat>>,
                          diameters: seq<Option<real>>, i: nat, j: nat): (merged: real)
    requires |matrix| == Triangle(n) && Slots(cl, n) && Recorded(matrix, n, cl, diameters)
    requires i < j < n && cl[i] != [] && cl[j] != []
    ensures Points(cl[i] + cl[j], n)
    ensures merged == Diameter(matrix, n, cl[i] + cl[j])
    ensures merged >= Diameter(matrix, n, cl[i]) && merged >= Diameter(matrix, n, cl[j])
  {
    assert Merge(cl, i, j)[i] == cl[i] + cl[j];
    MergeSlots(cl, n, i, j);
    DiameterJoin(matrix, n, cl[i], cl[j]);
    Max(Max(diameters[i].value, diameters[j].value), CrossMax(matrix, n, cl[i], cl[j]))
  }

  lemma MergeRecorded(matrix: seq<real>, n: nat, cl: seq<seq<nat>>,
                      diameters: seq<Option<real>>, i: nat, j: nat)
    requires |matrix| == Triangle(n) && Slots(cl, n) && Recorded(matrix, n, cl, diameters)
    requires i < j < n && cl[i] != [] && cl[j] != []
    ensures Slots(Merge(cl, i, j), n)
    ensures Recorded(matrix, n, Merge(cl, i, j),
      diameters[i := Some(MergedDiameter(matrix, n, cl, diameters, i, j))][j := None])
  {
    MergeSlots(cl, n, i, j);
  }

  lemma MergeLargest(matrix: seq<real>, n: nat, cl: seq<seq<nat>>, maxDiameter: real,
                     i: nat, j: nat, merged: real)
    requires |matrix| == Triangle(n) && Slots(cl, n) && Largest(matrix, n, cl, maxDiameter)
    requires i < j < n && cl[i] != [] && cl[j] != [] && Slots(Merge(cl, i, j), n)
    requires merged == Diameter(matrix, n, cl[i] + cl[j])
    requires merged >= Diameter(matrix, n, cl[i]) && merged >= Diameter(matrix, n, cl[j])
    ensures Largest(matrix, n, Merge(cl, i, j), Max(maxDiameter, merged))
  {
    var m := Merge(cl, i, j);
    var mx := Max(maxDiameter, merged);
    forall c | 0 <= c < n && m[c] != [] ensures Diameter(matrix, n, m[c]) <= mx {
      if c != i {
        assert m[c] == cl[c];
      }
    }
    if mx != 0.0 && mx != merged {
      var c :| 0 <= c < n && cl[c] != [] && Diameter(matrix, n, cl[c]) == maxDiameter;
      assert c != i && c != j;
      assert m[c] == cl[c];
    } else if mx != 0.0 {
      assert m[i] != [] && Diameter(matrix, n, m[i]) == mx;
    }
  }

  class DunnMergeCriterion {
    const matrix: seq<real>
    const n: nat
    const mergeLimit: Option<real>
    /** The diameter of every cluster slot, None once the slot is merged away. */
    var diameters: seq<Option<real>>
    /** The largest diameter any cluster has reached. */
    var maxDiameter: real
    /** Numerator and denominator of the best Dunn index so far. */
    var bestDunn: Option<(real, real)>
    var bestPartition: Option<seq<seq<nat>>>

    /** The bookkeeping agrees with the cluster slots cl: each live slot has
        its diameter recorded, and maxDiameter is the largest of them (0 while
        every cluster is a single point). A remembered Dunn index always has a
        positive denominator. */
    ghost predicate Tracks(cl: seq<seq<nat>>)
      reads this
    {
      DiametersOf(matrix, n, cl, diameters, maxDiameter) && (bestDunn.None? || bestDunn.value.1 > 0.0)
    }

    /** Every point starts as a cluster of its own, of diameter 0. */
    constructor (matrix: seq<real>, n: nat, mergeLimit: Option<real>)
      requires |matrix| == Triangle(n)
      ensures this.matrix == matrix && this.n == n && this.mergeLimit == mergeLimit
      ensures Tracks(seq(n, x => [x]))
      ensures bestDunn == None && bestPartition == None
    {
      this.matrix := matrix;
      this.n := n;
      this.mergeLimit := mergeLimit;
      diameters := seq(n, _ => Some(0.0));
      maxDiameter := 0.0;
      bestDunn := None;
      bestPartition := None;
    }

    /** Called with the closest live pair i < j at distance dMin. Remembers
        the live clusters when their Dunn index (dMin, maxDiameter) beats the
        best one, or when none is remembered yet; the index itself is kept only
        when its denominator is positive. Then refuses the merge when dMin
        exceeds the merge limit, and otherwise records the diameter of the
        merged cluster. */
    method SaveAndMerge(cl: seq<seq<nat>>, i: nat, j: nat, dMin: real) returns (proceed: bool)
      requires Tracks(cl) && i < j < n && cl[i] != [] && cl[j] != []
      modifies this
      ensures
        var saved := old(bestDunn).None? || Helpers.RatioBiggerThan((dMin, old(maxDiameter)), old(bestDunn).value);
        && (saved ==> bestPartition == Some(Live(cl)))
        && (saved && old(maxDiameter) > 0.0 ==> bestDunn == Some((dMin, old(maxDiameter))))
        && (saved && old(maxDiameter) <= 0.0 ==> bestDunn == old(bestDunn))
        && (!saved ==> bestPartition == old(bestPartition) && bestDunn == old(bestDunn))
      ensures proceed <==> !(mergeLimit.Some? && dMin > mergeLimit.value)
      ensures proceed ==> Tracks(Merge(cl, i, j))
      ensures maxDiameter >= old(maxDiameter)
      ensures !proceed ==> Tracks(cl) && diameters == old(diameters) && maxDiameter == old(maxDiameter)
    {
      Save(cl, dMin);
      if mergeLimit.Some? && dMin > mergeLimit.value {
        return false;
      }
      RecordMerge(cl, i, j);
      proceed := true;
    }

    /** The second half of SaveAndMerge: the merged cluster's diameter is the
        largest of the two old diameters and the farthest cross pair. */
    method RecordMerge(cl: seq<seq<nat>>, i: nat, j: nat)
      requires Tracks(cl) && i < j < n && cl[i] != [] && cl[j] != []
      modifies this`diameters, this`maxDiameter
      ensures Tracks(Merge(cl, i, j))
      ensures maxDiameter >= old(maxDiameter)
    {
      var newDiameter := CrossMax(matrix, n, cl[i], cl[j]);
      var merged := Max(Max(diameters[i].value, diameters[j].value), newDiameter);
      assert merged == MergedDiameter(matrix, n, cl, diameters, i, j);
      MergeRecorded(matrix, n, cl, diameters, i, j);
      MergeLargest(matrix, n, cl, maxDiameter, i, j, merged);
      diameters := diameters[i := Some(merged)][j := None];
      maxDiameter := Max(maxDiameter, merged);
    }

    /** The first half of SaveAndMerge: remembering the live clusters. */
    method Save(cl: seq<seq<nat>>, dMin: real)
      requires Tracks(cl)
      modifies this`bestPartition, this`bestDunn
      ensures Tracks(cl)
      ensures
        var saved := old(bestDunn).None? || Helpers.RatioBiggerThan((dMin, maxDiameter), old(bestDunn).value);
        && (saved ==> bestPartition == Some(Live(cl)))
        && (saved && maxDiameter > 0.0 ==> bestDunn == Some((dMin, maxDiameter)))
        && (saved && maxDiameter <= 0.0 ==> bestDunn == old(bestDunn))
        && (!saved ==> bestPartition == old(bestPartition) && bestDunn == old(bestDunn))
    {
      var dunn := (dMin, maxDiameter);
      if bestDunn.None? || Helpers.RatioBiggerThan(dunn, bestDunn.value) {
        bestPartition := Some(Live(cl));
        if maxDiameter > 0.0 {
          bestDunn := Some(dunn);
        }
      }
    }
  }
}
