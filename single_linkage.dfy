/** What agglomerative single-linkage clustering computes, stated without
    the heap that computes it: the run of closest-pair merges that starts
    from every point on its own, and the state of that run whose Dunn index
    (closest linkage over largest diameter) is best. */
module SingleLinkage {
  import opened Basics
  import opened PairIndex
  import opened Linkage
  import Helpers

  // ---------------------------------------------------------------------------
  // The closest pair

  /** (i, j), i < j, is the pair of live clusters that merges next in the
      slots cl: no pair of live clusters has a smaller single linkage, and a
      pair with the same linkage has a later table slot. The heap orders
      its entries by distance and then by slot, which makes the choice
      unique. */
  ghost predicate ClosestLive(matrix: seq<real>, n: nat, cl: seq<seq<nat>>, i: nat, j: nat)
    requires |matrix| == Triangle(n) && Slots(cl, n)
  {
    && i < j < n && cl[i] != [] && cl[j] != []
    && forall c, r :: 0 <= r < c < n && cl[c] != [] && cl[r] != [] ==>
         || MinCross(matrix, n, cl[j], cl[i]) < MinCross(matrix, n, cl[c], cl[r])
         || (MinCross(matrix, n, cl[j], cl[i]) == MinCross(matrix, n, cl[c], cl[r]) && Index(j, i) <= Index(c, r))
  }

  /** There is at most one closest pair. */
  lemma ClosestUnique(matrix: seq<real>, n: nat, cl: seq<seq<nat>>, i: nat, j: nat, i': nat, j': nat)
    requires |matrix| == Triangle(n) && Slots(cl, n)
    requires ClosestLive(matrix, n, cl, i, j) && ClosestLive(matrix, n, cl, i', j')
    ensures i == i' && j == j'
  {
    var d := MinCross(matrix, n, cl[j], cl[i]);
    var d' := MinCross(matrix, n, cl[j'], cl[i']);
    assert d == d' && Index(j, i) == Index(j', i');
    IndexInjective(j, i, j', i');
  }

  // ---------------------------------------------------------------------------
  // The run

  /** A single-linkage run: states[0] has every point on its own, pairs[t]
      is the closest pair of states[t], and merging it (the later slot into
      the earlier) gives states[t + 1]. When pairs is as long as states, the
      closest pair of the last state was found but not merged. */
  ghost predicate Run(matrix: seq<real>, n: nat, states: seq<seq<seq<nat>>>, pairs: seq<(nat, nat)>) {
    && |matrix| == Triangle(n)
    && states != [] && states[0] == seq(n, x => [x])
    && (|pairs| == |states| - 1 || |pairs| == |states|)
    && (forall t :: 0 <= t < |states| ==> Slots(states[t], n))
    && forall t :: 0 <= t < |pairs| ==>
         && ClosestLive(matrix, n, states[t], pairs[t].0, pairs[t].1)
         && (t + 1 < |states| ==> states[t + 1] == Merge(states[t], pairs[t].0, pairs[t].1))
  }

  /** Round t of a run: the closest pair of states[t] and, unless it is
      the last state, the merge that gives states[t + 1]. */
  lemma RunAt(matrix: seq<real>, n: nat, states: seq<seq<seq<nat>>>, pairs: seq<(nat, nat)>, t: nat)
    requires Run(matrix, n, states, pairs) && t < |pairs|
    ensures t < |states| && Slots(states[t], n)
    ensures ClosestLive(matrix, n, states[t], pairs[t].0, pairs[t].1)
    ensures t + 1 < |states| ==> states[t + 1] == Merge(states[t], pairs[t].0, pairs[t].1)
  {
  }

  /** Two runs agree as far as both go: the run is determined by the
      distance table. */
  lemma {:induction false} RunUnique(matrix: seq<real>, n: nat, states: seq<seq<seq<nat>>>, pairs: seq<(nat, nat)>,
                                     states': seq<seq<seq<nat>>>, pairs': seq<(nat, nat)>, t: nat)
    requires Run(matrix, n, states, pairs) && Run(matrix, n, states', pairs')
    requires t < |states| && t < |states'|
    ensures states[t] == states'[t]
    ensures t < |pairs| && t < |pairs'| ==> pairs[t] == pairs'[t]
  {
    if t > 0 {
      var s := t - 1;
      RunUnique(matrix, n, states, pairs, states', pairs', s);
      RunAt(matrix, n, states, pairs, s);
      RunAt(matrix, n, states', pairs', s);
      ClosestUnique(matrix, n, states[s], pairs[s].0, pairs[s].1, pairs'[s].0, pairs'[s].1);
    }
    if t < |pairs| && t < |pairs'| {
      RunAt(matrix, n, states, pairs, t);
      RunAt(matrix, n, states', pairs', t);
      ClosestUnique(matrix, n, states[t], pairs[t].0, pairs[t].1, pairs'[t].0, pairs'[t].1);
    }
  }

  /** The single linkage of the closest pair p of slots cl. */
  ghost function Gap(matrix: seq<real>, n: nat, cl: seq<seq<nat>>, p: (nat, nat)): real
    requires |matrix| == Triangle(n) && Slots(cl, n) && p.0 < p.1 < n && cl[p.0] != [] && cl[p.1] != []
  {
    MinCross(matrix, n, cl[p.1], cl[p.0])
  }

  // ---------------------------------------------------------------------------
  // The Dunn index

  /** The largest diameter among the first m slots; empty slots and single
      points count as 0. */
  ghost function LargestDiameter(matrix: seq<real>, n: nat, cl: seq<seq<nat>>, m: nat): real
    requires |matrix| == Triangle(n) && Slots(cl, n) && m <= n
  {
    if m == 0 then 0.0 else Max(LargestDiameter(matrix, n, cl, m - 1), Diameter(matrix, n, cl[m - 1]))
  }

  /** LargestDiameter is non-negative, bounds the diameter of every slot and
      is 0 or the diameter of some non-empty slot. */
  lemma {:induction false} LargestDiameterBounds(matrix: seq<real>, n: nat, cl: seq<seq<nat>>, m: nat)
    requires |matrix| == Triangle(n) && Slots(cl, n) && m <= n
    ensures LargestDiameter(matrix, n, cl, m) >= 0.0
    ensures forall c :: 0 <= c < m ==> Diameter(matrix, n, cl[c]) <= LargestDiameter(matrix, n, cl, m)
    ensures LargestDiameter(matrix, n, cl, m) == 0.0 ||
      exists c :: 0 <= c < m && cl[c] != [] && Diameter(matrix, n, cl[c]) == LargestDiameter(matrix, n, cl, m)
  {
    if m > 0 {
      LargestDiameterBounds(matrix, n, cl, m - 1);
      DiameterGreatest(matrix, n, cl[m - 1]);
      var top := LargestDiameter(matrix, n, cl, m);
      if top != 0.0 && top != LargestDiameter(matrix, n, cl, m - 1) {
        assert Diameter(matrix, n, cl[m - 1]) == top;
        assert cl[m - 1] != [];
      }
    }
  }

  /** The Dunn index of the t-th judged state of a run: the linkage of its
      closest pair and the largest diameter of its clusters. */
  ghost predicate DunnIndices(matrix: seq<real>, n: nat, states: seq<seq<seq<nat>>>, pairs: seq<(nat, nat)>,
                              dunn: seq<(real, real)>)
    requires Run(matrix, n, states, pairs)
  {
    && |dunn| == |pairs|
    && forall t :: 0 <= t < |pairs| ==>
         dunn[t] == (Gap(matrix, n, states[t], pairs[t]), LargestDiameter(matrix, n, states[t], n))
  }

  /** b is the judged state the criterion returns: among the states whose
      largest diameter is positive, the first of largest ratio gap / diameter;
      when no diameter is positive, the last judged state. */
  predicate BestDunn(dunn: seq<(real, real)>, b: nat) {
    && b < |dunn|
    && (forall u :: 0 <= u < |dunn| && dunn[u].1 > 0.0 ==>
          dunn[b].1 > 0.0 && dunn[u].0 / dunn[u].1 <= dunn[b].0 / dunn[b].1)
    && (forall u :: 0 <= u < b && dunn[u].1 > 0.0 ==>
          dunn[b].1 > 0.0 && dunn[u].0 / dunn[u].1 < dunn[b].0 / dunn[b].1)
    && (dunn[b].1 <= 0.0 ==> b == |dunn| - 1)
  }

  /** The best state is unique. */
  lemma BestDunnUnique(dunn: seq<(real, real)>, b: nat, b': nat)
    requires BestDunn(dunn, b) && BestDunn(dunn, b')
    ensures b == b'
  {
  }

  /** Judging the first state makes it the best. */
  lemma BestFirst(x: (real, real))
    ensures BestDunn([x], 0)
  {
  }

  /** While no judged state has a positive largest diameter, the state
      judged next is the best. */
  lemma BestAfterFlat(dunn: seq<(real, real)>, b: nat, x: (real, real))
    requires BestDunn(dunn, b) && dunn[b].1 <= 0.0
    ensures BestDunn(dunn + [x], |dunn|)
  {
    var d := dunn + [x];
    forall u | 0 <= u < |dunn| ensures d[u].1 <= 0.0 {
      assert d[u] == dunn[u];
    }
  }

  /** A state of strictly larger ratio than the best becomes the best. */
  lemma BestAfterBetter(dunn: seq<(real, real)>, b: nat, x: (real, real))
    requires BestDunn(dunn, b) && dunn[b].1 > 0.0 && x.1 > 0.0
    requires x.0 / x.1 > dunn[b].0 / dunn[b].1
    ensures BestDunn(dunn + [x], |dunn|)
  {
    var d := dunn + [x];
    var top := x.0 / x.1;
    forall u | 0 <= u < |dunn| && d[u].1 > 0.0 ensures d[u].0 / d[u].1 < top {
      assert d[u] == dunn[u];
    }
  }

  /** A state of no larger ratio leaves the best where it is. */
  lemma BestAfterWorse(dunn: seq<(real, real)>, b: nat, x: (real, real))
    requires BestDunn(dunn, b) && dunn[b].1 > 0.0 && x.1 > 0.0
    requires x.0 / x.1 <= dunn[b].0 / dunn[b].1
    ensures BestDunn(dunn + [x], b)
  {
    var d := dunn + [x];
    assert d[b] == dunn[b];
    forall u | 0 <= u < |d| && d[u].1 > 0.0 ensures d[u].0 / d[u].1 <= d[b].0 / d[b].1 {
      if u < |dunn| {
        assert d[u] == dunn[u];
      }
    }
    forall u | 0 <= u < b && d[u].1 > 0.0 ensures d[u].0 / d[u].1 < d[b].0 / d[b].1 {
      assert d[u] == dunn[u];
    }
  }

  /** What the criterion remembers after judging the states with indices
      dunn: nothing before the first state; afterwards the live clusters of
      the best state, and its index when its largest diameter is positive. */
  ghost predicate Remembered(states: seq<seq<seq<nat>>>, dunn: seq<(real, real)>,
                             bestDunn: Option<(real, real)>, bestPartition: Option<seq<seq<nat>>>)
  {
    && (dunn == [] ==> bestDunn == None && bestPartition == None)
    && (dunn != [] ==> exists b: nat :: BestDunn(dunn, b) && b < |states| && bestPartition == Some(Live(states[b]))
                                   && bestDunn == if dunn[b].1 > 0.0 then Some(dunn[b]) else None)
  }

  /** The criterion keeps a partition exactly when it has judged a state. */
  lemma RememberedSome(states: seq<seq<seq<nat>>>, dunn: seq<(real, real)>,
                       bestDunn: Option<(real, real)>, bestPartition: Option<seq<seq<nat>>>)
    requires Remembered(states, dunn, bestDunn, bestPartition)
    ensures bestPartition.Some? <==> dunn != []
  {
  }

  /** What the criterion remembers survives further states of the run. */
  lemma RememberedLonger(states: seq<seq<seq<nat>>>, more: seq<seq<seq<nat>>>, dunn: seq<(real, real)>,
                         bestDunn: Option<(real, real)>, bestPartition: Option<seq<seq<nat>>>)
    requires Remembered(states, dunn, bestDunn, bestPartition)
    ensures Remembered(states + more, dunn, bestDunn, bestPartition)
  {
    if dunn != [] {
      var b: nat :| BestDunn(dunn, b) && b < |states| && bestPartition == Some(Live(states[b]))
                    && bestDunn == if dunn[b].1 > 0.0 then Some(dunn[b]) else None;
      assert (states + more)[b] == states[b];
    }
  }

  /** Judging one more state with the save rule of the criterion keeps what
      it remembers the best of the judged states, provided the largest
      diameter has not shrunk below the remembered one. */
  lemma RememberStep(states: seq<seq<seq<nat>>>, dunn: seq<(real, real)>, x: (real, real),
                     bestDunn: Option<(real, real)>, bestPartition: Option<seq<seq<nat>>>,
                     bestDunn': Option<(real, real)>, bestPartition': Option<seq<seq<nat>>>)
    requires |dunn| < |states| && Remembered(states, dunn, bestDunn, bestPartition)
    requires bestDunn.Some? ==> 0.0 < bestDunn.value.1 <= x.1
    requires
      var saved := bestDunn.None? || Helpers.RatioBiggerThan(x, bestDunn.value);
      && (saved ==> bestPartition' == Some(Live(states[|dunn|])))
      && (saved && x.1 > 0.0 ==> bestDunn' == Some(x))
      && (saved && x.1 <= 0.0 ==> bestDunn' == bestDunn)
      && (!saved ==> bestPartition' == bestPartition && bestDunn' == bestDunn)
    ensures Remembered(states, dunn + [x], bestDunn', bestPartition')
  {
    var dunn' := dunn + [x];
    if dunn == [] {
      BestFirst(x);
      assert dunn' == [x];
    } else {
      var b: nat :| BestDunn(dunn, b) && b < |states| && bestPartition == Some(Live(states[b]))
                    && bestDunn == if dunn[b].1 > 0.0 then Some(dunn[b]) else None;
      if bestDunn.None? {
        BestAfterFlat(dunn, b, x);
      } else if Helpers.RatioBiggerThan(x, bestDunn.value) {
        BestAfterBetter(dunn, b, x);
      } else {
        BestAfterWorse(dunn, b, x);
        assert dunn'[b] == dunn[b];
      }
    }
  }

  // ---------------------------------------------------------------------------
  // Where the run ends

  /** The merge limit stops the merging at distance d. */
  predicate Exceeds(mergeLimit: Option<real>, d: real) {
    mergeLimit.Some? && d > mergeLimit.value
  }

  /** A run under the automatic target: every judged pair within the merge
      limit was merged, the first one beyond it was not, and a run that was
      never refused merged down to a single cluster. */
  ghost predicate Stopped(mergeLimit: Option<real>, states: seq<seq<seq<nat>>>, dunn: seq<(real, real)>) {
    && (forall t :: 0 <= t < |dunn| ==> (t + 1 < |states| <==> !Exceeds(mergeLimit, dunn[t].0)))
    && (|dunn| == |states| - 1 ==> |Live(states[|states| - 1])| <= 1)
  }
}
