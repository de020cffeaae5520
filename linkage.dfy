/** Distances between clusters of points, read from the lower-triangular
    distance table: single linkage (the closest pair across two clusters,
    the key of the merge heap) and the complete diameter of a cluster (the
    farthest pair inside it, the denominator of the Dunn index). */
module Linkage {
  import opened Basics
  import opened PairIndex

  function Min(a: real, b: real): real {
    if a <= b then a else b
  }

  function Max(a: real, b: real): real {
    if a >= b then a else b
  }

  /** A cluster: distinct points below n. */
  predicate Points(c: seq<nat>, n: nat) {
    Distinct(c) && forall p :: 0 <= p < |c| ==> c[p] < n
  }

  predicate Disjoint(a: seq<nat>, b: seq<nat>) {
    forall x :: x in a ==> x !in b
  }

  /** The distance of two different points, looked up in the table at the
      position of the (larger, smaller) pair. */
  function Dist(matrix: seq<real>, n: nat, x: nat, y: nat): real
    requires |matrix| == Triangle(n) && x < n && y < n && x != y
  {
    var i, j := if x > y then x else y, if x > y then y else x;
    IndexInTable(n, i, j);
    matrix[Index(i, j)]
  }

  /** The distance from x to the nearest point of b. */
  function MinTo(matrix: seq<real>, n: nat, x: nat, b: seq<nat>): real
    requires |matrix| == Triangle(n) && x < n && b != []
    requires forall p :: 0 <= p < |b| ==> b[p] < n && b[p] != x
  {
    var last := b[|b| - 1];
    if |b| == 1 then Dist(matrix, n, x, last)
    else Min(MinTo(matrix, n, x, b[..|b| - 1]), Dist(matrix, n, x, last))
  }

  /** Single linkage: the distance of the closest pair with one point in
      each cluster. */
  function MinCross(matrix: seq<real>, n: nat, a: seq<nat>, b: seq<nat>): real
    requires |matrix| == Triangle(n) && a != [] && b != []
    requires Points(a, n) && Points(b, n) && Disjoint(a, b)
  {
    var last := a[|a| - 1];
    assert last in a;
    if |a| == 1 then MinTo(matrix, n, last, b)
    else Min(MinCross(matrix, n, a[..|a| - 1], b), MinTo(matrix, n, last, b))
  }

  /** The distance from x to the farthest point of b. */
  function MaxTo(matrix: seq<real>, n: nat, x: nat, b: seq<nat>): real
    requires |matrix| == Triangle(n) && x < n && b != []
    requires forall p :: 0 <= p < |b| ==> b[p] < n && b[p] != x
  {
    var last := b[|b| - 1];
    if |b| == 1 then Dist(matrix, n, x, last)
    else Max(MaxTo(matrix, n, x, b[..|b| - 1]), Dist(matrix, n, x, last))
  }

  /** The distance of the farthest pair with one point in each cluster. */
  function CrossMax(matrix: seq<real>, n: nat, a: seq<nat>, b: seq<nat>): real
    requires |matrix| == Triangle(n) && a != [] && b != []
    requires Points(a, n) && Points(b, n) && Disjoint(a, b)
  {
    var last := a[|a| - 1];
    assert last in a;
    if |a| == 1 then MaxTo(matrix, n, last, b)
    else Max(CrossMax(matrix, n, a[..|a| - 1], b), MaxTo(matrix, n, last, b))
  }

  /** The complete diameter: the largest distance inside the cluster, and 0
      for a cluster of one point. */
  function Diameter(matrix: seq<real>, n: nat, c: seq<nat>): real
    requires |matrix| == Triangle(n) && Points(c, n)
  {
    if |c| <= 1 then 0.0
    else
      var last := c[|c| - 1];
      var c' := c[..|c| - 1];
      assert forall p :: 0 <= p < |c'| ==> c'[p] != last;
      Max(Diameter(matrix, n, c'), MaxTo(matrix, n, last, c'))
  }

  /** MinTo is the least distance from x to a point of b, and is reached. */
  lemma {:induction false} MinToLeast(matrix: seq<real>, n: nat, x: nat, b: seq<nat>)
    requires |matrix| == Triangle(n) && x < n && b != []
    requires forall p :: 0 <= p < |b| ==> b[p] < n && b[p] != x
    ensures forall y :: y in b ==> MinTo(matrix, n, x, b) <= Dist(matrix, n, x, y)
    ensures exists y :: y in b && MinTo(matrix, n, x, b) == Dist(matrix, n, x, y)
  {
    var last := b[|b| - 1];
    var m := MinTo(matrix, n, x, b);
    if |b| > 1 {
      var b' := b[..|b| - 1];
      assert b == b' + [last];
      MinToLeast(matrix, n, x, b');
      if m == Dist(matrix, n, x, last) {
        assert last in b;
      } else {
        var y :| y in b' && MinTo(matrix, n, x, b') == Dist(matrix, n, x, y);
        assert y in b;
      }
      forall y | y in b ensures m <= Dist(matrix, n, x, y) {
        if y != last {
          assert y in b';
        }
      }
    } else {
      assert last in b && b == [last];
    }
  }

  /** MinCross is the least distance across the two clusters, and is reached. */
  lemma {:induction false} MinCrossLeast(matrix: seq<real>, n: nat, a: seq<nat>, b: seq<nat>)
    requires |matrix| == Triangle(n) && a != [] && b != []
    requires Points(a, n) && Points(b, n) && Disjoint(a, b)
    ensures forall x, y :: x in a && y in b ==> MinCross(matrix, n, a, b) <= Dist(matrix, n, x, y)
    ensures exists x, y :: x in a && y in b && MinCross(matrix, n, a, b) == Dist(matrix, n, x, y)
  {
    var last := a[|a| - 1];
    assert last in a;
    MinToLeast(matrix, n, last, b);
    if |a| > 1 {
      var a' := a[..|a| - 1];
      assert a == a' + [last];
      MinCrossLeast(matrix, n, a', b);
    }
  }

  /** MaxTo is the greatest distance from x to a point of b, and is reached. */
  lemma {:induction false} MaxToGreatest(matrix: seq<real>, n: nat, x: nat, b: seq<nat>)
    requires |matrix| == Triangle(n) && x < n && b != []
    requires forall p :: 0 <= p < |b| ==> b[p] < n && b[p] != x
    ensures forall y :: y in b ==> Dist(matrix, n, x, y) <= MaxTo(matrix, n, x, b)
    ensures exists y :: y in b && MaxTo(matrix, n, x, b) == Dist(matrix, n, x, y)
  {
    var last := b[|b| - 1];
    var m := MaxTo(matrix, n, x, b);
    if |b| > 1 {
      var b' := b[..|b| - 1];
      assert b == b' + [last];
      MaxToGreatest(matrix, n, x, b');
      if m == Dist(matrix, n, x, last) {
        assert last in b;
      } else {
        var y :| y in b' && MaxTo(matrix, n, x, b') == Dist(matrix, n, x, y);
        assert y in b;
      }
      forall y | y in b ensures m >= Dist(matrix, n, x, y) {
        if y != last {
          assert y in b';
        }
      }
    } else {
      assert last in b && b == [last];
    }
  }

  /** CrossMax is the greatest distance across the two clusters, and is reached. */
  lemma {:induction false} CrossMaxGreatest(matrix: seq<real>, n: nat, a: seq<nat>, b: seq<nat>)
    requires |matrix| == Triangle(n) && a != [] && b != []
    requires Points(a, n) && Points(b, n) && Disjoint(a, b)
    ensures forall x, y :: x in a && y in b ==> Dist(matrix, n, x, y) <= CrossMax(matrix, n, a, b)
    ensures exists x, y :: x in a && y in b && CrossMax(matrix, n, a, b) == Dist(matrix, n, x, y)
  {
    var last := a[|a| - 1];
    assert last in a;
    MaxToGreatest(matrix, n, last, b);
    if |a| > 1 {
      var a' := a[..|a| - 1];
      assert a == a' + [last];
      CrossMaxGreatest(matrix, n, a', b);
    }
  }

  /** The diameter is non-negative, bounds every pair of the cluster, and is
      0 or the distance of one of them. */
  lemma DiameterGreatest(matrix: seq<real>, n: nat, c: seq<nat>)
    requires |matrix| == Triangle(n) && Points(c, n)
    ensures Diameter(matrix, n, c) >= 0.0
    ensures forall x, y :: x in c && y in c && x != y ==> Dist(matrix, n, x, y) <= Diameter(matrix, n, c)
    ensures Diameter(matrix, n, c) == 0.0 ||
      exists x, y :: x in c && y in c && x != y && Diameter(matrix, n, c) == Dist(matrix, n, x, y)
  {
    DiameterBounds(matrix, n, c);
    DiameterReached(matrix, n, c);
  }

  lemma {:induction false} DiameterBounds(matrix: seq<real>, n: nat, c: seq<nat>)
    requires |matrix| == Triangle(n) && Points(c, n)
    ensures Diameter(matrix, n, c) >= 0.0
    ensures forall x, y :: x in c && y in c && x != y ==> Dist(matrix, n, x, y) <= Diameter(matrix, n, c)
  {
    if |c| > 1 {
      var last := c[|c| - 1];
      var c' := c[..|c| - 1];
      assert c == c' + [last];
      assert forall p :: 0 <= p < |c'| ==> c'[p] != last;
      DiameterBounds(matrix, n, c');
      MaxToGreatest(matrix, n, last, c');
      var d := Diameter(matrix, n, c);
      assert d == Max(Diameter(matrix, n, c'), MaxTo(matrix, n, last, c'));
      forall x, y | x in c && y in c && x != y ensures Dist(matrix, n, x, y) <= d {
        if x == last {
          assert y in c';
        } else if y == last {
          assert x in c';
          DistSymmetric(matrix, n, x, y);
        } else {
          assert x in c' && y in c';
        }
      }
    }
  }

  lemma {:induction false} DiameterReached(matrix: seq<real>, n: nat, c: seq<nat>)
    requires |matrix| == Triangle(n) && Points(c, n)
    ensures Diameter(matrix, n, c) == 0.0 ||
      exists x, y :: x in c && y in c && x != y && Diameter(matrix, n, c) == Dist(matrix, n, x, y)
  {
    if |c| > 1 {
      var last := c[|c| - 1];
      var c' := c[..|c| - 1];
      assert c == c' + [last];
      assert forall p :: 0 <= p < |c'| ==> c'[p] != last;
      DiameterReached(matrix, n, c');
      MaxToGreatest(matrix, n, last, c');
      var d := Diameter(matrix, n, c);
      assert d == Max(Diameter(matrix, n, c'), MaxTo(matrix, n, last, c'));
      if d != 0.0 {
        if d == Diameter(matrix, n, c') {
          var x, y :| x in c' && y in c' && x != y && d == Dist(matrix, n, x, y);
          assert x in c && y in c;
        } else {
          var y :| y in c' && d == Dist(matrix, n, last, y);
          assert last in c && y in c && last != y;
        }
      }
    }
  }

  lemma DistSymmetric(matrix: seq<real>, n: nat, x: nat, y: nat)
    requires |matrix| == Triangle(n) && x < n && y < n && x != y
    ensures Dist(matrix, n, x, y) == Dist(matrix, n, y, x)
  {
  }

  /** Single linkage does not depend on the order of the two clusters. */
  lemma MinCrossSymmetric(matrix: seq<real>, n: nat, a: seq<nat>, b: seq<nat>)
    requires |matrix| == Triangle(n) && a != [] && b != []
    requires Points(a, n) && Points(b, n) && Disjoint(a, b)
    ensures MinCross(matrix, n, a, b) == MinCross(matrix, n, b, a)
  {
    MinCrossLeast(matrix, n, a, b);
    MinCrossLeast(matrix, n, b, a);
    var m, m' := MinCross(matrix, n, a, b), MinCross(matrix, n, b, a);
    var x, y :| x in a && y in b && m == Dist(matrix, n, x, y);
    var y', x' :| y' in b && x' in a && m' == Dist(matrix, n, y', x');
    assert m' <= Dist(matrix, n, y, x);
    assert m <= Dist(matrix, n, x', y');
  }

  /** The single linkage of a merged cluster to a third one is the smaller of
      the two linkages. */
  lemma MinCrossJoin(matrix: seq<real>, n: nat, a: seq<nat>, a': seq<nat>, b: seq<nat>)
    requires |matrix| == Triangle(n) && a != [] && a' != [] && b != []
    requires Points(a + a', n) && Points(b, n) && Disjoint(a + a', b)
    ensures Points(a, n) && Points(a', n) && Disjoint(a, b) && Disjoint(a', b)
    ensures MinCross(matrix, n, a + a', b) == Min(MinCross(matrix, n, a, b), MinCross(matrix, n, a', b))
  {
    var c := a + a';
    assert forall p :: 0 <= p < |a| ==> a[p] == c[p];
    assert forall p :: 0 <= p < |a'| ==> a'[p] == c[|a| + p];
    MinCrossLeast(matrix, n, c, b);
    MinCrossLeast(matrix, n, a, b);
    MinCrossLeast(matrix, n, a', b);
    var m := MinCross(matrix, n, c, b);
    var m1, m2 := MinCross(matrix, n, a, b), MinCross(matrix, n, a', b);
    var x, y :| x in c && y in b && m == Dist(matrix, n, x, y);
    var x1, y1 :| x1 in a && y1 in b && m1 == Dist(matrix, n, x1, y1);
    var x2, y2 :| x2 in a' && y2 in b && m2 == Dist(matrix, n, x2, y2);
    assert x1 in c && x2 in c;
    assert m <= m1 && m <= m2;
    if x in a {
      assert m1 <= m;
    } else {
      assert m2 <= m;
    }
  }

  /** The two halves of a cluster are clusters and share no point. */
  lemma SplitPoints(n: nat, a: seq<nat>, b: seq<nat>)
    requires Points(a + b, n)
    ensures Points(a, n) && Points(b, n) && Disjoint(a, b)
    ensures forall x :: x in a + b <==> x in a || x in b
  {
    var c := a + b;
    assert forall p :: 0 <= p < |a| ==> a[p] == c[p];
    assert forall p :: 0 <= p < |b| ==> b[p] == c[|a| + p];
    forall p, q | 0 <= p < |a| && 0 <= q < |b| ensures a[p] != b[q] {
      assert c[p] == a[p] && c[|a| + q] == b[q];
    }
  }

  /** The diameter is the only non-negative bound of the pairs of a cluster
      that is 0 or the distance of one of them. */
  lemma DiameterUnique(matrix: seq<real>, n: nat, c: seq<nat>, v: real)
    requires |matrix| == Triangle(n) && Points(c, n)
    requires v >= 0.0
    requires forall x, y :: x in c && y in c && x != y ==> Dist(matrix, n, x, y) <= v
    requires v == 0.0 || exists x, y :: x in c && y in c && x != y && v == Dist(matrix, n, x, y)
    ensures v == Diameter(matrix, n, c)
  {
    DiameterGreatest(matrix, n, c);
    var d := Diameter(matrix, n, c);
    if d != 0.0 {
      var x, y :| x in c && y in c && x != y && d == Dist(matrix, n, x, y);
      assert d <= v;
    }
    if v != 0.0 {
      var x, y :| x in c && y in c && x != y && v == Dist(matrix, n, x, y);
      assert v <= d;
    }
  }

  /** The diameter of a merged cluster is the largest of the two diameters
      and the farthest pair across them. */
  lemma DiameterJoin(matrix: seq<real>, n: nat, a: seq<nat>, b: seq<nat>)
    requires |matrix| == Triangle(n) && a != [] && b != []
    requires Points(a + b, n)
    ensures Points(a, n) && Points(b, n) && Disjoint(a, b)
    ensures Diameter(matrix, n, a + b) ==
      Max(Max(Diameter(matrix, n, a), Diameter(matrix, n, b)), CrossMax(matrix, n, a, b))
  {
    SplitPoints(n, a, b);
    var c := a + b;
    DiameterGreatest(matrix, n, a);
    DiameterGreatest(matrix, n, b);
    CrossMaxGreatest(matrix, n, a, b);
    var da, db, x := Diameter(matrix, n, a), Diameter(matrix, n, b), CrossMax(matrix, n, a, b);
    var v := Max(Max(da, db), x);
    forall y, z | y in c && z in c && y != z ensures Dist(matrix, n, y, z) <= v {
      if y in b && z in a {
        assert Dist(matrix, n, y, z) == Dist(matrix, n, z, y);
      }
    }
    if v == x {
      var y, z :| y in a && z in b && x == Dist(matrix, n, y, z);
      assert y in c && z in c && y != z;
    } else if v == da && da != 0.0 {
      var y, z :| y in a && z in a && y != z && da == Dist(matrix, n, y, z);
      assert y in c && z in c;
    } else if v == db && db != 0.0 {
      var y, z :| y in b && z in b && y != z && db == Dist(matrix, n, y, z);
      assert y in c && z in c;
    }
    DiameterUnique(matrix, n, c, v);
  }

  /** The cluster slots: slot c holds a cluster of points, or [] once it
      has been merged into an earlier slot; no point is in two slots. */
  ghost predicate Slots(cl: seq<seq<nat>>, n: nat) {
    && |cl| == n
    && (forall c :: 0 <= c < n ==> Points(cl[c], n))
    && (forall c, c' :: 0 <= c < n && 0 <= c' < n && c != c' ==> Disjoint(cl[c], cl[c']))
  }

  /** Cluster j joins the end of cluster i and its slot is emptied. */
  function Merge(cl: seq<seq<nat>>, i: nat, j: nat): (m: seq<seq<nat>>)
    requires i < |cl| && j < |cl| && i != j
    ensures |m| == |cl| && m[i] == cl[i] + cl[j] && m[j] == []
    ensures forall c :: 0 <= c < |cl| && c != i && c != j ==> m[c] == cl[c]
  {
    cl[i := cl[i] + cl[j]][j := []]
  }

  /** Merging two clusters keeps the slots a set of disjoint clusters, with
      the same points overall. */
  lemma MergeSlots(cl: seq<seq<nat>>, n: nat, i: nat, j: nat)
    requires Slots(cl, n) && i < n && j < n && i != j
    ensures Slots(Merge(cl, i, j), n)
    ensures forall x :: x in cl[i] + cl[j] <==> x in cl[i] || x in cl[j]
  {
    var m := Merge(cl, i, j);
    var u := cl[i] + cl[j];
    assert forall x :: x in u <==> x in cl[i] || x in cl[j];
    assert Points(u, n) by {
      forall p, q | 0 <= p < q < |u| ensures u[p] != u[q] {
        if p < |cl[i]| && q >= |cl[i]| {
          assert u[p] in cl[i] && u[q] in cl[j];
        }
      }
    }
  }

  /** The non-empty slots in slot order. */
  function Live(cl: seq<seq<nat>>): (live: seq<seq<nat>>)
    ensures forall t :: 0 <= t < |live| ==> live[t] != [] && live[t] in cl
    ensures forall c :: 0 <= c < |cl| && cl[c] != [] ==> cl[c] in live
  {
    if cl == [] then []
    else
      var init := Live(cl[..|cl| - 1]);
      assert forall c :: 0 <= c < |cl| - 1 ==> cl[..|cl| - 1][c] == cl[c];
      init + (if cl[|cl| - 1] != [] then [cl[|cl| - 1]] else [])
  }

  /** The positions of the non-empty slots, in ascending order: slot
      LiveSlots(cl)[t] is the t-th cluster of Live(cl). */
  ghost function LiveSlots(cl: seq<seq<nat>>): (slots: seq<nat>)
    ensures |slots| == |Live(cl)|
    ensures StrictlyAscending(slots)
    ensures forall t :: 0 <= t < |slots| ==> slots[t] < |cl| && Live(cl)[t] == cl[slots[t]]
  {
    if cl == [] then []
    else
      var init := LiveSlots(cl[..|cl| - 1]);
      init + (if cl[|cl| - 1] != [] then [|cl| - 1] else [])
  }

  /** Refilling a non-empty slot keeps the number of clusters. */
  lemma {:induction false} LiveRefill(cl: seq<seq<nat>>, c: nat, v: seq<nat>)
    requires c < |cl| && cl[c] != [] && v != []
    ensures |Live(cl[c := v])| == |Live(cl)|
  {
    var m := |cl| - 1;
    if c < m {
      assert cl[c := v][..m] == cl[..m][c := v];
      LiveRefill(cl[..m], c, v);
    } else {
      assert cl[c := v][..m] == cl[..m];
    }
  }

  /** Emptying a non-empty slot removes one cluster. */
  lemma {:induction false} LiveClear(cl: seq<seq<nat>>, c: nat)
    requires c < |cl| && cl[c] != []
    ensures |Live(cl[c := []])| == |Live(cl)| - 1
  {
    var m := |cl| - 1;
    if c < m {
      assert cl[c := []][..m] == cl[..m][c := []];
      LiveClear(cl[..m], c);
    } else {
      assert cl[c := []][..m] == cl[..m];
    }
  }

  /** With two clusters left there are two non-empty slots. */
  lemma {:induction false} LiveTwo(cl: seq<seq<nat>>)
    requires |Live(cl)| >= 2
    ensures exists a, b :: 0 <= b < a < |cl| && cl[a] != [] && cl[b] != []
  {
    var m := |cl| - 1;
    var init := cl[..m];
    assert forall c :: 0 <= c < m ==> init[c] == cl[c];
    if cl[m] == [] {
      LiveTwo(init);
      var a, b :| 0 <= b < a < |init| && init[a] != [] && init[b] != [];
      assert cl[a] != [] && cl[b] != [];
    } else {
      var t :| 0 <= t < |Live(init)|;
      var b := LiveSlots(init)[t];
      assert init[b] != [];
      assert cl[b] != [];
    }
  }
}
