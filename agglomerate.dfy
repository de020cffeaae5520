/** Heap-based single-linkage agglomerative clustering. Every point starts as
    a cluster of its own, in the slot of its own index; the heap holds one
    entry per pair of live clusters, keyed by their single-linkage distance
    and identified by the table slot of the pair of their anchor points. The
    closest pair is merged (the later slot into the earlier one) until the
    requested number of clusters is reached, the heap runs dry, or the Dunn
    criterion stops the merging. */
module Agglomerative {
  import opened Basics
  import opened PairIndex
  import opened Linkage
  import opened Heap
  import opened Dunn
  import opened SingleLinkage
  import Helpers

  /** What decides how far to merge: a fixed number of clusters, or the
      automatic Dunn criterion with its optional merge limit. */
  datatype Target = FixedK(k: int) | Automatic(mergeLimit: Option<real>)

  datatype Mode = ClusterLists | ComponentLabels | Dominant

  datatype Output = Clusters(clusters: seq<seq<nat>>) | Components(labels: seq<nat>)

  datatype Failure =
    | DominantUnsupported  // the 'dominant' mode never produces a result
    | NoPartitionSaved     // the criterion never saw a merge, so it has nothing to return

  // ---------------------------------------------------------------------------
  // The cluster slots

  /** A live slot c is anchored at its own index: it holds the point c and
      nothing smaller. Merging the later slot into the earlier one keeps this. */
  ghost predicate Anchored(cl: seq<seq<nat>>) {
    && (forall c, x :: 0 <= c < |cl| && x in cl[c] ==> c <= x)
    && (forall c :: 0 <= c < |cl| && cl[c] != [] ==> c in cl[c])
  }

  /** x lies in some slot. */
  ghost predicate Placed(cl: seq<seq<nat>>, x: nat) {
    exists c :: 0 <= c < |cl| && x in cl[c]
  }

  /** Every point lies in some slot. */
  ghost predicate Covers(cl: seq<seq<nat>>, n: nat) {
    forall x :: 0 <= x < n ==> Placed(cl, x)
  }

  ghost predicate SlotState(cl: seq<seq<nat>>, n: nat) {
    Slots(cl, n) && Anchored(cl) && Covers(cl, n)
  }

  /** All points in clusters of their own form a valid slot state with n
      live clusters. */
  lemma Singletons(n: nat)
    ensures SlotState(seq(n, x => [x]), n)
    ensures |Live(seq(n, x => [x]))| == n
  {
    var cl := seq(n, x => [x]);
    assert forall c :: 0 <= c < n ==> cl[c] == [c];
    assert Slots(cl, n) by {
      forall c, c' | 0 <= c < n && 0 <= c' < n && c != c' ensures Disjoint(cl[c], cl[c']) {
        assert cl[c] == [c] && cl[c'] == [c'];
      }
    }
    assert Anchored(cl);
    forall x | 0 <= x < n ensures Placed(cl, x) {
      assert x in cl[x];
    }
    AllLive(cl);
  }

  lemma {:induction false} AllLive(cl: seq<seq<nat>>)
    requires forall c :: 0 <= c < |cl| ==> cl[c] != []
    ensures Live(cl) == cl
  {
    if cl != [] {
      var m := |cl| - 1;
      AllLive(cl[..m]);
      assert cl[..m] + [cl[m]] == cl;
    }
  }

  /** Merging two live slots i < j keeps the slots anchored, disjoint and
      covering, and removes one live cluster. */
  lemma MergeState(cl: seq<seq<nat>>, n: nat, i: nat, j: nat)
    requires SlotState(cl, n) && i < j < n && cl[i] != [] && cl[j] != []
    ensures SlotState(Merge(cl, i, j), n)
    ensures |Live(Merge(cl, i, j))| == |Live(cl)| - 1
  {
    var m := Merge(cl, i, j);
    MergeSlots(cl, n, i, j);
    forall c, x | 0 <= c < n && x in m[c] ensures c <= x {
      if c == i && x in cl[j] {
        assert j <= x;
      }
    }
    assert i in cl[i];
    assert i in m[i];
    forall x | 0 <= x < n ensures Placed(m, x) {
      assert Placed(cl, x);
      var c :| 0 <= c < |cl| && x in cl[c];
      if c == j || c == i {
        assert x in m[i];
      } else {
        assert x in m[c];
      }
    }
    LiveRefill(cl, i, cl[i] + cl[j]);
    LiveClear(cl[i := cl[i] + cl[j]], j);
  }

  // ---------------------------------------------------------------------------
  // The heap keys

  /** The table slot of the unordered pair {c, r}. */
  function PairId(c: nat, r: nat): nat
    requires c != r
  {
    if c > r then Index(c, r) else Index(r, c)
  }

  /** The key the heap holds for table slot z while the clusters anchored at
      the two points of the pair are both live: their single-linkage
      distance. */
  ghost function PairKey(matrix: seq<real>, n: nat, cl: seq<seq<nat>>, z: nat): Option<real>
    requires |matrix| == Triangle(n) && Slots(cl, n) && z < Triangle(n)
  {
    var a, b := Lookup(n)[z].0, Lookup(n)[z].1;
    if a < n && b < n && a != b && cl[a] != [] && cl[b] != [] then Some(MinCross(matrix, n, cl[a], cl[b]))
    else None
  }

  /** The keys of all pairs of live clusters. */
  ghost function Keys(matrix: seq<real>, n: nat, cl: seq<seq<nat>>): map<nat, real>
    requires |matrix| == Triangle(n) && Slots(cl, n)
  {
    map z: nat | z < Triangle(n) && PairKey(matrix, n, cl, z).Some? :: PairKey(matrix, n, cl, z).value
  }

  /** The pair of two live slots c and r is keyed by their single linkage. */
  lemma KeyOf(matrix: seq<real>, n: nat, cl: seq<seq<nat>>, c: nat, r: nat)
    requires |matrix| == Triangle(n) && Slots(cl, n)
    requires c < n && r < n && c != r && cl[c] != [] && cl[r] != []
    ensures PairId(c, r) < Triangle(n)
    ensures PairKey(matrix, n, cl, PairId(c, r)) == Some(MinCross(matrix, n, cl[c], cl[r]))
  {
    if c > r {
      LookupIndex(n, c, r);
    } else {
      LookupIndex(n, r, c);
      MinCrossSymmetric(matrix, n, cl[r], cl[c]);
    }
  }

  /** Every table slot is keyed by the distance of its two points while both
      are clusters of their own: the heap starts from the distance table. */
  lemma SingletonKeys(matrix: seq<real>, n: nat, z: nat)
    requires |matrix| == Triangle(n) && z < Triangle(n)
    ensures Slots(seq(n, x => [x]), n)
    ensures PairKey(matrix, n, seq(n, x => [x]), z) == Some(matrix[z])
  {
    Singletons(n);
    var cl := seq(n, x => [x]);
    LookupPair(n, z);
    var a, b := Lookup(n)[z].0, Lookup(n)[z].1;
    MinCrossLeast(matrix, n, cl[a], cl[b]);
  }

  /** The heap built from the distance table holds the keys of the singletons. */
  lemma InitialHolds(matrix: seq<real>, n: nat, h: seq<Entry>)
    requires |matrix| == Triangle(n)
    requires multiset(h) == multiset(seq(|matrix|, z requires 0 <= z < |matrix| => Entry(matrix[z], z)))
    ensures Slots(seq(n, x => [x]), n)
    ensures Holds(h, Keys(matrix, n, seq(n, x => [x])))
  {
    Singletons(n);
    var keys := Keys(matrix, n, seq(n, x => [x]));
    forall e | e in h ensures e.id in keys && keys[e.id] == e.d {
      InitialEntry(matrix, n, h, e);
    }
    forall z | z in keys ensures Entry(keys[z], z) in h {
      InitialKey(matrix, n, h, z);
    }
  }

  lemma InitialEntry(matrix: seq<real>, n: nat, h: seq<Entry>, e: Entry)
    requires |matrix| == Triangle(n) && e in h
    requires multiset(h) == multiset(seq(|matrix|, z requires 0 <= z < |matrix| => Entry(matrix[z], z)))
    ensures Slots(seq(n, x => [x]), n)
    ensures e.id < Triangle(n) && PairKey(matrix, n, seq(n, x => [x]), e.id) == Some(e.d)
  {
    var s := seq(|matrix|, z requires 0 <= z < |matrix| => Entry(matrix[z], z));
    assert e in multiset(s);
    var z :| 0 <= z < |s| && s[z] == e;
    SingletonKeys(matrix, n, z);
  }

  lemma InitialKey(matrix: seq<real>, n: nat, h: seq<Entry>, z: nat)
    requires |matrix| == Triangle(n) && z < Triangle(n)
    requires multiset(h) == multiset(seq(|matrix|, z requires 0 <= z < |matrix| => Entry(matrix[z], z)))
    ensures Slots(seq(n, x => [x]), n)
    ensures PairKey(matrix, n, seq(n, x => [x]), z).Some?
    ensures Entry(PairKey(matrix, n, seq(n, x => [x]), z).value, z) in h
  {
    var s := seq(|matrix|, z requires 0 <= z < |matrix| => Entry(matrix[z], z));
    SingletonKeys(matrix, n, z);
    assert s[z] in multiset(s);
  }

  /** Every entry of a heap holding the keys names a pair of two live
      clusters, by their single-linkage distance. */
  lemma EntryPair(matrix: seq<real>, n: nat, cl: seq<seq<nat>>, h: seq<Entry>, e: Entry)
    requires |matrix| == Triangle(n) && Slots(cl, n)
    requires Holds(h, Keys(matrix, n, cl)) && e in h
    ensures e.id < Triangle(n)
    ensures Lookup(n)[e.id].1 < Lookup(n)[e.id].0 < n
    ensures Index(Lookup(n)[e.id].0, Lookup(n)[e.id].1) == e.id
    ensures cl[Lookup(n)[e.id].0] != [] && cl[Lookup(n)[e.id].1] != []
    ensures e.d == MinCross(matrix, n, cl[Lookup(n)[e.id].0], cl[Lookup(n)[e.id].1])
  {
    LookupPair(n, e.id);
  }

  /** The top of the heap names the closest pair of live clusters: its
      distance is their single linkage, no pair of live clusters is closer,
      and of two equally close pairs the one in the earlier table slot wins. */
  lemma TopIsClosest(matrix: seq<real>, n: nat, cl: seq<seq<nat>>, h: seq<Entry>)
    requires |matrix| == Triangle(n) && Slots(cl, n)
    requires Ordered(h) && Holds(h, Keys(matrix, n, cl)) && h != []
    ensures h[0].id < Triangle(n) && Lookup(n)[h[0].id].1 < Lookup(n)[h[0].id].0 < n
    ensures ClosestLive(matrix, n, cl, Lookup(n)[h[0].id].1, Lookup(n)[h[0].id].0)
    ensures h[0].d == MinCross(matrix, n, cl[Lookup(n)[h[0].id].0], cl[Lookup(n)[h[0].id].1])
  {
    assert h[0] in h;
    EntryPair(matrix, n, cl, h, h[0]);
    TopBeatsAll(matrix, n, cl, h);
    LeastIsClosest(matrix, n, cl, h[0], Lookup(n)[h[0].id].1, Lookup(n)[h[0].id].0);
  }

  /** An entry no later than the entries of all live pairs, naming the live
      pair (i, j), names the closest pair. */
  lemma LeastIsClosest(matrix: seq<real>, n: nat, cl: seq<seq<nat>>, top: Entry, i: nat, j: nat)
    requires |matrix| == Triangle(n) && Slots(cl, n)
    requires i < j < n && cl[i] != [] && cl[j] != []
    requires top.d == MinCross(matrix, n, cl[j], cl[i]) && top.id == Index(j, i)
    requires forall c, r :: 0 <= r < c < n && cl[c] != [] && cl[r] != [] ==>
      Le(top, Entry(MinCross(matrix, n, cl[c], cl[r]), Index(c, r)))
    ensures ClosestLive(matrix, n, cl, i, j)
  {
    var d := MinCross(matrix, n, cl[j], cl[i]);
    forall c, r | 0 <= r < c < n && cl[c] != [] && cl[r] != []
      ensures || d < MinCross(matrix, n, cl[c], cl[r])
              || (d == MinCross(matrix, n, cl[c], cl[r]) && Index(j, i) <= Index(c, r))
    {
      assert Le(top, Entry(MinCross(matrix, n, cl[c], cl[r]), Index(c, r)));
    }
  }

  /** The top of the heap comes no later than the entry of any live pair. */
  lemma TopBeatsAll(matrix: seq<real>, n: nat, cl: seq<seq<nat>>, h: seq<Entry>)
    requires |matrix| == Triangle(n) && Slots(cl, n)
    requires Ordered(h) && Holds(h, Keys(matrix, n, cl)) && h != []
    ensures forall c, r :: 0 <= r < c < n && cl[c] != [] && cl[r] != [] ==>
      Le(h[0], Entry(MinCross(matrix, n, cl[c], cl[r]), Index(c, r)))
  {
    forall c, r | 0 <= r < c < n && cl[c] != [] && cl[r] != []
      ensures Le(h[0], Entry(MinCross(matrix, n, cl[c], cl[r]), Index(c, r)))
    {
      TopBelow(matrix, n, cl, h, c, r);
    }
  }

  /** The top of the heap comes no later than the entry of the live pair
      (c, r). */
  lemma TopBelow(matrix: seq<real>, n: nat, cl: seq<seq<nat>>, h: seq<Entry>, c: nat, r: nat)
    requires |matrix| == Triangle(n) && Slots(cl, n)
    requires Ordered(h) && Holds(h, Keys(matrix, n, cl)) && h != []
    requires r < c < n && cl[c] != [] && cl[r] != []
    ensures Le(h[0], Entry(MinCross(matrix, n, cl[c], cl[r]), Index(c, r)))
  {
    var keys := Keys(matrix, n, cl);
    KeyOf(matrix, n, cl, c, r);
    var z := PairId(c, r);
    assert z in keys;
    var e := Entry(keys[z], z);
    assert e in h;
    var q :| 0 <= q < |h| && h[q] == e;
    RootIsLeast(h, q);
  }

  /** With two live clusters the heap is not empty. */
  lemma HeapNotEmpty(matrix: seq<real>, n: nat, cl: seq<seq<nat>>, h: seq<Entry>)
    requires |matrix| == Triangle(n) && Slots(cl, n)
    requires Holds(h, Keys(matrix, n, cl)) && |Live(cl)| >= 2
    ensures h != []
  {
    LiveTwo(cl);
    var a, b :| 0 <= b < a < |cl| && cl[a] != [] && cl[b] != [];
    KeyOf(matrix, n, cl, a, b);
    assert PairId(a, b) in Keys(matrix, n, cl);
  }

  // ---------------------------------------------------------------------------
  // Re-keying after a merge

  /** The other point of the pair (a, b) next to x. */
  function Other(a: nat, b: nat, x: nat): nat {
    if a == x then b else a
  }

  /** The key of table slot z while the pairs of j and i with the live slots
      below r0 have been re-keyed for the merge of j into i: the pair (j, i)
      is gone, the pairs (j, r) with r < r0 are gone, and the pairs (i, r)
      with r < r0 carry the merged key. Every other pair keeps its key. */
  ghost function Pending(matrix: seq<real>, n: nat, cl: seq<seq<nat>>, i: nat, j: nat, r0: nat, z: nat): Option<real>
    requires |matrix| == Triangle(n) && Slots(cl, n) && i < j < n && z < Triangle(n)
  {
    var a, b := Lookup(n)[z].0, Lookup(n)[z].1;
    if a == j && b == i then None
    else if a == j || b == j then (if Other(a, b, j) < r0 then None else PairKey(matrix, n, cl, z))
    else if (a == i || b == i) && Other(a, b, i) < r0 then MergedKey(matrix, n, cl, i, j, Other(a, b, i))
    else PairKey(matrix, n, cl, z)
  }

  /** The key of the pair (i, r) once j has joined i: the smaller of the
      single linkages of r to i and to j. */
  ghost function MergedKey(matrix: seq<real>, n: nat, cl: seq<seq<nat>>, i: nat, j: nat, r: nat): Option<real>
    requires |matrix| == Triangle(n) && Slots(cl, n) && i < j < n
  {
    if r < n && r != i && r != j && cl[i] != [] && cl[j] != [] && cl[r] != [] then
      Some(Min(MinCross(matrix, n, cl[i], cl[r]), MinCross(matrix, n, cl[j], cl[r])))
    else None
  }

  /** want holds exactly the pending keys. */
  ghost predicate PendingIs(matrix: seq<real>, n: nat, cl: seq<seq<nat>>, i: nat, j: nat, r0: nat,
                            want: map<nat, real>)
    requires |matrix| == Triangle(n) && Slots(cl, n) && i < j < n
  {
    && (forall z :: z in want ==> z < Triangle(n) && Pending(matrix, n, cl, i, j, r0, z) == Some(want[z]))
    && (forall z :: 0 <= z < Triangle(n) && Pending(matrix, n, cl, i, j, r0, z).Some? ==> z in want)
  }

  lemma PendingStart(matrix: seq<real>, n: nat, cl: seq<seq<nat>>, i: nat, j: nat)
    requires |matrix| == Triangle(n) && Slots(cl, n) && i < j < n
    ensures Index(j, i) < Triangle(n)
    ensures PendingIs(matrix, n, cl, i, j, 0, Keys(matrix, n, cl) - {Index(j, i)})
  {
    LookupIndex(n, j, i);
    forall z | 0 <= z < Triangle(n)
      ensures Pending(matrix, n, cl, i, j, 0, z) == if z == Index(j, i) then None else PairKey(matrix, n, cl, z)
    {
      LookupPair(n, z);
    }
  }

  /** A slot r that is i, j or empty changes no pending key. */
  lemma PendingSkip(matrix: seq<real>, n: nat, cl: seq<seq<nat>>, i: nat, j: nat, r: nat, want: map<nat, real>)
    requires |matrix| == Triangle(n) && Slots(cl, n) && i < j < n && r < n
    requires r == i || r == j || cl[r] == []
    requires PendingIs(matrix, n, cl, i, j, r, want)
    ensures PendingIs(matrix, n, cl, i, j, r + 1, want)
  {
    MergeSlots(cl, n, i, j);
    forall z | 0 <= z < Triangle(n)
      ensures Pending(matrix, n, cl, i, j, r + 1, z) == Pending(matrix, n, cl, i, j, r, z)
    {
      LookupPair(n, z);
    }
  }

  /** For a live slot r other than i and j, the pairs (i, r) and (j, r)
      carry their single linkages before slot r is visited; afterwards the
      pair (j, r) is gone and the pair (i, r) carries the smaller of the two:
      the single linkage of r to the merged cluster. */
  lemma PendingPair(matrix: seq<real>, n: nat, cl: seq<seq<nat>>, i: nat, j: nat, r: nat)
    requires |matrix| == Triangle(n) && Slots(cl, n) && i < j < n && r < n
    requires r != i && r != j && cl[r] != [] && cl[i] != [] && cl[j] != []
    ensures PairId(i, r) < Triangle(n) && PairId(j, r) < Triangle(n) && PairId(i, r) != PairId(j, r)
    ensures Pending(matrix, n, cl, i, j, r, PairId(i, r)) == Some(MinCross(matrix, n, cl[i], cl[r]))
    ensures Pending(matrix, n, cl, i, j, r, PairId(j, r)) == Some(MinCross(matrix, n, cl[j], cl[r]))
    ensures Pending(matrix, n, cl, i, j, r + 1, PairId(i, r)) ==
      Some(Min(MinCross(matrix, n, cl[i], cl[r]), MinCross(matrix, n, cl[j], cl[r])))
    ensures Pending(matrix, n, cl, i, j, r + 1, PairId(j, r)) == None
  {
    KeyOf(matrix, n, cl, i, r);
    KeyOf(matrix, n, cl, j, r);
    LookupIndex(n, if i > r then i else r, if i > r then r else i);
    LookupIndex(n, if j > r then j else r, if j > r then r else j);
  }

  /** Visiting slot r changes no pending key other than those of (i, r)
      and (j, r). */
  lemma PendingOthers(matrix: seq<real>, n: nat, cl: seq<seq<nat>>, i: nat, j: nat, r: nat, z: nat)
    requires |matrix| == Triangle(n) && Slots(cl, n) && i < j < n && r < n && r != i && r != j
    requires z < Triangle(n) && z != PairId(i, r) && z != PairId(j, r)
    ensures Pending(matrix, n, cl, i, j, r + 1, z) == Pending(matrix, n, cl, i, j, r, z)
  {
    LookupPair(n, z);
  }

  lemma PendingAdvance(matrix: seq<real>, n: nat, cl: seq<seq<nat>>, i: nat, j: nat, r: nat,
                       want: map<nat, real>, want': map<nat, real>)
    requires |matrix| == Triangle(n) && Slots(cl, n) && i < j < n && r < n
    requires r != i && r != j && cl[r] != [] && cl[i] != [] && cl[j] != []
    requires PendingIs(matrix, n, cl, i, j, r, want)
    requires PairId(i, r) in want && PairId(j, r) in want
    requires forall z :: z in want' <==> z in want && z != PairId(j, r)
    requires forall z :: z in want' ==>
      want'[z] == if z == PairId(i, r) then Min(want[PairId(i, r)], want[PairId(j, r)]) else want[z]
    ensures PendingIs(matrix, n, cl, i, j, r + 1, want')
  {
    PendingPair(matrix, n, cl, i, j, r);
    forall z | 0 <= z < Triangle(n) && z != PairId(i, r) && z != PairId(j, r)
      ensures Pending(matrix, n, cl, i, j, r + 1, z) == Pending(matrix, n, cl, i, j, r, z)
    {
      PendingOthers(matrix, n, cl, i, j, r, z);
    }
  }

  /** Once every slot has been visited the pending keys are the keys of the
      merged slots. */
  lemma PendingDone(matrix: seq<real>, n: nat, cl: seq<seq<nat>>, i: nat, j: nat, want: map<nat, real>)
    requires |matrix| == Triangle(n) && Slots(cl, n) && i < j < n && cl[i] != [] && cl[j] != []
    requires PendingIs(matrix, n, cl, i, j, n, want)
    ensures Slots(Merge(cl, i, j), n)
    ensures want == Keys(matrix, n, Merge(cl, i, j))
  {
    MergeSlots(cl, n, i, j);
    var keys := Keys(matrix, n, Merge(cl, i, j));
    PendingDoneWant(matrix, n, cl, i, j, want);
    PendingDoneKeys(matrix, n, cl, i, j, want);
    SameMap(want, keys);
  }

  lemma SameMap(a: map<nat, real>, b: map<nat, real>)
    requires forall z :: z in a ==> z in b && b[z] == a[z]
    requires forall z :: z in b ==> z in a
    ensures a == b
  {
    assert a.Keys == b.Keys;
  }

  lemma PendingDoneWant(matrix: seq<real>, n: nat, cl: seq<seq<nat>>, i: nat, j: nat, want: map<nat, real>)
    requires |matrix| == Triangle(n) && Slots(cl, n) && i < j < n && cl[i] != [] && cl[j] != []
    requires PendingIs(matrix, n, cl, i, j, n, want)
    ensures Slots(Merge(cl, i, j), n)
    ensures forall z :: z in want ==>
      z in Keys(matrix, n, Merge(cl, i, j)) && Keys(matrix, n, Merge(cl, i, j))[z] == want[z]
  {
    MergeSlots(cl, n, i, j);
    forall z | z in want
      ensures z in Keys(matrix, n, Merge(cl, i, j)) && Keys(matrix, n, Merge(cl, i, j))[z] == want[z]
    {
      PendingFinal(matrix, n, cl, i, j, z);
    }
  }

  lemma PendingDoneKeys(matrix: seq<real>, n: nat, cl: seq<seq<nat>>, i: nat, j: nat, want: map<nat, real>)
    requires |matrix| == Triangle(n) && Slots(cl, n) && i < j < n && cl[i] != [] && cl[j] != []
    requires PendingIs(matrix, n, cl, i, j, n, want)
    ensures Slots(Merge(cl, i, j), n)
    ensures forall z :: z in Keys(matrix, n, Merge(cl, i, j)) ==> z in want
  {
    MergeSlots(cl, n, i, j);
    forall z | z in Keys(matrix, n, Merge(cl, i, j)) ensures z in want {
      PendingFinal(matrix, n, cl, i, j, z);
    }
  }

  /** After the last slot every pending key is the key of the merged slots. */
  lemma PendingFinal(matrix: seq<real>, n: nat, cl: seq<seq<nat>>, i: nat, j: nat, z: nat)
    requires |matrix| == Triangle(n) && Slots(cl, n) && i < j < n && z < Triangle(n)
    requires cl[i] != [] && cl[j] != []
    ensures Slots(Merge(cl, i, j), n)
    ensures Pending(matrix, n, cl, i, j, n, z) == PairKey(matrix, n, Merge(cl, i, j), z)
  {
    MergeSlots(cl, n, i, j);
    LookupPair(n, z);
    var a, b := Lookup(n)[z].0, Lookup(n)[z].1;
    if (a == i || b == i) && a != j && b != j {
      MergedKeyOf(matrix, n, cl, i, j, Other(a, b, i));
    }
  }

  /** The merged key of (i, r) is the single linkage of r to the merged cluster. */
  lemma MergedKeyOf(matrix: seq<real>, n: nat, cl: seq<seq<nat>>, i: nat, j: nat, r: nat)
    requires |matrix| == Triangle(n) && Slots(cl, n) && i < j < n && cl[i] != [] && cl[j] != []
    requires r < n && r != i && r != j
    ensures Slots(Merge(cl, i, j), n) && PairId(i, r) < Triangle(n)
    ensures PairKey(matrix, n, Merge(cl, i, j), PairId(i, r)) == MergedKey(matrix, n, cl, i, j, r)
  {
    MergeSlots(cl, n, i, j);
    var m := Merge(cl, i, j);
    LookupIndex(n, if i > r then i else r, if i > r then r else i);
    if cl[r] != [] {
      assert m[r] == cl[r];
      KeyOf(matrix, n, m, i, r);
      MinCrossJoin(matrix, n, cl[i], cl[j], cl[r]);
    }
  }

  /** Re-keys the heap for the merge of slot j into slot i, walking the
      other live slots r in ascending order: the entry of the pair (j, r)
      is removed and, when its distance is smaller, moved onto the entry of
      the pair (i, r). The entry of (j, i) itself is already gone. */
  method Rekey(pq: PairHeap, matrix: seq<real>, n: nat, cl: seq<seq<nat>>, i: nat, j: nat)
    requires |matrix| == Triangle(n) && Slots(cl, n) && i < j < n && cl[i] != [] && cl[j] != []
    requires pq.Valid() && |pq.where| == Triangle(n)
    requires Index(j, i) < Triangle(n)
    requires Holds(pq.heap, Keys(matrix, n, cl) - {Index(j, i)})
    modifies pq
    ensures pq.Valid() && |pq.where| == Triangle(n)
    ensures Slots(Merge(cl, i, j), n)
    ensures Holds(pq.heap, Keys(matrix, n, Merge(cl, i, j)))
  {
    ghost var want: map<nat, real> := Keys(matrix, n, cl) - {Index(j, i)};
    PendingStart(matrix, n, cl, i, j);
    for r := 0 to n
      invariant Rekeying(pq, matrix, n, cl, i, j, r, want)
    {
      want := RekeySlot(pq, matrix, n, cl, i, j, r, want);
    }
    PendingDone(matrix, n, cl, i, j, want);
  }

  /** The state of the re-keying walk before slot r: the heap holds exactly
      the pending keys. */
  ghost predicate Rekeying(pq: PairHeap, matrix: seq<real>, n: nat, cl: seq<seq<nat>>, i: nat, j: nat, r: nat,
                           want: map<nat, real>)
    reads pq
  {
    && |matrix| == Triangle(n) && Slots(cl, n) && i < j < n && cl[i] != [] && cl[j] != []
    && pq.Valid() && |pq.where| == Triangle(n)
    && Holds(pq.heap, want) && PendingIs(matrix, n, cl, i, j, r, want)
  }

  /** Visits slot r: when it is live and neither i nor j, the key of (j, r)
      moves onto (i, r) if smaller. */
  method RekeySlot(pq: PairHeap, matrix: seq<real>, n: nat, cl: seq<seq<nat>>, i: nat, j: nat, r: nat,
                   ghost want: map<nat, real>) returns (ghost want': map<nat, real>)
    requires r < n && Rekeying(pq, matrix, n, cl, i, j, r, want)
    modifies pq
    ensures Rekeying(pq, matrix, n, cl, i, j, r + 1, want')
  {
    if r != i && r != j && cl[r] != [] {
      var a, b := PairId(i, r), PairId(j, r);
      PendingPair(matrix, n, cl, i, j, r);
      want' := MoveKey(pq, a, b, want);
      PendingAdvance(matrix, n, cl, i, j, r, want, want');
    } else {
      PendingSkip(matrix, n, cl, i, j, r, want);
      want' := want;
    }
  }

  /** One step of the re-keying: the entry of pair b is removed and its
      distance, when smaller, replaces that of pair a. */
  method MoveKey(pq: PairHeap, a: nat, b: nat, ghost want: map<nat, real>) returns (ghost want': map<nat, real>)
    requires pq.Valid() && Holds(pq.heap, want) && a in want && b in want && a != b
    modifies pq
    ensures pq.Valid() && |pq.where| == old(|pq.where|)
    ensures Holds(pq.heap, want')
    ensures forall z :: z in want' <==> z in want && z != b
    ensures forall z :: z in want' ==> want'[z] == if z == a then Min(want[a], want[b]) else want[z]
  {
    Locate(pq.heap, pq.where, Entry(want[b], b));
    var y := pq.heap[pq.where[b]].d;
    ghost var h0 := pq.heap;
    pq.Remove(pq.where[b]);
    HoldsRemove(h0, want, Entry(want[b], b), pq.heap);
    want' := want - {b};
    Locate(pq.heap, pq.where, Entry(want[a], a));
    var x := pq.heap[pq.where[a]];
    if y < x.d {
      ghost var h1 := pq.heap;
      pq.Update(pq.where[a], Entry(y, x.id));
      HoldsReplace(h1, want', x, Entry(y, x.id), pq.heap);
      want' := want'[a := y];
    }
  }

  // ---------------------------------------------------------------------------
  // The merge loop

  /** The number of clusters a fixed target k leaves of n points: all n when
      k is at least n, otherwise k, but never fewer than one. */
  function ExpectedCount(n: nat, k: int): nat {
    if n == 0 then 0 else if n <= k then n else if k >= 1 then k else 1
  }

  /** res lists, possibly among empty slots, the clusters of some anchored
      partition of the points 0 .. n-1. */
  ghost predicate Partitions(res: seq<seq<nat>>, n: nat) {
    exists cl :: SlotState(cl, n) && Live(res) == Live(cl)
  }

  lemma LivePartitions(cl: seq<seq<nat>>, n: nat)
    requires SlotState(cl, n)
    ensures Partitions(cl, n) && Partitions(Live(cl), n)
  {
    AllLive(Live(cl));
  }

  /** The state of the merge loop: valid slots with count live clusters,
      and the heap holding exactly one entry per pair of live clusters, keyed
      by their single linkage. */
  ghost predicate Merging(pq: PairHeap, matrix: seq<real>, n: nat, cl: seq<seq<nat>>, count: int)
    reads pq
  {
    && |matrix| == Triangle(n) && SlotState(cl, n)
    && pq.Valid() && |pq.where| == Triangle(n)
    && Holds(pq.heap, Keys(matrix, n, cl))
    && count == |Live(cl)| <= n
    && (n >= 1 ==> count >= 1)
  }

  /** The merge loop so far is a single-linkage run ending in the slots cl,
      with the Dunn index of every judged state, none of whose closest pairs
      was beyond the merge limit. */
  ghost predicate Traced(matrix: seq<real>, n: nat, cl: seq<seq<nat>>, limit: Option<real>,
                         states: seq<seq<seq<nat>>>, pairs: seq<(nat, nat)>, dunn: seq<(real, real)>)
  {
    && Run(matrix, n, states, pairs) && |pairs| == |states| - 1 && states[|states| - 1] == cl
    && DunnIndices(matrix, n, states, pairs, dunn)
    && forall t :: 0 <= t < |dunn| ==> !Exceeds(limit, dunn[t].0)
  }

  /** The criterion follows the slots cl and remembers the best of the
      judged states of the run; a remembered Dunn index never has a larger
      denominator than the largest diameter so far. */
  ghost predicate Judging(criterion: DunnMergeCriterion, matrix: seq<real>, n: nat, cl: seq<seq<nat>>,
                          states: seq<seq<seq<nat>>>, dunn: seq<(real, real)>)
    reads criterion
  {
    && criterion.matrix == matrix && criterion.n == n && criterion.Tracks(cl)
    && Remembered(states, dunn, criterion.bestDunn, criterion.bestPartition)
    && (criterion.bestDunn.Some? ==> criterion.bestDunn.value.1 <= criterion.maxDiameter)
  }

  /** What the clustering computes for a target. For a fixed k: the last
      state of a single-linkage run that has merged down to ExpectedCount(n, k)
      clusters. Under the automatic target: the live clusters of the judged
      state of best Dunn index in a single-linkage run that merged every
      closest pair within the merge limit, stopping at the first beyond it or
      at a single cluster. */
  ghost predicate Outcome(matrix: seq<real>, n: nat, target: Target, res: seq<seq<nat>>)
    requires |matrix| == Triangle(n)
  {
    match target
    case FixedK(k) =>
      exists states, pairs ::
        && Run(matrix, n, states, pairs) && |pairs| == |states| - 1
        && res == states[|states| - 1] && |Live(res)| == ExpectedCount(n, k)
    case Automatic(limit) =>
      exists states, pairs, dunn, b: nat ::
        && Run(matrix, n, states, pairs) && DunnIndices(matrix, n, states, pairs, dunn)
        && Stopped(limit, states, dunn) && BestDunn(dunn, b) && res == Live(states[b])
  }

  /** Every state of a run is a valid slot state. */
  lemma {:induction false} RunSlotState(matrix: seq<real>, n: nat, states: seq<seq<seq<nat>>>,
                                        pairs: seq<(nat, nat)>, t: nat)
    requires Run(matrix, n, states, pairs) && t < |states|
    ensures SlotState(states[t], n)
  {
    if t == 0 {
      Singletons(n);
    } else {
      RunSlotState(matrix, n, states, pairs, t - 1);
      RunAt(matrix, n, states, pairs, t - 1);
      MergeState(states[t - 1], n, pairs[t - 1].0, pairs[t - 1].1);
    }
  }

  /** Whatever the target, the outcome lists the clusters of a valid slot
      state. */
  lemma OutcomePartitions(matrix: seq<real>, n: nat, target: Target, res: seq<seq<nat>>)
    requires |matrix| == Triangle(n) && Outcome(matrix, n, target, res)
    ensures Partitions(res, n)
  {
    match target
    case FixedK(k) =>
      var states, pairs :| Run(matrix, n, states, pairs) && |pairs| == |states| - 1 && res == states[|states| - 1];
      RunPartitions(matrix, n, states, pairs, |states| - 1);
    case Automatic(limit) =>
      var states, pairs, dunn, b: nat :|
        && Run(matrix, n, states, pairs) && DunnIndices(matrix, n, states, pairs, dunn)
        && Stopped(limit, states, dunn) && BestDunn(dunn, b) && res == Live(states[b]);
      RunPartitions(matrix, n, states, pairs, b);
  }

  lemma RunPartitions(matrix: seq<real>, n: nat, states: seq<seq<seq<nat>>>, pairs: seq<(nat, nat)>, t: nat)
    requires Run(matrix, n, states, pairs) && t < |states|
    ensures Partitions(states[t], n) && Partitions(Live(states[t]), n)
  {
    RunSlotState(matrix, n, states, pairs, t);
    LivePartitions(states[t], n);
  }

  /** The closest pair (i, j) of the last state extends the run: merged
      when within the limit, otherwise judged as the last pair of a run that
      has stopped. */
  lemma Extend(matrix: seq<real>, n: nat, cl: seq<seq<nat>>, limit: Option<real>,
               states: seq<seq<seq<nat>>>, pairs: seq<(nat, nat)>, dunn: seq<(real, real)>, i: nat, j: nat)
    requires Slots(cl, n) && Traced(matrix, n, cl, limit, states, pairs, dunn)
    requires ClosestLive(matrix, n, cl, i, j)
    ensures
      var x := (Gap(matrix, n, cl, (i, j)), LargestDiameter(matrix, n, cl, n));
      && (!Exceeds(limit, x.0) ==>
            Traced(matrix, n, Merge(cl, i, j), limit, states + [Merge(cl, i, j)], pairs + [(i, j)], dunn + [x]))
      && (Exceeds(limit, x.0) ==>
            && Run(matrix, n, states, pairs + [(i, j)])
            && DunnIndices(matrix, n, states, pairs + [(i, j)], dunn + [x])
            && Stopped(limit, states, dunn + [x]))
  {
    var x := (Gap(matrix, n, cl, (i, j)), LargestDiameter(matrix, n, cl, n));
    var dunn' := dunn + [x];
    if Exceeds(limit, x.0) {
      ExtendRun(matrix, n, states, pairs, i, j, states);
      ExtendDunn(matrix, n, states, pairs, dunn, i, j, states);
      forall t | 0 <= t < |dunn'| ensures t + 1 < |states| <==> !Exceeds(limit, dunn'[t].0) {
        if t < |dunn| {
          assert dunn'[t] == dunn[t];
        }
      }
    } else {
      var states' := states + [Merge(cl, i, j)];
      ExtendRun(matrix, n, states, pairs, i, j, states');
      ExtendDunn(matrix, n, states, pairs, dunn, i, j, states');
      forall t | 0 <= t < |dunn'| ensures !Exceeds(limit, dunn'[t].0) {
        if t < |dunn| {
          assert dunn'[t] == dunn[t];
        }
      }
    }
  }

  /** The run extended by the closest pair (i, j) of its last state, with
      or without its merge. */
  lemma ExtendRun(matrix: seq<real>, n: nat, states: seq<seq<seq<nat>>>, pairs: seq<(nat, nat)>,
                  i: nat, j: nat, states': seq<seq<seq<nat>>>)
    requires Run(matrix, n, states, pairs) && |pairs| == |states| - 1
    requires Slots(states[|states| - 1], n) && ClosestLive(matrix, n, states[|states| - 1], i, j)
    requires states' == states || states' == states + [Merge(states[|states| - 1], i, j)]
    ensures Run(matrix, n, states', pairs + [(i, j)])
  {
    var last := |states| - 1;
    var pairs' := pairs + [(i, j)];
    MergeSlots(states[last], n, i, j);
    forall t | 0 <= t < |states'| ensures Slots(states'[t], n) {
      if t < |states| {
        assert states'[t] == states[t];
      }
    }
    forall t | 0 <= t < |pairs'|
      ensures ClosestLive(matrix, n, states'[t], pairs'[t].0, pairs'[t].1)
      ensures t + 1 < |states'| ==> states'[t + 1] == Merge(states'[t], pairs'[t].0, pairs'[t].1)
    {
      assert states'[t] == states[t];
      if t < |pairs| {
        RunAt(matrix, n, states, pairs, t);
        assert pairs'[t] == pairs[t];
        if t + 1 < |states| {
          assert states'[t + 1] == states[t + 1];
        }
      } else {
        assert pairs'[t] == (i, j);
      }
    }
  }

  /** The Dunn index of the last state joins those of the run. */
  lemma ExtendDunn(matrix: seq<real>, n: nat, states: seq<seq<seq<nat>>>, pairs: seq<(nat, nat)>,
                   dunn: seq<(real, real)>, i: nat, j: nat, states': seq<seq<seq<nat>>>)
    requires Run(matrix, n, states, pairs) && |pairs| == |states| - 1
    requires DunnIndices(matrix, n, states, pairs, dunn)
    requires Slots(states[|states| - 1], n) && ClosestLive(matrix, n, states[|states| - 1], i, j)
    requires states' == states || states' == states + [Merge(states[|states| - 1], i, j)]
    requires Run(matrix, n, states', pairs + [(i, j)])
    ensures
      var cl := states[|states| - 1];
      DunnIndices(matrix, n, states', pairs + [(i, j)],
                  dunn + [(Gap(matrix, n, cl, (i, j)), LargestDiameter(matrix, n, cl, n))])
  {
    var cl := states[|states| - 1];
    var pairs' := pairs + [(i, j)];
    var dunn' := dunn + [(Gap(matrix, n, cl, (i, j)), LargestDiameter(matrix, n, cl, n))];
    forall t | 0 <= t < |pairs'|
      ensures dunn'[t] == (Gap(matrix, n, states'[t], pairs'[t]), LargestDiameter(matrix, n, states'[t], n))
    {
      RunAt(matrix, n, states', pairs', t);
      assert states'[t] == states[t];
      if t < |pairs| {
        RunAt(matrix, n, states, pairs, t);
        assert pairs'[t] == pairs[t] && dunn'[t] == dunn[t];
        assert dunn[t] == (Gap(matrix, n, states[t], pairs[t]), LargestDiameter(matrix, n, states[t], n));
      } else {
        assert states'[t] == cl && pairs'[t] == (i, j);
      }
    }
  }

  /** The largest diameter the criterion keeps is that of the slots. */
  lemma LargestIsMax(matrix: seq<real>, n: nat, cl: seq<seq<nat>>, maxDiameter: real)
    requires |matrix| == Triangle(n) && Slots(cl, n) && Largest(matrix, n, cl, maxDiameter)
    ensures maxDiameter == LargestDiameter(matrix, n, cl, n)
  {
    var top := LargestDiameter(matrix, n, cl, n);
    LargestDiameterBounds(matrix, n, cl, n);
    if maxDiameter != 0.0 {
      var c :| 0 <= c < n && cl[c] != [] && Diameter(matrix, n, cl[c]) == maxDiameter;
      assert maxDiameter <= top;
      DiameterGreatest(matrix, n, cl[c]);
      assert maxDiameter >= 0.0;
    }
    if top != 0.0 {
      var c :| 0 <= c < n && cl[c] != [] && Diameter(matrix, n, cl[c]) == top;
      assert top <= maxDiameter;
    }
  }

  /** The merge loop: repeatedly takes the closest pair (i, j) of live
      clusters off the heap and merges j into i, until the target number of
      clusters is reached or the heap is empty; under the automatic target
      the criterion sees every merge first and may stop the loop. Returns
      the cluster slots, or under the automatic target the partition the
      criterion kept: in both cases the outcome of the single-linkage run. */
  method MergeClusters(matrix: seq<real>, n: nat, target: Target) returns (result: Result<seq<seq<nat>>, Failure>)
    requires |matrix| == Triangle(n)
    ensures result.Ok? ==> Outcome(matrix, n, target, result.value) && Partitions(result.value, n)
    ensures result.Err? <==> target.Automatic? && n <= 1
    ensures result.Err? ==> result.error == NoPartitionSaved
    ensures result.Ok? && target.FixedK? ==> |Live(result.value)| == ExpectedCount(n, target.k)
  {
    var criterion: DunnMergeCriterion? := null;
    var goal: int;
    if target.Automatic? {
      criterion := new DunnMergeCriterion(matrix, n, target.mergeLimit);
      goal := 1;
    } else {
      goal := target.k;
    }
    ghost var limit := if target.Automatic? then target.mergeLimit else None;
    var lookup := Lookup(n);
    var pq := new PairHeap(matrix);
    var clusters: seq<seq<nat>> := seq(n, x => [x]);
    Singletons(n);
    InitialHolds(matrix, n, pq.heap);
    var nClusters := n;
    ghost var states, pairs, dunn := [clusters], [], [];
    ghost var refused := false;
    Started(matrix, n, limit);
    while |pq.heap| > 0 && nClusters > goal
      invariant Looping(pq, criterion, matrix, n, clusters, nClusters, goal, limit, states, pairs, dunn)
      invariant (criterion != null) == target.Automatic?
      invariant goal == if target.FixedK? then target.k else 1
      invariant limit == if target.Automatic? then target.mergeLimit else None
      invariant !refused
      decreases nClusters
    {
      var proceed;
      proceed, clusters, nClusters, states, pairs, dunn :=
        Round(pq, criterion, lookup, matrix, n, clusters, nClusters, goal, limit, states, pairs, dunn);
      if !proceed {
        refused := true;
        break;
      }
    }
    if criterion != null {
      AutomaticEnd(pq, criterion, matrix, n, clusters, nClusters, limit, states, pairs, dunn, refused);
      if criterion.bestPartition.None? {
        return Err(NoPartitionSaved);
      }
      return Ok(criterion.bestPartition.value);
    }
    FinalCount(pq, matrix, n, clusters, nClusters, target.k, limit, states, pairs, dunn);
    result := Ok(clusters);
  }

  /** The state of the merge loop towards goal: the heap holds the keys of
      the live clusters, the loop so far is a single-linkage run within the
      merge limit, and the criterion, if any, remembers the best of its
      judged states. */
  ghost predicate Looping(pq: PairHeap, criterion: DunnMergeCriterion?, matrix: seq<real>, n: nat,
                          cl: seq<seq<nat>>, count: int, goal: int, limit: Option<real>,
                          states: seq<seq<seq<nat>>>, pairs: seq<(nat, nat)>, dunn: seq<(real, real)>)
    reads pq, criterion
  {
    && Merging(pq, matrix, n, cl, count)
    && Traced(matrix, n, cl, limit, states, pairs, dunn)
    && (count == n || count >= goal)
    && (criterion == null ==> limit.None?)
    && (criterion != null ==> criterion.mergeLimit == limit && Judging(criterion, matrix, n, cl, states, dunn))
    && (pairs != [] ==> n >= 2)
    && (pairs == [] ==> count == n)
  }

  /** The state after the criterion refused a merge: the run has stopped at
      its last judged pair, and the criterion remembers the best of its
      judged states. */
  ghost predicate Refused(criterion: DunnMergeCriterion?, matrix: seq<real>, n: nat, limit: Option<real>,
                          states: seq<seq<seq<nat>>>, pairs: seq<(nat, nat)>, dunn: seq<(real, real)>)
    reads criterion
  {
    && criterion != null && n >= 2 && pairs != []
    && Run(matrix, n, states, pairs) && DunnIndices(matrix, n, states, pairs, dunn)
    && Stopped(limit, states, dunn)
    && Remembered(states, dunn, criterion.bestDunn, criterion.bestPartition)
  }

  /** One round of the merge loop with its ghost bookkeeping: the closest
      pair of the last state extends the run, merged unless the criterion
      refuses it. */
  method Round(pq: PairHeap, criterion: DunnMergeCriterion?, lookup: seq<(nat, nat)>, matrix: seq<real>, n: nat,
               cl: seq<seq<nat>>, count: int, ghost goal: int, ghost limit: Option<real>,
               ghost states: seq<seq<seq<nat>>>, ghost pairs: seq<(nat, nat)>, ghost dunn: seq<(real, real)>)
    returns (proceed: bool, cl': seq<seq<nat>>, count': int,
             ghost states': seq<seq<seq<nat>>>, ghost pairs': seq<(nat, nat)>, ghost dunn': seq<(real, real)>)
    requires Looping(pq, criterion, matrix, n, cl, count, goal, limit, states, pairs, dunn)
    requires lookup == Lookup(n) && pq.heap != [] && count > goal
    modifies pq, criterion
    ensures proceed ==> count' < count
    ensures proceed ==> Looping(pq, criterion, matrix, n, cl', count', goal, limit, states', pairs', dunn')
    ensures !proceed ==> Refused(criterion, matrix, n, limit, states', pairs', dunn')
  {
    var i, j, d;
    proceed, i, j, d, cl', count' := Step(pq, criterion, lookup, matrix, n, cl, count, limit, states, dunn);
    Extend(matrix, n, cl, limit, states, pairs, dunn, i, j);
    pairs', dunn' := pairs + [(i, j)], dunn + [(d, LargestDiameter(matrix, n, cl, n))];
    states' := if proceed then states + [cl'] else states;
  }

  /** How the loop under the automatic target ends, refused or run out: the
      criterion keeps a partition exactly when there were two points or more,
      and that partition is the outcome of the target. */
  lemma AutomaticEnd(pq: PairHeap, criterion: DunnMergeCriterion?, matrix: seq<real>, n: nat,
                     cl: seq<seq<nat>>, count: int, limit: Option<real>,
                     states: seq<seq<seq<nat>>>, pairs: seq<(nat, nat)>, dunn: seq<(real, real)>, refused: bool)
    requires criterion != null && |matrix| == Triangle(n)
    requires refused ==> Refused(criterion, matrix, n, limit, states, pairs, dunn)
    requires !refused ==> Looping(pq, criterion, matrix, n, cl, count, 1, limit, states, pairs, dunn)
    requires !refused ==> !(|pq.heap| > 0 && count > 1)
    ensures criterion.bestPartition.Some? <==> n >= 2
    ensures criterion.bestPartition.Some? ==>
      Outcome(matrix, n, Automatic(limit), criterion.bestPartition.value) &&
      Partitions(criterion.bestPartition.value, n)
  {
    if !refused {
      Exhausted(pq, matrix, n, cl, count, limit, states, pairs, dunn);
    }
    AutomaticOutcome(matrix, n, limit, states, pairs, dunn, criterion.bestDunn, criterion.bestPartition);
    if criterion.bestPartition.Some? {
      OutcomePartitions(matrix, n, Automatic(limit), criterion.bestPartition.value);
    }
  }

  /** When the loop runs out without a refusal, the run has stopped with at
      most one cluster left, and it has judged a state unless it started
      with fewer than two points. */
  lemma Exhausted(pq: PairHeap, matrix: seq<real>, n: nat, cl: seq<seq<nat>>, count: int, limit: Option<real>,
                  states: seq<seq<seq<nat>>>, pairs: seq<(nat, nat)>, dunn: seq<(real, real)>)
    requires Merging(pq, matrix, n, cl, count) && Traced(matrix, n, cl, limit, states, pairs, dunn)
    requires !(|pq.heap| > 0 && count > 1) && (pairs == [] ==> count == n)
    ensures Stopped(limit, states, dunn)
    ensures n >= 2 ==> pairs != []
  {
    if count >= 2 {
      HeapNotEmpty(matrix, n, cl, pq.heap);
    }
  }

  /** A stopped run: the criterion keeps a partition exactly when the run
      judged a state, and that partition is the outcome of the automatic
      target. */
  lemma AutomaticOutcome(matrix: seq<real>, n: nat, limit: Option<real>, states: seq<seq<seq<nat>>>,
                         pairs: seq<(nat, nat)>, dunn: seq<(real, real)>,
                         bestDunn: Option<(real, real)>, bestPartition: Option<seq<seq<nat>>>)
    requires Run(matrix, n, states, pairs) && DunnIndices(matrix, n, states, pairs, dunn)
    requires Stopped(limit, states, dunn) && Remembered(states, dunn, bestDunn, bestPartition)
    ensures bestPartition.Some? <==> pairs != []
    ensures bestPartition.Some? ==> Outcome(matrix, n, Automatic(limit), bestPartition.value)
  {
    RememberedSome(states, dunn, bestDunn, bestPartition);
    if bestPartition.Some? {
      var b: nat :| BestDunn(dunn, b) && b < |states| && bestPartition == Some(Live(states[b]));
    }
  }

  /** Reads the closest pair of live clusters off the top of the heap,
      ordered so that the later slot j merges into the earlier slot i, and
      their single linkage d. */
  method ClosestPair(pq: PairHeap, lookup: seq<(nat, nat)>, matrix: seq<real>, n: nat,
                     cl: seq<seq<nat>>, count: int) returns (i: nat, j: nat, d: real)
    requires Merging(pq, matrix, n, cl, count) && lookup == Lookup(n) && pq.heap != []
    ensures ClosestLive(matrix, n, cl, i, j)
    ensures d == MinCross(matrix, n, cl[j], cl[i])
  {
    var top := pq.heap[0];
    var p := top.id;
    d := top.d;
    TopIsClosest(matrix, n, cl, pq.heap);
    i, j := lookup[p].0, lookup[p].1;
    if i > j {
      i, j := j, i;
    }
  }

  /** When the loop for a fixed target k runs out, ExpectedCount(n, k)
      clusters are left: the slots are the outcome of the target. */
  lemma FinalCount(pq: PairHeap, matrix: seq<real>, n: nat, cl: seq<seq<nat>>, count: int, k: int,
                   limit: Option<real>, states: seq<seq<seq<nat>>>, pairs: seq<(nat, nat)>, dunn: seq<(real, real)>)
    requires Merging(pq, matrix, n, cl, count) && Traced(matrix, n, cl, limit, states, pairs, dunn)
    requires count == n || count >= k
    requires !(|pq.heap| > 0 && count > k)
    ensures Partitions(cl, n) && |Live(cl)| == ExpectedCount(n, k)
    ensures Outcome(matrix, n, FixedK(k), cl)
  {
    if count >= 2 {
      HeapNotEmpty(matrix, n, cl, pq.heap);
    }
    assert |Live(cl)| == ExpectedCount(n, k);
    LivePartitions(cl, n);
    FixedOutcome(matrix, n, k, cl, limit, states, pairs, dunn);
  }

  /** The last state of a run with ExpectedCount(n, k) live clusters is the
      outcome of the fixed target k. */
  lemma FixedOutcome(matrix: seq<real>, n: nat, k: int, cl: seq<seq<nat>>,
                     limit: Option<real>, states: seq<seq<seq<nat>>>, pairs: seq<(nat, nat)>, dunn: seq<(real, real)>)
    requires Traced(matrix, n, cl, limit, states, pairs, dunn) && |Live(cl)| == ExpectedCount(n, k)
    ensures Outcome(matrix, n, FixedK(k), cl)
  {
  }

  /** Before the first round the run holds only the singletons. */
  lemma Started(matrix: seq<real>, n: nat, limit: Option<real>)
    requires |matrix| == Triangle(n)
    ensures Traced(matrix, n, seq(n, x => [x]), limit, [seq(n, x => [x])], [], [])
    ensures Remembered([seq(n, x => [x])], [], None, None)
  {
    Singletons(n);
  }

  /** One round of the merge loop: takes the closest pair (i, j) at
      distance d, shows it to the criterion if there is one, and unless the
      criterion refuses merges j into i, re-keying the heap. The criterion
      then remembers the best of the judged states of the run. */
  method Step(pq: PairHeap, criterion: DunnMergeCriterion?, lookup: seq<(nat, nat)>, matrix: seq<real>, n: nat,
              cl: seq<seq<nat>>, count: int, ghost limit: Option<real>,
              ghost states: seq<seq<seq<nat>>>, ghost dunn: seq<(real, real)>)
    returns (proceed: bool, i: nat, j: nat, d: real, cl': seq<seq<nat>>, count': int)
    requires Merging(pq, matrix, n, cl, count) && lookup == Lookup(n) && pq.heap != []
    requires |dunn| == |states| - 1 && states[|states| - 1] == cl
    requires criterion == null ==> limit.None?
    requires criterion != null ==> criterion.mergeLimit == limit && Judging(criterion, matrix, n, cl, states, dunn)
    modifies pq, criterion
    ensures ClosestLive(matrix, n, cl, i, j) && d == MinCross(matrix, n, cl[j], cl[i])
    ensures proceed <==> !Exceeds(limit, d)
    ensures proceed ==> cl' == Merge(cl, i, j) && count' == count - 1
    ensures !proceed ==> criterion != null && cl' == cl && count' == count
    ensures Merging(pq, matrix, n, cl', count')
    ensures criterion != null ==>
      Judging(criterion, matrix, n, cl', if proceed then states + [cl'] else states,
              dunn + [(d, LargestDiameter(matrix, n, cl, n))])
    ensures n >= 2
  {
    i, j, d := ClosestPair(pq, lookup, matrix, n, cl, count);
    cl', count' := cl, count;
    if criterion != null {
      proceed := Judge(criterion, matrix, n, cl, i, j, d, states, dunn);
      if !proceed {
        return;
      }
    }
    proceed := true;
    MergePair(pq, matrix, n, cl, i, j, count);
    cl', count' := Merge(cl, i, j), count - 1;
  }

  /** Shows the criterion the closest pair (i, j) at distance d: it judges
      the Dunn index (d, largest diameter of cl) and refuses the merge when d
      exceeds the merge limit. */
  method Judge(criterion: DunnMergeCriterion, matrix: seq<real>, n: nat, cl: seq<seq<nat>>,
               i: nat, j: nat, d: real, ghost states: seq<seq<seq<nat>>>, ghost dunn: seq<(real, real)>)
    returns (proceed: bool)
    requires |matrix| == Triangle(n) && Slots(cl, n) && Judging(criterion, matrix, n, cl, states, dunn)
    requires |dunn| == |states| - 1 && states[|states| - 1] == cl
    requires i < j < n && cl[i] != [] && cl[j] != []
    modifies criterion
    ensures proceed <==> !Exceeds(criterion.mergeLimit, d)
    ensures
      var dunn' := dunn + [(d, LargestDiameter(matrix, n, cl, n))];
      if proceed then Judging(criterion, matrix, n, Merge(cl, i, j), states + [Merge(cl, i, j)], dunn')
      else Judging(criterion, matrix, n, cl, states, dunn')
  {
    LargestIsMax(matrix, n, cl, criterion.maxDiameter);
    ghost var x := (d, criterion.maxDiameter);
    ghost var bestDunn, bestPartition := criterion.bestDunn, criterion.bestPartition;
    proceed := criterion.SaveAndMerge(cl, i, j, d);
    RememberStep(states, dunn, x, bestDunn, bestPartition, criterion.bestDunn, criterion.bestPartition);
    if proceed {
      RememberedLonger(states, [Merge(cl, i, j)], dunn + [x], criterion.bestDunn, criterion.bestPartition);
    }
  }

  /** Takes the pair (j, i) off the heap and re-keys the heap for the
      merge of slot j into slot i. */
  method MergePair(pq: PairHeap, matrix: seq<real>, n: nat, cl: seq<seq<nat>>, i: nat, j: nat, count: int)
    requires Merging(pq, matrix, n, cl, count) && i < j < n && cl[i] != [] && cl[j] != []
    modifies pq
    ensures Merging(pq, matrix, n, Merge(cl, i, j), count - 1)
  {
    ghost var keys := Keys(matrix, n, cl);
    KeyOf(matrix, n, cl, j, i);
    var p := Index(j, i);
    assert p in keys;
    ghost var top := Entry(keys[p], p);
    Locate(pq.heap, pq.where, top);
    ghost var h0 := pq.heap;
    pq.Remove(pq.where[p]);
    HoldsRemove(h0, keys, top, pq.heap);
    Rekey(pq, matrix, n, cl, i, j);
    MergedState(pq, matrix, n, cl, i, j, count);
  }

  /** After the re-keying the loop state holds for the merged slots. */
  lemma MergedState(pq: PairHeap, matrix: seq<real>, n: nat, cl: seq<seq<nat>>, i: nat, j: nat, count: int)
    requires |matrix| == Triangle(n) && SlotState(cl, n) && count == |Live(cl)| <= n
    requires i < j < n && cl[i] != [] && cl[j] != []
    requires pq.Valid() && |pq.where| == Triangle(n) && Slots(Merge(cl, i, j), n)
    requires Holds(pq.heap, Keys(matrix, n, Merge(cl, i, j)))
    ensures Merging(pq, matrix, n, Merge(cl, i, j), count - 1)
  {
    MergeState(cl, n, i, j);
  }

  // ---------------------------------------------------------------------------
  // The result

  /** The clusters as the caller receives them: non-empty, each strictly
      ascending and made of points below n, ordered by their first point,
      pairwise disjoint and together covering every point. */
  ghost predicate OrderedPartition(P: seq<seq<nat>>, n: nat) {
    && (forall t :: 0 <= t < |P| ==> P[t] != [] && StrictlyAscending(P[t]) && forall x :: x in P[t] ==> x < n)
    && (forall t, u :: 0 <= t < u < |P| ==> P[t][0] < P[u][0])
    && (forall t, u :: 0 <= t < |P| && 0 <= u < |P| && t != u ==> Disjoint(P[t], P[u]))
    && (forall x :: 0 <= x < n ==> Placed(P, x))
  }

  /** Point x carries the 1-based number of the cluster of P it lies in. */
  ghost predicate LabelsOf(labels: seq<nat>, P: seq<seq<nat>>, n: nat) {
    |labels| == n && forall x :: 0 <= x < n ==> 1 <= labels[x] <= |P| && x in P[labels[x] - 1]
  }

  /** A cluster sorted into ascending order. */
  function SortPoints(s: seq<nat>): (r: seq<nat>)
    ensures |r| == |s| && Ascending(r) && multiset(r) == multiset(s)
    ensures Distinct(s) ==> StrictlyAscending(r)
  {
    var r := Sort(s);
    assert forall p :: 0 <= p < |r| ==> r[p] >= 0 by {
      forall p | 0 <= p < |r| ensures r[p] >= 0 {
        assert r[p] in multiset(s);
      }
    }
    if Distinct(s) then SortOfDistinct(s); r else r
  }

  /** Every cluster sorted. */
  function SortEach(L: seq<seq<nat>>): (r: seq<seq<nat>>)
    ensures |r| == |L|
    ensures forall t :: 0 <= t < |L| ==> |r[t]| == |L[t]| && multiset(r[t]) == multiset(L[t])
    ensures forall t :: 0 <= t < |L| && Distinct(L[t]) ==> StrictlyAscending(r[t])
  {
    seq(|L|, t requires 0 <= t < |L| => SortPoints(L[t]))
  }

  /** Non-empty clusters in ascending order of their first points. */
  predicate ByFirst(P: seq<seq<nat>>) {
    && (forall t :: 0 <= t < |P| ==> P[t] != [])
    && forall t, u :: 0 <= t < u < |P| ==> P[t][0] <= P[u][0]
  }

  /** Dropping the first cluster keeps the order. */
  lemma ByFirstTail(P: seq<seq<nat>>)
    requires P != [] && ByFirst(P)
    ensures ByFirst(P[1..])
  {
    forall t, u | 0 <= t < u < |P[1..]| ensures P[1..][t][0] <= P[1..][u][0] {
      assert P[1..][t] == P[t + 1] && P[1..][u] == P[u + 1];
    }
  }

  /** A cluster whose first point is at most the first point of an ordered
      list can go in front of it. */
  lemma ByFirstCons(x: seq<nat>, P: seq<seq<nat>>)
    requires x != [] && ByFirst(P) && (P != [] ==> x[0] <= P[0][0])
    ensures ByFirst([x] + P)
  {
    forall t, u | 0 <= t < u < |[x] + P| ensures ([x] + P)[t][0] <= ([x] + P)[u][0] {
      if t == 0 {
        assert ([x] + P)[u] == P[u - 1];
        assert P[0][0] <= P[u - 1][0] || u == 1;
      } else {
        assert ([x] + P)[t] == P[t - 1] && ([x] + P)[u] == P[u - 1];
      }
    }
  }

  /** Stable insertion of the cluster c by its first point. */
  function InsertByFirst(c: seq<nat>, P: seq<seq<nat>>): (r: seq<seq<nat>>)
    requires c != [] && forall t :: 0 <= t < |P| ==> P[t] != []
    ensures |r| == |P| + 1 && forall t :: 0 <= t < |r| ==> r[t] != []
    ensures multiset(r) == multiset(P) + multiset{c}
    ensures r[0] == c || (P != [] && r[0] == P[0])
  {
    if P == [] then [c]
    else if c[0] <= P[0][0] then [c] + P
    else
      assert P == [P[0]] + P[1..];
      [P[0]] + InsertByFirst(c, P[1..])
  }

  /** Inserting into clusters ordered by first point keeps them ordered. */
  lemma {:induction false} InsertByFirstOrdered(c: seq<nat>, P: seq<seq<nat>>)
    requires c != [] && ByFirst(P)
    ensures ByFirst(InsertByFirst(c, P))
  {
    if P != [] && c[0] > P[0][0] {
      ByFirstTail(P);
      InsertByFirstOrdered(c, P[1..]);
      ByFirstCons(P[0], InsertByFirst(c, P[1..]));
    } else if P != [] {
      ByFirstCons(c, P);
    }
  }

  /** Stable sort of the clusters by their first point: a reordering of
      them, ascending by first point. */
  function SortByFirst(P: seq<seq<nat>>): (r: seq<seq<nat>>)
    requires forall t :: 0 <= t < |P| ==> P[t] != []
    ensures |r| == |P| && ByFirst(r)
    ensures multiset(r) == multiset(P)
  {
    if P == [] then []
    else
      assert P == [P[0]] + P[1..];
      var sorted := SortByFirst(P[1..]);
      InsertByFirstOrdered(P[0], sorted);
      InsertByFirst(P[0], sorted)
  }

  /** Clusters already ordered by distinct first points are left in place. */
  lemma {:induction false} SortByFirstOrdered(P: seq<seq<nat>>)
    requires forall t :: 0 <= t < |P| ==> P[t] != []
    requires forall t, u :: 0 <= t < u < |P| ==> P[t][0] < P[u][0]
    ensures SortByFirst(P) == P
  {
    if P != [] {
      var rest := P[1..];
      TailOrdered(P);
      SortByFirstOrdered(rest);
      InsertFirst(P[0], rest);
      assert [P[0]] + rest == P;
    }
  }

  lemma TailOrdered(P: seq<seq<nat>>)
    requires P != [] && forall t :: 0 <= t < |P| ==> P[t] != []
    requires forall t, u :: 0 <= t < u < |P| ==> P[t][0] < P[u][0]
    ensures forall t :: 0 <= t < |P[1..]| ==> P[1..][t] != []
    ensures forall t, u :: 0 <= t < u < |P[1..]| ==> P[1..][t][0] < P[1..][u][0]
    ensures P[1..] != [] ==> P[0][0] < P[1..][0][0]
  {
    forall t, u | 0 <= t < u < |P[1..]| ensures P[1..][t][0] < P[1..][u][0] {
      assert P[1..][t] == P[t + 1] && P[1..][u] == P[u + 1];
    }
  }

  /** A cluster whose first point precedes all others goes in front. */
  lemma InsertFirst(c: seq<nat>, P: seq<seq<nat>>)
    requires c != [] && forall t :: 0 <= t < |P| ==> P[t] != []
    requires P != [] ==> c[0] < P[0][0]
    ensures InsertByFirst(c, P) == [c] + P
  {
  }

  /** What the clustering hands back: the non-empty clusters, each sorted,
      ordered by their first point. */
  function Normalize(res: seq<seq<nat>>): (out: seq<seq<nat>>)
    ensures |out| == |Live(res)|
  {
    var sorted := SortEach(Live(res));
    assert forall t :: 0 <= t < |sorted| ==> sorted[t] != [] by {
      forall t | 0 <= t < |sorted| ensures sorted[t] != [] {
        assert Live(res)[t] != [];
      }
    }
    SortByFirst(sorted)
  }

  /** The t-th live cluster, sorted, holds the points of its slot and starts
      with the slot's anchor. */
  lemma SortedSlot(cl: seq<seq<nat>>, n: nat, t: nat)
    requires SlotState(cl, n) && t < |Live(cl)|
    ensures LiveSlots(cl)[t] < n && Live(cl)[t] == cl[LiveSlots(cl)[t]]
    ensures forall x :: x in SortEach(Live(cl))[t] <==> x in cl[LiveSlots(cl)[t]]
    ensures SortEach(Live(cl))[t] != [] && StrictlyAscending(SortEach(Live(cl))[t])
    ensures SortEach(Live(cl))[t][0] == LiveSlots(cl)[t]
  {
    var c := LiveSlots(cl)[t];
    var e := SortEach(Live(cl))[t];
    assert multiset(e) == multiset(cl[c]);
    forall x ensures x in e <==> x in cl[c] {
      assert x in e <==> x in multiset(e);
      assert x in cl[c] <==> x in multiset(cl[c]);
    }
    assert c in cl[c];
    var q :| 0 <= q < |e| && e[q] == c;
    assert e[0] in cl[c];
  }

  /** Sorting the live clusters of a valid slot state gives an ordered
      partition of the points. */
  lemma SortedLive(cl: seq<seq<nat>>, n: nat)
    requires SlotState(cl, n)
    ensures OrderedPartition(SortEach(Live(cl)), n)
  {
    var E := SortEach(Live(cl));
    forall t | 0 <= t < |E|
      ensures E[t] != [] && StrictlyAscending(E[t]) && forall x :: x in E[t] ==> x < n
    {
      SortedSlot(cl, n, t);
    }
    SortedHeads(cl, n);
    SortedDisjoint(cl, n);
    SortedCovers(cl, n);
  }

  lemma SortedHeads(cl: seq<seq<nat>>, n: nat)
    requires SlotState(cl, n)
    ensures forall t :: 0 <= t < |Live(cl)| ==> SortEach(Live(cl))[t] != []
    ensures forall t, u :: 0 <= t < u < |Live(cl)| ==> SortEach(Live(cl))[t][0] < SortEach(Live(cl))[u][0]
  {
    var E := SortEach(Live(cl));
    forall t | 0 <= t < |E| ensures E[t] != [] {
      SortedSlot(cl, n, t);
    }
    forall t, u | 0 <= t < u < |E| ensures E[t][0] < E[u][0] {
      SortedSlot(cl, n, t);
      SortedSlot(cl, n, u);
    }
  }

  lemma SortedDisjoint(cl: seq<seq<nat>>, n: nat)
    requires SlotState(cl, n)
    ensures forall t, u :: 0 <= t < |Live(cl)| && 0 <= u < |Live(cl)| && t != u ==>
      Disjoint(SortEach(Live(cl))[t], SortEach(Live(cl))[u])
  {
    var E := SortEach(Live(cl));
    var S := LiveSlots(cl);
    forall t, u | 0 <= t < |E| && 0 <= u < |E| && t != u ensures Disjoint(E[t], E[u]) {
      SortedSlot(cl, n, t);
      SortedSlot(cl, n, u);
      assert S[t] != S[u];
    }
  }

  lemma SortedCovers(cl: seq<seq<nat>>, n: nat)
    requires SlotState(cl, n)
    ensures forall x :: 0 <= x < n ==> Placed(SortEach(Live(cl)), x)
  {
    forall x | 0 <= x < n ensures Placed(SortEach(Live(cl)), x) {
      SortedPlaced(cl, x);
    }
  }

  lemma SortedPlaced(cl: seq<seq<nat>>, x: nat)
    requires Placed(cl, x)
    ensures Placed(SortEach(Live(cl)), x)
  {
    var c :| 0 <= c < |cl| && x in cl[c];
    assert cl[c] in Live(cl);
    var t :| 0 <= t < |Live(cl)| && Live(cl)[t] == cl[c];
    SortedMembers(Live(cl), t);
    assert x in SortEach(Live(cl))[t];
  }

  /** Sorting a cluster keeps its points. */
  lemma SortedMembers(L: seq<seq<nat>>, t: nat)
    requires t < |L|
    ensures forall x :: x in SortEach(L)[t] <==> x in L[t]
  {
    var e := SortEach(L)[t];
    forall x ensures x in e <==> x in L[t] {
      assert x in e <==> x in multiset(e);
      assert x in L[t] <==> x in multiset(L[t]);
    }
  }

  /** The result of any run is an ordered partition with one cluster per
      live slot. */
  lemma NormalizeOrdered(res: seq<seq<nat>>, n: nat)
    requires Partitions(res, n)
    ensures OrderedPartition(Normalize(res), n)
  {
    var cl :| SlotState(cl, n) && Live(res) == Live(cl);
    SortedLive(cl, n);
    SortByFirstOrdered(SortEach(Live(cl)));
  }

  /** Labelling an ordered partition gives every point the number of its
      cluster. */
  lemma Labelled(P: seq<seq<nat>>, n: nat, labels: seq<nat>)
    requires OrderedPartition(P, n)
    requires |labels| == n && forall x :: 0 <= x < n ==> labels[x] == Helpers.Label(P, x)
    ensures LabelsOf(labels, P, n)
  {
    forall x | 0 <= x < n ensures 1 <= labels[x] <= |P| && x in P[labels[x] - 1] {
      assert Placed(P, x);
      var t :| 0 <= t < |P| && x in P[t];
      Helpers.LabelOfMember(P, t, x);
    }
  }

  /** Clusters the n points whose pairwise distances the lower-triangular
      table holds, and reports them as cluster lists or as per-point labels.
      The 'dominant' mode has no result. */
  method Agglomerate(n: nat, matrix: seq<real>, target: Target, mode: Mode) returns (r: Result<Output, Failure>)
    requires |matrix| == Triangle(n)
    ensures mode == Dominant <==> r == Err(DominantUnsupported)
    ensures mode != Dominant ==> (r.Err? <==> target.Automatic? && n <= 1)
    ensures r.Ok? && mode == ClusterLists ==>
      && r.value.Clusters? && OrderedPartition(r.value.clusters, n)
      && (target.FixedK? ==> |r.value.clusters| == ExpectedCount(n, target.k))
      && exists res :: Outcome(matrix, n, target, res) && r.value.clusters == Normalize(res)
    ensures r.Ok? && mode == ComponentLabels ==>
      && r.value.Components?
      && exists res :: Outcome(matrix, n, target, res)
           && OrderedPartition(Normalize(res), n) && LabelsOf(r.value.labels, Normalize(res), n)
           && (target.FixedK? ==> |Normalize(res)| == ExpectedCount(n, target.k))
  {
    if mode == Dominant {
      return Err(DominantUnsupported);
    }
    var merged := MergeClusters(matrix, n, target);
    if merged.Err? {
      return Err(merged.error);
    }
    var result := Normalize(merged.value);
    NormalizeOrdered(merged.value, n);
    if mode == ClusterLists {
      r := Ok(Clusters(result));
    } else {
      var labels := Helpers.Components(result, n);
      Labelled(result, n, labels);
      r := Ok(Components(labels));
    }
  }
}
