/** The binary min-heap of cluster pairs that drives agglomerative
    clustering, together with its position index: `where[z]` is the slot of
    the entry for pair z, kept current by every move so that any pair can be
    found, re-keyed or removed in logarithmic time. */
module Heap {
  import opened Basics

  /** A heap entry: the current linkage distance of a pair of clusters and
      the pair's position in the distance table, which is unique among the
      entries. The source also carries the pair of points along; it is never
      read, and with unique ids it never decides a comparison. */
  datatype Entry = Entry(d: real, id: nat)

  /** Entries compare by distance, ties broken by id. */
  predicate Lt(a: Entry, b: Entry) {
    a.d < b.d || (a.d == b.d && a.id < b.id)
  }

  predicate Le(a: Entry, b: Entry) {
    !Lt(b, a)
  }

  /** The parent slot, -1 for the root. */
  function Parent(c: nat): int {
    (c + 1) / 2 - 1
  }

  /** Heap order on every edge whose parent slot is lo or later, except the
      edges leaving `hole`. */
  ghost predicate OrderedExcept(h: seq<Entry>, lo: nat, hole: int) {
    forall c :: 0 < c < |h| && lo <= Parent(c) && Parent(c) != hole ==> Le(h[Parent(c)], h[c])
  }

  /** Heap order on every edge except the one entering `hole`. */
  ghost predicate OrderedBut(h: seq<Entry>, hole: int) {
    forall c :: 0 < c < |h| && c != hole ==> Le(h[Parent(c)], h[c])
  }

  ghost predicate Ordered(h: seq<Entry>) {
    OrderedExcept(h, 0, -1)
  }

  /** The parent of slot i (when it is lo or later) is no greater than the
      children of i: what lets an entry move between them. */
  ghost predicate Bridge(h: seq<Entry>, lo: nat, i: nat) {
    i < |h| && 0 < i && lo <= Parent(i) ==>
      forall c :: 0 < c < |h| && Parent(c) == i ==> Le(h[Parent(i)], h[c])
  }

  /** The position index is current for every entry. */
  ghost predicate Indexed(h: seq<Entry>, w: seq<nat>) {
    forall q :: 0 <= q < |h| ==> h[q].id < |w| && w[h[q].id] == q
  }

  /** The index is current for every entry except the one in the hole i,
      which is xp sinking or rising through the heap. */
  ghost predicate IndexedBut(h: seq<Entry>, w: seq<nat>, i: nat, xp: Entry) {
    && xp.id < |w|
    && forall q :: 0 <= q < |h| && q != i ==> h[q].id < |w| && w[h[q].id] == q && h[q].id != xp.id
  }

  /** Moving the entry of slot j into the hole i and recording that in the
      index moves the hole to j. */
  lemma IndexStep(h: seq<Entry>, w: seq<nat>, i: nat, j: nat, xp: Entry)
    requires i < |h| && j < |h| && i != j && IndexedBut(h, w, i, xp)
    ensures IndexedBut(h[i := h[j]], w[h[j].id := i], j, xp)
  {
  }

  lemma IndexDone(h: seq<Entry>, w: seq<nat>, i: nat, xp: Entry)
    requires i < |h| && IndexedBut(h, w, i, xp)
    ensures Indexed(h[i := xp], w[xp.id := i])
  {
  }

  lemma HoleStep(heap: seq<Entry>, i: nat, j: nat, xp: Entry)
    requires i < |heap| && j < |heap| && i != j
    ensures heap[i := heap[j]][j := xp] == Swap(heap[i := xp], i, j)
  {
  }

  lemma ParentFacts(c: nat)
    ensures Parent(2 * c + 1) == c && Parent(2 * c + 2) == c
    ensures c > 0 ==> 0 <= Parent(c) < c
    ensures c > 0 ==> c == 2 * Parent(c) + 1 || c == 2 * Parent(c) + 2
  {
  }

  /** The root of an ordered heap is no greater than any entry. */
  lemma {:induction false} RootIsLeast(h: seq<Entry>, q: nat)
    requires Ordered(h) && q < |h|
    ensures Le(h[0], h[q])
    decreases q
  {
    if q > 0 {
      ParentFacts(q);
      RootIsLeast(h, Parent(q));
    }
  }

  /** The entry present in an indexed heap is found through its id. */
  lemma Locate(h: seq<Entry>, w: seq<nat>, e: Entry)
    requires Indexed(h, w) && e in h
    ensures e.id < |w| && w[e.id] < |h| && h[w[e.id]] == e
  {
    var q :| 0 <= q < |h| && h[q] == e;
  }

  /** Ids are unique in an indexed heap, so no entry occurs twice. */
  lemma UniqueIds(h: seq<Entry>, w: seq<nat>)
    requires Indexed(h, w)
    ensures forall p, q :: 0 <= p < |h| && 0 <= q < |h| && h[p].id == h[q].id ==> p == q
    ensures Distinct(h)
  {
  }

  /** Taking one entry out of the multiset of an indexed heap removes exactly
      that entry from the entries present. */
  lemma TakeOut(h: seq<Entry>, w: seq<nat>, s: nat, h': seq<Entry>)
    requires Indexed(h, w) && s < |h|
    requires multiset(h') == multiset(h) - multiset{h[s]}
    ensures forall e :: e in h' <==> e in h && e != h[s]
  {
    UniqueIds(h, w);
    DistinctOnce(h, s);
    forall e ensures e in h' <==> e in h && e != h[s] {
      assert e in h' <==> e in multiset(h');
      assert e in h <==> e in multiset(h);
    }
  }

  /** An ordered, indexed heap holds exactly the entries that `want` maps out:
      one entry per key, carrying the key's distance. */
  ghost predicate Holds(h: seq<Entry>, want: map<nat, real>) {
    && (forall e :: e in h ==> e.id in want && want[e.id] == e.d)
    && (forall z :: z in want ==> Entry(want[z], z) in h)
  }

  /** One step of sifting down: the smaller child j of the hole i is smaller
      than the entry sinking through the hole, and the two trade places. */
  lemma DownStep(h: seq<Entry>, lo: nat, i: nat, j: nat)
    requires lo <= i && j < |h| && (j == 2 * i + 1 || j == 2 * i + 2)
    requires OrderedExcept(h, lo, i) && Bridge(h, lo, i)
    requires forall c :: 0 < c < |h| && Parent(c) == i ==> Le(h[j], h[c])
    requires Lt(h[j], h[i])
    ensures OrderedExcept(Swap(h, i, j), lo, j) && Bridge(Swap(h, i, j), lo, j)
  {
    ParentFacts(i);
    ParentFacts(j);
    var h' := Swap(h, i, j);
    forall c | 0 < c < |h'| && lo <= Parent(c) && Parent(c) != j ensures Le(h'[Parent(c)], h'[c]) {
      ParentFacts(c);
    }
    forall c | 0 < c < |h'| && Parent(c) == j ensures Le(h'[Parent(j)], h'[c]) {
      ParentFacts(c);
    }
  }

  /** The child of i that sinking compares against: the right child when it
      exists and is smaller than the left one. */
  function SmallerChild(h: seq<Entry>, i: nat, j: nat, e: int): (k: nat)
    requires j == 2 * i + 1 && j <= e == |h| - 1
    ensures k == j || k == j + 1
    ensures k < |h| && Parent(k) == i
    ensures forall c :: 0 < c < |h| && Parent(c) == i ==> Le(h[k], h[c])
  {
    ParentFacts(i);
    assert forall c :: 0 < c < |h| && Parent(c) == i ==> c == j || c == j + 1 by {
      forall c | 0 < c < |h| && Parent(c) == i ensures c == j || c == j + 1 {
        ParentFacts(c);
      }
    }
    if j < e && Lt(h[j + 1], h[j]) then j + 1 else j
  }

  /** Sifting down ends when the hole has no child smaller than the entry. */
  lemma DownDone(h: seq<Entry>, lo: nat, i: nat)
    requires i < |h| && OrderedExcept(h, lo, i)
    requires forall c :: 0 < c < |h| && Parent(c) == i ==> Le(h[i], h[c])
    ensures OrderedExcept(h, lo, -1)
  {
  }

  /** One step of sifting up: the entry in the hole i is smaller than its
      parent p, and the two trade places. */
  lemma UpStep(h: seq<Entry>, i: nat, p: nat)
    requires i < |h| && 0 < i && p == Parent(i)
    requires OrderedBut(h, i) && Bridge(h, 0, i)
    requires Lt(h[i], h[p])
    ensures OrderedBut(Swap(h, i, p), p) && Bridge(Swap(h, i, p), 0, p)
  {
    ParentFacts(i);
    ParentFacts(p);
    var h' := Swap(h, i, p);
    forall c | 0 < c < |h'| && c != p ensures Le(h'[Parent(c)], h'[c]) {
      ParentFacts(c);
    }
    forall c | 0 < c < |h'| && Parent(c) == p && 0 < p ensures Le(h'[Parent(p)], h'[c]) {
      ParentFacts(c);
    }
  }

  /** Once the edge from slot i to its parent is in order, a heap ordered
      everywhere but there is ordered. */
  lemma RepairedAbove(h: seq<Entry>, i: nat)
    requires OrderedBut(h, i)
    requires i == 0 || i >= |h| || Le(h[Parent(i)], h[i])
    ensures Ordered(h)
  {
  }

  /** Storing a greater entry at slot s of an ordered heap leaves only the
      edges below s to repair. */
  lemma RaiseKey(h: seq<Entry>, s: nat, xp: Entry)
    requires Ordered(h) && s < |h| && Lt(h[s], xp)
    ensures OrderedExcept(h[s := xp], 0, s) && Bridge(h[s := xp], 0, s)
  {
    var h' := h[s := xp];
    forall c | 0 < c < |h'| && Parent(c) == s && 0 < s ensures Le(h'[Parent(s)], h'[c]) {
      ParentFacts(c);
      ParentFacts(s);
      assert Le(h[Parent(s)], h[s]);
    }
  }

  /** Storing a smaller entry at slot s of an ordered heap leaves only the
      edge above s to repair. */
  lemma LowerKey(h: seq<Entry>, s: nat, xp: Entry)
    requires Ordered(h) && s < |h| && Lt(xp, h[s])
    ensures OrderedBut(h[s := xp], s) && Bridge(h[s := xp], 0, s)
  {
    var h' := h[s := xp];
    forall c | 0 < c < |h'| && c != s ensures Le(h'[Parent(c)], h'[c]) {
      ParentFacts(c);
    }
    forall c | 0 < c < |h'| && Parent(c) == s && 0 < s ensures Le(h'[Parent(s)], h'[c]) {
      ParentFacts(c);
      ParentFacts(s);
      assert Le(h[Parent(s)], h[s]);
    }
  }

  /** No edge has its parent in the second half of the heap. */
  lemma LeavesOrdered(h: seq<Entry>)
    ensures OrderedExcept(h, |h| / 2, -1)
  {
    forall c | 0 < c < |h| ensures Parent(c) < |h| / 2 {
      ParentFacts(c);
    }
  }

  lemma MultisetRemove(h: seq<Entry>, s: nat)
    requires s < |h|
    ensures s < |h| - 1 ==> multiset(h[..|h| - 1][s := h[|h| - 1]]) == multiset(h) - multiset{h[s]}
    ensures s == |h| - 1 ==> multiset(h[..|h| - 1]) == multiset(h) - multiset{h[s]}
  {
    assert h == h[..|h| - 1] + [h[|h| - 1]];
    if s < |h| - 1 {
      var t := h[..|h| - 1];
      assert h == t + [h[|h| - 1]];
      assert t == t[..s] + [h[s]] + t[s + 1..];
      assert t[s := h[|h| - 1]] == t[..s] + [h[|h| - 1]] + t[s + 1..];
    }
  }

  /** Dropping the last slot keeps the heap ordered and indexed; the entry
      dropped may take the place of any other slot s. */
  lemma DropLast(h: seq<Entry>, w: seq<nat>, s: nat)
    requires Ordered(h) && Indexed(h, w) && s < |h|
    ensures Ordered(h[..|h| - 1]) && Indexed(h[..|h| - 1], w)
    ensures s < |h| - 1 ==> h[|h| - 1] != h[s] && h[|h| - 1].id < |w| && w[h[|h| - 1].id] == |h| - 1
    ensures s < |h| - 1 ==> Indexed(h[..|h| - 1], w[h[|h| - 1].id := s])
  {
    UniqueIds(h, w);
  }

  lemma MultisetMoveLast(h: seq<Entry>, s: nat, t: seq<Entry>, last: Entry)
    requires s < |h| - 1 && t == h[..|h| - 1] && last == h[|h| - 1]
    ensures multiset(t[s := last]) == multiset(h) - multiset{h[s]}
  {
    MultisetRemove(h, s);
  }

  /** Taking an entry out drops its key. */
  lemma HoldsRemove(h: seq<Entry>, want: map<nat, real>, e: Entry, h': seq<Entry>)
    requires Holds(h, want) && e in h
    requires forall x :: x in h' <==> x in h && x != e
    ensures Holds(h', want - {e.id})
  {
  }

  /** Replacing an entry by one with the same id re-keys that id. */
  lemma HoldsReplace(h: seq<Entry>, want: map<nat, real>, e: Entry, xp: Entry, h': seq<Entry>)
    requires Holds(h, want) && e in h && xp.id == e.id
    requires forall x :: x in h' <==> (x in h && x != e) || x == xp
    ensures Holds(h', want[e.id := xp.d])
  {
  }

  /** Storing xp, whose id is not elsewhere in the heap, over slot s
      replaces exactly the entry of that slot. */
  lemma ReplaceEntry(h: seq<Entry>, w: seq<nat>, s: nat, xp: Entry, h': seq<Entry>)
    requires Indexed(h, w) && s < |h|
    requires xp.id < |w| && w[xp.id] == s
    requires multiset(h') == multiset(h[s := xp])
    ensures forall e :: e in h' <==> (e in h && e != h[s]) || e == xp
  {
    UniqueIds(h, w);
    forall e ensures e in h' <==> (e in h && e != h[s]) || e == xp {
      assert e in h' <==> e in multiset(h[s := xp]);
      if e in h && e != h[s] {
        var q :| 0 <= q < |h| && h[q] == e;
        assert h[s := xp][q] == e;
      }
      if e in h[s := xp] && e != xp {
        var q :| 0 <= q < |h| && h[s := xp][q] == e;
        assert q != s && h[q] == e;
      }
    }
  }

  /** The heap of pair entries with its position index. */
  class PairHeap {
    var heap: seq<Entry>
    var where: seq<nat>

    ghost predicate Valid()
      reads this
    {
      Ordered(heap) && Indexed(heap, where)
    }

    /** One entry per slot of the distance table, keyed by its distance and
        indexed by its slot, then heap-ordered bottom-up. */
    constructor (matrix: seq<real>)
      ensures Valid()
      ensures multiset(heap) == multiset(seq(|matrix|, z requires 0 <= z < |matrix| => Entry(matrix[z], z)))
      ensures |heap| == |matrix| && |where| == |matrix|
    {
      where := seq(|matrix|, z => z);
      heap := seq(|matrix|, z requires 0 <= z < |matrix| => Entry(matrix[z], z));
      new;
      LeavesOrdered(heap);
      var s := |heap| / 2 - 1;
      while s >= 0
        invariant -1 <= s < |heap|
        invariant OrderedExcept(heap, s + 1, -1) && Indexed(heap, where)
        invariant multiset(heap) == multiset(seq(|matrix|, z requires 0 <= z < |matrix| => Entry(matrix[z], z)))
        invariant |heap| == |matrix| && |where| == |matrix|
      {
        ShiftDown(s, s);
        s := s - 1;
      }
    }

    /** Sinks the entry at slot s until neither child is smaller. Every edge
        with its parent at lo or later is in order afterwards, provided that
        only the edges leaving s were out of order before. */
    method ShiftDown(s: nat, ghost lo: nat)
      requires lo <= s < |heap|
      requires OrderedExcept(heap, lo, s) && Bridge(heap, lo, s)
      requires Indexed(heap, where)
      modifies this
      ensures OrderedExcept(heap, lo, -1) && Indexed(heap, where)
      ensures multiset(heap) == multiset(old(heap))
      ensures |heap| == |old(heap)| && |where| == |old(where)|
    {
      var e := |heap| - 1;
      var i: nat := s;
      var j := 2 * i + 1;
      if j > e {
        DownDone(heap, lo, i);
        return;
      }
      var hp: seq<Entry>, w: seq<nat> := heap, where;
      var xp := hp[i];
      ghost var h := hp;
      assert hp[i := xp] == hp;
      while j <= e
        invariant lo <= i <= e == |hp| - 1 && j == 2 * i + 1
        invariant |h| == |hp| == |old(heap)| && h == hp[i := xp] && |w| == |old(where)|
        invariant multiset(h) == multiset(old(heap))
        invariant OrderedExcept(h, lo, i) && Bridge(h, lo, i)
        invariant IndexedBut(hp, w, i, xp)
        decreases |hp| - i
      {
        j := SmallerChild(hp, i, j, e);
        assert forall c :: 0 < c < |h| && Parent(c) == i ==> Le(h[j], h[c]) by {
          ParentFacts(i);
          forall c | 0 < c < |h| && Parent(c) == i ensures Le(h[j], h[c]) {
            ParentFacts(c);
          }
        }
        if Le(xp, hp[j]) {
          break;
        }
        DownStep(h, lo, i, j);
        IndexStep(hp, w, i, j, xp);
        HoleStep(hp, i, j, xp);
        SwapPermutes(h, i, j);
        w := w[hp[j].id := i];
        hp := hp[i := hp[j]];
        h := Swap(h, i, j);
        i := j;
        j := 2 * i + 1;
      }
      assert forall c :: 0 < c < |h| && Parent(c) == i ==> Le(h[i], h[c]) by {
        forall c | 0 < c < |h| && Parent(c) == i ensures Le(h[i], h[c]) {
          ParentFacts(c);
        }
      }
      DownDone(h, lo, i);
      IndexDone(hp, w, i, xp);
      heap := hp[i := xp];
      where := w[xp.id := i];
    }

    /** Lifts the entry at slot s while its parent is greater. The heap is in
        order afterwards, provided that only the edge entering s was out of
        order before. */
    method ShiftUp(s: nat)
      requires s < |heap|
      requires OrderedBut(heap, s) && Bridge(heap, 0, s)
      requires Indexed(heap, where)
      modifies this
      ensures Ordered(heap) && Indexed(heap, where)
      ensures multiset(heap) == multiset(old(heap))
      ensures |heap| == |old(heap)| && |where| == |old(where)|
    {
      var i: nat := s;
      var j := (i + 1) / 2 - 1;
      if j < 0 {
        RepairedAbove(heap, i);
        return;
      }
      var hp: seq<Entry>, w: seq<nat> := heap, where;
      var xp := hp[i];
      ghost var h := hp;
      assert hp[i := xp] == hp;
      while j >= 0
        invariant 0 <= i < |hp| && j == Parent(i)
        invariant |h| == |hp| == |old(heap)| && h == hp[i := xp] && |w| == |old(where)|
        invariant multiset(h) == multiset(old(heap))
        invariant OrderedBut(h, i) && Bridge(h, 0, i)
        invariant IndexedBut(hp, w, i, xp)
        decreases i
      {
        ParentFacts(i);
        if Le(hp[j], xp) {
          break;
        }
        UpStep(h, i, j);
        IndexStep(hp, w, i, j, xp);
        HoleStep(hp, i, j, xp);
        SwapPermutes(h, i, j);
        w := w[hp[j].id := i];
        hp := hp[i := hp[j]];
        h := Swap(h, i, j);
        i := j;
        j := (i + 1) / 2 - 1;
      }
      RepairedAbove(h, i);
      IndexDone(hp, w, i, xp);
      heap := hp[i := xp];
      where := w[xp.id := i];
    }

    /** Replaces the entry at slot s by xp, which the index already places at
        s, and restores the order by moving it down or up. */
    method Update(s: nat, xp: Entry)
      requires Valid() && s < |heap|
      requires xp.id < |where| && where[xp.id] == s && xp != heap[s]
      modifies this
      ensures Valid()
      ensures multiset(heap) == multiset(old(heap)[s := xp])
      ensures forall e :: e in heap <==> (e in old(heap) && e != old(heap)[s]) || e == xp
      ensures |heap| == |old(heap)| && |where| == |old(where)|
    {
      ghost var h0, w0 := heap, where;
      var xxpp := heap[s];
      if Lt(xxpp, xp) {
        RaiseKey(heap, s, xp);
        heap := heap[s := xp];
        ShiftDown(s, 0);
      } else {
        LowerKey(heap, s, xp);
        heap := heap[s := xp];
        ShiftUp(s);
      }
      ReplaceEntry(h0, w0, s, xp, heap);
    }

    /** Deletes the entry at slot s: the last entry takes its place and is
        moved to where it belongs. */
    method Remove(s: nat)
      requires Valid() && s < |heap|
      modifies this
      ensures Valid()
      ensures multiset(heap) == multiset(old(heap)) - multiset{old(heap)[s]}
      ensures forall e :: e in heap <==> e in old(heap) && e != old(heap)[s]
      ensures |heap| == |old(heap)| - 1 && |where| == |old(where)|
    {
      ghost var h0, w0 := heap, where;
      if s == |heap| - 1 {
        MultisetRemove(heap, s);
        DropLast(heap, where, s);
        heap := heap[..|heap| - 1];
      } else {
        FillFromLast(s);
      }
      TakeOut(h0, w0, s, heap);
    }

    /** The else branch of Remove: the last entry is cut off and re-inserted
        in slot s in place of the entry there. */
    method FillFromLast(s: nat)
      requires Valid() && s < |heap| - 1
      modifies this
      ensures Valid()
      ensures multiset(heap) == multiset(old(heap)) - multiset{old(heap)[s]}
      ensures |heap| == |old(heap)| - 1 && |where| == |old(where)|
    {
      ghost var h0 := heap;
      DropLast(heap, where, s);
      var xxpp := heap[|heap| - 1];
      heap := heap[..|heap| - 1];
      ghost var t := heap;
      MultisetMoveLast(h0, s, t, xxpp);
      where := where[xxpp.id := s];
      Update(s, xxpp);
    }
  }
}
