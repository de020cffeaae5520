/** Flat addressing of the strictly lower triangle of an n-by-n distance
    table. The pair (i, j) with i > j lives in slot j + i*(i-1)/2: row i starts
    right after the i*(i-1)/2 slots of rows 0 .. i-1. */
module PairIndex {

  /** Number of pairs (i, j) with j < i < n, i.e. n*(n-1)/2. */
  function Triangle(n: nat): (t: nat)
    ensures t == n * (n - 1) / 2
  {
    if n == 0 then 0 else Triangle(n - 1) + (n - 1)
  }

  /** The slot of the pair (i, j), i > j. */
  function Index(i: nat, j: nat): (z: nat)
    requires j < i
  {
    j + ((i - 1) * i) / 2
  }

  /** Row i of the table occupies the slots [Triangle(i), Triangle(i + 1)). */
  lemma IndexBounds(i: nat, j: nat)
    requires j < i
    ensures Triangle(i) <= Index(i, j) < Triangle(i + 1)
  {
  }

  /** Distinct pairs get distinct slots. */
  lemma IndexInjective(i: nat, j: nat, i': nat, j': nat)
    requires j < i && j' < i'
    requires Index(i, j) == Index(i', j')
    ensures i == i' && j == j'
  {
    IndexBounds(i, j);
    IndexBounds(i', j');
    if i < i' {
      TriangleMonotone(i + 1, i');
    } else if i' < i {
      TriangleMonotone(i' + 1, i);
    }
  }

  lemma {:induction false} TriangleMonotone(a: nat, b: nat)
    requires a <= b
    ensures Triangle(a) <= Triangle(b)
  {
    if a < b {
      TriangleMonotone(a, b - 1);
    }
  }

  /** Every pair of n points has a slot inside the table of size Triangle(n). */
  lemma IndexInTable(n: nat, i: nat, j: nat)
    requires j < i < n
    ensures Index(i, j) < Triangle(n)
  {
    IndexBounds(i, j);
    TriangleMonotone(i + 1, n);
  }

  /** The table of pairs in slot order: the rows i = 0, 1, ..., n - 1, each
      listing (i, 0), ..., (i, i - 1). */
  function Lookup(n: nat): (r: seq<(nat, nat)>)
    ensures |r| == Triangle(n)
  {
    if n == 0 then [] else Lookup(n - 1) + seq(n - 1, j => (n - 1, j))
  }

  /** Slot z of the lookup table holds a proper pair whose slot is z. */
  lemma {:induction false} LookupPair(n: nat, z: nat)
    requires z < Triangle(n)
    ensures Lookup(n)[z].1 < Lookup(n)[z].0 < n
    ensures Index(Lookup(n)[z].0, Lookup(n)[z].1) == z
  {
    if z < Triangle(n - 1) {
      LookupPair(n - 1, z);
      assert Lookup(n)[z] == Lookup(n - 1)[z];
    } else {
      assert Lookup(n)[z] == (n - 1, z - Triangle(n - 1));
    }
  }

  /** Conversely the pair (i, j) sits in the lookup table at its own slot: the
      slot numbering is a bijection between the pairs and 0 .. Triangle(n)-1. */
  lemma LookupIndex(n: nat, i: nat, j: nat)
    requires j < i < n
    ensures Index(i, j) < Triangle(n)
    ensures Lookup(n)[Index(i, j)] == (i, j)
  {
    IndexInTable(n, i, j);
    var z := Index(i, j);
    LookupPair(n, z);
    IndexInjective(i, j, Lookup(n)[z].0, Lookup(n)[z].1);
  }
}
