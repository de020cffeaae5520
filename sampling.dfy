/** Sampling without replacement without materialising the domain: a
    Fisher-Yates shuffle of 0 .. n-1 that keeps only the slots it has
    overwritten (a sparse override map), and its use for drawing tuples from a
    box of index ranges through mixed-radix decoding.

    The random number generator is not modelled: the draws are an input,
    draws[i] standing for the value randint(i, n - 1) returns in step i. */
module Sampling {
  import opened Basics

  /** The draws one full run of the shuffle consumes: one per step i in
      0 .. n-2, each within [i, n - 1]. */
  predicate ValidDraws(draws: seq<nat>, n: nat) {
    && (if n == 0 then |draws| == 0 else |draws| == n - 1)
    && forall i :: 0 <= i < |draws| ==> i <= draws[i] < n
  }

  /** The logical content of slot k: its override if it has one, else k. */
  function Nth(overrides: map<int, int>, k: int): int {
    if k in overrides then overrides[k] else k
  }

  /** Reference definition: the textbook Fisher-Yates shuffle on a fully
      materialised list, performing the exchanges of steps i, i+1, ... */
  function DenseShuffle(s: seq<int>, draws: seq<nat>, i: nat): seq<int>
    requires |s| == |draws| + 1
    requires forall k :: i <= k < |draws| ==> k <= draws[k] < |s|
    decreases |draws| - i
  {
    if i >= |draws| then s
    else DenseShuffle(Swap(s, i, draws[i]), draws, i + 1)
  }

  /** The dense shuffle only permutes: it keeps the multiset of values and
      keeps a list free of repetitions. */
  lemma {:induction false} DenseShufflePermutes(s: seq<int>, draws: seq<nat>, i: nat)
    requires |s| == |draws| + 1
    requires forall k :: i <= k < |draws| ==> k <= draws[k] < |s|
    ensures |DenseShuffle(s, draws, i)| == |s|
    ensures multiset(DenseShuffle(s, draws, i)) == multiset(s)
    ensures Distinct(s) ==> Distinct(DenseShuffle(s, draws, i))
    decreases |draws| - i
  {
    if i < |draws| {
      var t := Swap(s, i, draws[i]);
      SwapPermutes(s, i, draws[i]);
      DenseShufflePermutes(t, draws, i + 1);
      if Distinct(s) {
        forall p, q | 0 <= p < q < |t| ensures t[p] != t[q] {
          var p' := if p == i then draws[i] else if p == draws[i] then i else p;
          var q' := if q == i then draws[i] else if q == draws[i] then i else q;
          assert t[p] == s[p'] && t[q] == s[q'];
        }
      }
    }
  }

  /** A permutation of 0 .. n-1: n values, none repeated, exactly the
      numbers below n. */
  ghost predicate IsPermutationOfRange(s: seq<int>, n: nat) {
    && |s| == n
    && Distinct(s)
    && forall v :: v in s <==> 0 <= v < n
  }

  /** All of 0 .. n-1 in random order, each exactly once. The map holds the
      slots whose content differs from their index; the shuffle yields one
      value per step, then the content of the last slot. With n = 0 the one
      value yielded is the content of slot -1, that is -1. */
  method ShuffledRange(n: nat, draws: seq<nat>) returns (out: seq<int>)
    requires ValidDraws(draws, n)
    ensures n == 0 ==> out == [-1]
    ensures n > 0 ==> out == DenseShuffle(Range(n), draws, 0)
    ensures n > 0 ==> IsPermutationOfRange(out, n)
  {
    var a: map<int, int> := map[];
    out := [];
    ghost var perm := Range(n);
    var i := 0;
    while i < n - 1
      invariant if n == 0 then i == 0 && a == map[] else i <= n - 1
      invariant |perm| == n && out == perm[..i]
      invariant forall k :: i <= k < n ==> Nth(a, k) == perm[k]
      invariant n > 0 ==> DenseShuffle(perm, draws, i) == DenseShuffle(Range(n), draws, 0)
    {
      var ai := Nth(a, i);
      var j := draws[i];
      var aj := Nth(a, j);
      ShuffleStep(a, perm, i, j);
      assert DenseShuffle(perm, draws, i) == DenseShuffle(Swap(perm, i, j), draws, i + 1);
      a := a[j := ai];
      out := out + [aj];
      perm := Swap(perm, i, j);
      i := i + 1;
    }
    if n > 0 {
      assert i == n - 1 && Nth(a, n - 1) == perm[n - 1];
      AppendLast(perm, out);
    }
    out := out + [Nth(a, n - 1)];
    if n > 0 {
      RangeIsPermutation(n, draws);
    }
  }

  lemma AppendLast(s: seq<int>, prefix: seq<int>)
    requires |s| > 0 && prefix == s[..|s| - 1]
    ensures prefix + [s[|s| - 1]] == s
  {
  }

  /** One step of the sparse shuffle does to the logical slots what one
      exchange of the dense shuffle does to the list. */
  lemma ShuffleStep(a: map<int, int>, perm: seq<int>, i: nat, j: nat)
    requires i <= j < |perm|
    requires forall k :: i <= k < |perm| ==> Nth(a, k) == perm[k]
    ensures forall k :: i + 1 <= k < |perm| ==> Nth(a[j := Nth(a, i)], k) == Swap(perm, i, j)[k]
    ensures Swap(perm, i, j)[..i + 1] == perm[..i] + [Nth(a, j)]
  {
  }

  /** The dense shuffle of 0 .. n-1 is a permutation of 0 .. n-1. */
  lemma RangeIsPermutation(n: nat, draws: seq<nat>)
    requires n > 0 && ValidDraws(draws, n)
    ensures IsPermutationOfRange(DenseShuffle(Range(n), draws, 0), n)
  {
    var out := DenseShuffle(Range(n), draws, 0);
    DenseShufflePermutes(Range(n), draws, 0);
    forall v ensures v in out <==> 0 <= v < n {
      assert v in out <==> v in multiset(Range(n));
      if 0 <= v < n {
        assert Range(n)[v] == v;
      }
    }
  }

  /** Product of the radices: the number of tuples in the box. */
  function Product(radices: seq<nat>): nat {
    if radices == [] then 1 else radices[0] * Product(radices[1..])
  }

  lemma {:induction false} ProductSnoc(radices: seq<nat>, x: nat)
    ensures Product(radices + [x]) == Product(radices) * x
  {
    if radices != [] {
      assert (radices + [x])[1..] == radices[1..] + [x];
      ProductSnoc(radices[1..], x);
    }
  }

  predicate Positive(radices: seq<nat>) {
    forall a :: 0 <= a < |radices| ==> radices[a] > 0
  }

  /** A tuple inside the box: one coordinate per radix, each below it. */
  predicate InBox(r: seq<nat>, radices: seq<nat>) {
    |r| == |radices| && forall a :: 0 <= a < |r| ==> r[a] < radices[a]
  }

  /** Mixed-radix decoding of a flat index, least significant coordinate
      first. */
  function Decode(z: nat, radices: seq<nat>): (r: seq<nat>)
    requires Positive(radices)
    ensures InBox(r, radices)
    decreases radices
  {
    if radices == [] then []
    else
      var x := radices[0];
      assert Positive(radices[1..]) by {
        assert forall a :: 0 <= a < |radices| - 1 ==> radices[1..][a] == radices[a + 1];
      }
      var rest := Decode(z / x, radices[1..]);
      var r := [z % x] + rest;
      assert InBox(r, radices) by {
        assert r[0] < x;
        assert forall a :: 1 <= a < |r| ==> r[a] == rest[a - 1] && radices[a] == radices[1..][a - 1];
      }
      r
  }

  /** Splits a flat index into its digits, least significant first, by
      repeated division. */
  method DecodeIndex(z: nat, radices: seq<nat>) returns (r: seq<nat>)
    requires Positive(radices)
    ensures r == Decode(z, radices)
  {
    r := [];
    var m := z;
    assert radices[0..] == radices;
    for a := 0 to |radices|
      invariant Positive(radices[a..])
      invariant r + Decode(m, radices[a..]) == Decode(z, radices)
    {
      var x := radices[a];
      assert x == radices[a..][0] && x > 0;
      DecodeStep(m, radices[a..]);
      assert radices[a..][1..] == radices[a + 1..];
      QuotientNat(m, x);
      var d, q := m % x, m / x;
      ConcatDigit(r, d, Decode(q, radices[a + 1..]));
      r := r + [d];
      m := q;
    }
    assert radices[|radices|..] == [];
  }

  /** One digit of Decode: the remainder, then the decoding of the quotient. */
  lemma DecodeStep(m: nat, radices: seq<nat>)
    requires Positive(radices) && radices != []
    ensures Positive(radices[1..])
    ensures Decode(m, radices) == [m % radices[0]] + Decode(m / radices[0], radices[1..])
  {
    assert forall a :: 0 <= a < |radices| - 1 ==> radices[1..][a] == radices[a + 1];
  }

  lemma QuotientNat(m: nat, x: nat)
    requires x > 0
    ensures m / x >= 0 && 0 <= m % x < x
  {
  }

  lemma ConcatDigit(r: seq<nat>, d: nat, rest: seq<nat>)
    ensures r + ([d] + rest) == (r + [d]) + rest
  {
  }

  /** The inverse of Decode: the flat index of a tuple. */
  function Encode(r: seq<nat>, radices: seq<nat>): nat
    requires InBox(r, radices)
  {
    if r == [] then 0 else r[0] + radices[0] * Encode(r[1..], radices[1..])
  }

  /** Every tuple of the box has a flat index below Product, and decoding it
      gives the tuple back. */
  lemma {:induction false} DecodeEncode(r: seq<nat>, radices: seq<nat>)
    requires Positive(radices) && InBox(r, radices)
    ensures Encode(r, radices) < Product(radices)
    ensures Decode(Encode(r, radices), radices) == r
    decreases radices
  {
    if r != [] {
      var x, e := radices[0], Encode(r[1..], radices[1..]);
      TailFacts(r, radices);
      DecodeEncode(r[1..], radices[1..]);
      DivModOfDigit(r[0], x, e);
      DigitBound(r[0], x, e, Product(radices[1..]));
      assert Decode(Encode(r, radices), radices) == [r[0]] + r[1..];
    }
  }

  /** A digit below x followed by a rest below p stays below x * p. */
  lemma DigitBound(d: nat, x: nat, e: nat, p: nat)
    requires d < x && e < p
    ensures d + x * e < x * p
  {
    MulMonotone(x, e + 1, p);
  }

  /** Every flat index below Product decodes to a tuple that encodes back to it. */
  lemma {:induction false} EncodeDecode(z: nat, radices: seq<nat>)
    requires Positive(radices) && z < Product(radices)
    ensures Encode(Decode(z, radices), radices) == z
    decreases radices
  {
    if radices != [] {
      var x := radices[0];
      var q, m := z / x, z % x;
      var p := Product(radices[1..]);
      assert Positive(radices[1..]) by {
        assert forall a :: 0 <= a < |radices| - 1 ==> radices[1..][a] == radices[a + 1];
      }
      assert x * q + m == z;
      assert q < p by {
        if q >= p {
          MulMonotone(x, p, q);
        }
      }
      EncodeDecode(q, radices[1..]);
      var r := Decode(z, radices);
      assert r[0] == m && r[1..] == Decode(q, radices[1..]);
      assert Encode(r, radices) == m + x * Encode(r[1..], radices[1..]);
    }
  }

  lemma TailFacts(r: seq<nat>, radices: seq<nat>)
    requires Positive(radices) && InBox(r, radices) && r != []
    ensures Positive(radices[1..]) && InBox(r[1..], radices[1..])
  {
    assert forall a :: 0 <= a < |radices| - 1 ==> radices[1..][a] == radices[a + 1];
    assert forall a :: 0 <= a < |r| - 1 ==> r[1..][a] == r[a + 1];
  }

  lemma MulMonotone(x: nat, a: int, b: int)
    requires a <= b
    ensures x * a <= x * b
  {
    assert x * b == x * a + x * (b - a);
  }

  /** Euclidean division undoes one mixed-radix digit step. */
  lemma DivModOfDigit(d: nat, x: nat, e: nat)
    requires d < x
    ensures (d + x * e) % x == d && (d + x * e) / x == e
  {
    var z := d + x * e;
    var q, m := z / x, z % x;
    assert x * q + m == z;
    assert x * (q - e) == x * q - x * e;
    QuotientUnique(x, q - e, d, m);
  }

  lemma QuotientUnique(x: int, k: int, d: int, m: int)
    requires x > 0 && 0 <= d < x && 0 <= m < x && x * k == d - m
    ensures k == 0
  {
    if k >= 1 {
      MulAtLeast(x, k);
    } else if k <= -1 {
      MulAtLeast(x, -k);
    }
  }

  lemma MulAtLeast(x: int, k: int)
    requires x >= 0 && k >= 1
    ensures x * k >= x
  {
    assert x * k == x * (k - 1) + x;
  }

  /** out is the shuffle of the flat indices 0 .. Product-1 that the draws
      determine, each index decoded into its tuple of the box. */
  predicate DecodedShuffle(out: seq<seq<nat>>, radices: seq<nat>, draws: seq<nat>) {
    && Positive(radices)
    && Product(radices) > 0
    && ValidDraws(draws, Product(radices))
    && |out| == Product(radices)
    && var shuffled := DenseShuffle(Range(Product(radices)), draws, 0);
       && |shuffled| == |out|
       && forall p :: 0 <= p < |out| ==> 0 <= shuffled[p] && out[p] == Decode(shuffled[p], radices)
  }

  /** Uniformly random tuples of the box spanned by the radices, without
      repetition: the shuffled flat indices 0 .. Product-1, each decoded. All
      tuples of the box are produced, each once. */
  method ShuffledTuples(radices: seq<nat>, draws: seq<nat>) returns (out: seq<seq<nat>>)
    requires Positive(radices)
    requires ValidDraws(draws, Product(radices))
    ensures |out| == Product(radices)
    ensures forall p :: 0 <= p < |out| ==> InBox(out[p], radices)
    ensures Distinct(out)
    ensures forall r :: InBox(r, radices) ==> r in out
    ensures DecodedShuffle(out, radices, draws)
  {
    var n := 1;
    for a := 0 to |radices|
      invariant n == Product(radices[..a])
    {
      ProductSnoc(radices[..a], radices[a]);
      assert radices[..a + 1] == radices[..a] + [radices[a]];
      n := n * radices[a];
    }
    assert radices[..|radices|] == radices;
    assert n > 0 by {
      PositiveProduct(radices);
    }
    var indices := ShuffledRange(n, draws);
    out := [];
    for p := 0 to n
      invariant |out| == p
      invariant forall q :: 0 <= q < p ==> 0 <= indices[q] < n && out[q] == Decode(indices[q], radices)
    {
      assert indices[p] in indices;
      var r := DecodeIndex(indices[p], radices);
      out := out + [r];
    }
    forall p, q | 0 <= p < q < |out| ensures out[p] != out[q] {
      EncodeDecode(indices[p], radices);
      EncodeDecode(indices[q], radices);
    }
    forall r | InBox(r, radices) ensures r in out {
      DecodeEncode(r, radices);
      var z := Encode(r, radices);
      assert z in indices;
      var p :| 0 <= p < |indices| && indices[p] == z;
      assert out[p] == r;
    }
  }

  lemma {:induction false} PositiveProduct(radices: seq<nat>)
    requires Positive(radices)
    ensures Product(radices) > 0
  {
    if radices != [] {
      PositiveProduct(radices[1..]);
    }
  }
}
