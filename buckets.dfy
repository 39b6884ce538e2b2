/**
 * The value-level view of a chained hash table: a sequence of chains, one per
 * bucket, each chain listed front to back. HashTable.HashSet keeps its chains
 * in an array of such sequences; everything proved here is about the values
 * the array holds.
 */
module Buckets {
  import opened Sequences

  /** The chains laid end to end: bucket 0 first, each chain front to back.
      This is the order in which a resize re-inserts the old nodes. */
  function Flatten<T>(b: seq<seq<T>>): seq<T>
  {
    if |b| == 0 then [] else Flatten(b[..|b| - 1]) + b[|b| - 1]
  }

  /** The sum of the chain lengths, bucket by bucket. */
  function SumLengths<T>(b: seq<seq<T>>): nat
  {
    if |b| == 0 then 0 else SumLengths(b[..|b| - 1]) + |b[|b| - 1]|
  }

  /** Everything stored in some chain. */
  ghost function Elements<T>(b: seq<seq<T>>): set<T>
  {
    set i, k | 0 <= i < |b| && 0 <= k < |b[i]| :: b[i][k]
  }

  /** Every element sits in the chain of its home bucket, `hash(e) % cap`. */
  ghost predicate Placed<T>(hash: T -> nat, b: seq<seq<T>>, cap: nat)
    requires cap > 0
  {
    forall i, k :: 0 <= i < |b| && 0 <= k < |b[i]| ==> hash(b[i][k]) % cap == i
  }

  /** No chain holds the same element twice. */
  ghost predicate ChainsDistinct<T>(b: seq<seq<T>>)
  {
    forall i, k, l :: 0 <= i < |b| && 0 <= k < l < |b[i]| ==> b[i][k] != b[i][l]
  }

  /** What `addNode` does to the chains: `x` goes at the tail of the chain of
      bucket `hash(x) % cap`, every other chain is left as it is. */
  function AppendToChain<T>(hash: T -> nat, b: seq<seq<T>>, x: T, cap: nat): (r: seq<seq<T>>)
    requires |b| == cap > 0
    ensures |r| == cap
    ensures r[hash(x) % cap] == b[hash(x) % cap] + [x]
    ensures forall i :: 0 <= i < cap && i != hash(x) % cap ==> r[i] == b[i]
  {
    b[hash(x) % cap := b[hash(x) % cap] + [x]]
  }

  /** The elements of `xs` whose home bucket for capacity `cap` is `i`, in the
      order they occur in `xs`. */
  function Chain<T>(hash: T -> nat, xs: seq<T>, cap: nat, i: nat): seq<T>
    requires cap > 0
  {
    if |xs| == 0 then []
    else
      var last := xs[|xs| - 1];
      Chain(hash, xs[..|xs| - 1], cap, i) + (if hash(last) % cap == i then [last] else [])
  }

  /** The table of `cap` buckets in which bucket `i` holds exactly the
      elements of `xs` that hash to `i`, in their order in `xs`. */
  function Distribute<T>(hash: T -> nat, xs: seq<T>, cap: nat): (r: seq<seq<T>>)
    requires cap > 0
    ensures |r| == cap
  {
    seq(cap, i requires 0 <= i < cap => Chain(hash, xs, cap, i))
  }

  // ---------------------------------------------------------------------------
  // Lemmas about flattening and sizes

  lemma {:induction false} FlattenLength<T>(b: seq<seq<T>>)
    ensures |Flatten(b)| == SumLengths(b)
  {
    if |b| > 0 {
      FlattenLength(b[..|b| - 1]);
    }
  }

  lemma {:induction false} ElementsSnoc<T>(b: seq<seq<T>>)
    requires |b| > 0
    ensures Elements(b) == Elements(b[..|b| - 1]) + Members(b[|b| - 1])
  {
    var p := b[..|b| - 1];
    forall x | x in Elements(b) ensures x in Elements(p) || x in b[|b| - 1] {
      var i, k :| 0 <= i < |b| && 0 <= k < |b[i]| && b[i][k] == x;
      if i < |b| - 1 {
        assert p[i][k] == x;
      }
    }
    forall x | x in Elements(p) ensures x in Elements(b) {
      var i, k :| 0 <= i < |p| && 0 <= k < |p[i]| && p[i][k] == x;
      assert b[i][k] == x;
    }
    forall x | x in b[|b| - 1] ensures x in Elements(b) {
      var k :| 0 <= k < |b[|b| - 1]| && b[|b| - 1][k] == x;
      assert b[|b| - 1][k] == x;
    }
  }

  /** An element is in the flattened table exactly when it is in some chain. */
  lemma {:induction false} InFlatten<T>(b: seq<seq<T>>, x: T)
    ensures x in Flatten(b) <==> x in Elements(b)
  {
    if |b| > 0 {
      InFlatten(b[..|b| - 1], x);
      ElementsSnoc(b);
    }
  }

  lemma {:induction false} SumLengthsUpdate<T>(b: seq<seq<T>>, h: nat, c: seq<T>)
    requires h < |b|
    ensures SumLengths(b[h := c]) == SumLengths(b) - |b[h]| + |c|
  {
    var n := |b| - 1;
    if h < n {
      assert b[h := c][..n] == b[..n][h := c];
      SumLengthsUpdate(b[..n], h, c);
    } else {
      assert b[h := c][..n] == b[..n];
    }
  }

  /** Placement and distinct chains together mean that no element is stored
      twice anywhere in the table. */
  lemma {:induction false} FlattenDistinct<T>(hash: T -> nat, b: seq<seq<T>>, cap: nat)
    requires cap > 0 && Placed(hash, b, cap) && ChainsDistinct(b)
    ensures Distinct(Flatten(b))
  {
    if |b| > 0 {
      var n := |b| - 1;
      var p := b[..n];
      assert Placed(hash, p, cap) by {
        forall i, k | 0 <= i < |p| && 0 <= k < |p[i]| ensures hash(p[i][k]) % cap == i {
          assert p[i][k] == b[i][k];
        }
      }
      assert ChainsDistinct(p) by {
        forall i, k, l | 0 <= i < |p| && 0 <= k < l < |p[i]| ensures p[i][k] != p[i][l] {
          assert p[i] == b[i];
        }
      }
      FlattenDistinct(hash, p, cap);
      var f, c := Flatten(p), b[n];
      assert Flatten(b) == f + c;
      forall i, j | 0 <= i < j < |f + c| ensures (f + c)[i] != (f + c)[j] {
        if i < |f| <= j {
          var x := f[i];
          InFlatten(p, x);
          var pi, pk :| 0 <= pi < |p| && 0 <= pk < |p[pi]| && p[pi][pk] == x;
          assert hash(b[pi][pk]) % cap == pi;
          assert hash(b[n][j - |f|]) % cap == n;
        } else if |f| <= i {
          assert (f + c)[i] == b[n][i - |f|] && (f + c)[j] == b[n][j - |f|];
        }
      }
    }
  }

  /** In a table that keeps its invariant, the number of distinct elements
      stored is the sum of the chain lengths. */
  lemma CardinalityIsSumLengths<T>(hash: T -> nat, b: seq<seq<T>>, cap: nat)
    requires cap > 0 && Placed(hash, b, cap) && ChainsDistinct(b)
    ensures |Elements(b)| == SumLengths(b)
  {
    FlattenDistinct(hash, b, cap);
    DistinctCardinality(Flatten(b));
    assert Members(Flatten(b)) == Elements(b) by {
      forall x ensures x in Flatten(b) <==> x in Elements(b) {
        InFlatten(b, x);
      }
    }
    FlattenLength(b);
  }

  /** In a placed table, membership is decided by the home chain alone,
      which is why `contains` only walks that one chain. */
  lemma HomeChainDecides<T>(hash: T -> nat, b: seq<seq<T>>, x: T)
    requires |b| > 0 && Placed(hash, b, |b|)
    ensures x in Elements(b) <==> x in b[hash(x) % |b|]
  {
    if x in Elements(b) {
      var i, k :| 0 <= i < |b| && 0 <= k < |b[i]| && b[i][k] == x;
    }
    if x in b[hash(x) % |b|] {
      var k :| 0 <= k < |b[hash(x) % |b|]| && b[hash(x) % |b|][k] == x;
    }
  }

  // ---------------------------------------------------------------------------
  // Appending one element

  /** Appending an absent element keeps every element in its home chain and
      every chain free of duplicates, adds exactly that element, and makes the
      chains one longer in total. */
  lemma AppendToChainKeepsInvariant<T>(hash: T -> nat, b: seq<seq<T>>, x: T, cap: nat)
    requires |b| == cap > 0
    requires Placed(hash, b, cap) && ChainsDistinct(b) && x !in Elements(b)
    ensures var r := AppendToChain(hash, b, x, cap);
      && Placed(hash, r, cap)
      && ChainsDistinct(r)
      && Elements(r) == Elements(b) + {x}
      && SumLengths(r) == SumLengths(b) + 1
  {
    var h := hash(x) % cap;
    var r := AppendToChain(hash, b, x, cap);
    assert ChainsDistinct(r) by {
      forall i, k, l | 0 <= i < |r| && 0 <= k < l < |r[i]| ensures r[i][k] != r[i][l] {
        if i == h && l == |b[h]| {
          assert r[i][k] == b[h][k];
        }
      }
    }
    forall y | y in Elements(r) ensures y in Elements(b) + {x} {
      var i, k :| 0 <= i < |r| && 0 <= k < |r[i]| && r[i][k] == y;
      if i != h || k < |b[h]| {
        assert b[i][k] == y;
      }
    }
    forall y | y in Elements(b) ensures y in Elements(r) {
      var i, k :| 0 <= i < |b| && 0 <= k < |b[i]| && b[i][k] == y;
      assert r[i][k] == y;
    }
    assert r[h][|b[h]|] == x;
    SumLengthsUpdate(b, h, b[h] + [x]);
  }

  // ---------------------------------------------------------------------------
  // Rehashing

  /** Adding one more element to the sequence being distributed is the same as
      appending it to its home chain: re-inserting nodes one at a time with
      `addNode` builds `Distribute`. */
  lemma DistributeSnoc<T>(hash: T -> nat, xs: seq<T>, y: T, cap: nat)
    requires cap > 0
    ensures Distribute(hash, xs + [y], cap) == AppendToChain(hash, Distribute(hash, xs, cap), y, cap)
  {
    var l := Distribute(hash, xs + [y], cap);
    var r := AppendToChain(hash, Distribute(hash, xs, cap), y, cap);
    assert (xs + [y])[..|xs|] == xs;
    forall i | 0 <= i < cap ensures l[i] == r[i] {
      assert l[i] == Chain(hash, xs + [y], cap, i);
    }
  }


  /** Distributing a duplicate-free sequence yields a table that keeps the
      invariant and holds exactly the elements of the sequence. */
  lemma {:induction false} DistributeKeepsInvariant<T>(hash: T -> nat, xs: seq<T>, cap: nat)
    requires cap > 0 && Distinct(xs)
    ensures var r := Distribute(hash, xs, cap);
      && Placed(hash, r, cap)
      && ChainsDistinct(r)
      && Elements(r) == Members(xs)
      && SumLengths(r) == |xs|
  {
    if |xs| == 0 {
      DistributeEmptyKeepsInvariant(hash, cap);
    } else {
      var p, y := xs[..|xs| - 1], xs[|xs| - 1];
      assert Distinct(p) by {
        forall i, j | 0 <= i < j < |p| ensures p[i] != p[j] {
          assert p[i] == xs[i] && p[j] == xs[j];
        }
      }
      DistributeKeepsInvariant(hash, p, cap);
      assert xs == p + [y];
      DistributeSnoc(hash, p, y, cap);
      assert y !in p by {
        forall i | 0 <= i < |p| ensures p[i] != y {
          assert p[i] == xs[i];
        }
      }
      AppendToChainKeepsInvariant(hash, Distribute(hash, p, cap), y, cap);
      assert Members(xs) == Members(p) + {y};
    }
  }

  lemma DistributeEmptyKeepsInvariant<T>(hash: T -> nat, cap: nat)
    requires cap > 0
    ensures Placed(hash, Distribute(hash, [], cap), cap)
    ensures ChainsDistinct(Distribute(hash, [], cap))
    ensures Elements(Distribute(hash, [], cap)) == {}
    ensures SumLengths(Distribute(hash, [], cap)) == 0
  {
    var r := Distribute(hash, [], cap);
    assert forall i :: 0 <= i < cap ==> r[i] == [];
    assert Elements(r) == {};
    ZeroSums(r, cap);
    assert r[..cap] == r;
  }

  lemma {:induction false} ZeroSums<T>(r: seq<seq<T>>, n: nat)
    requires n <= |r| && forall i :: 0 <= i < |r| ==> r[i] == []
    ensures SumLengths(r[..n]) == 0
  {
    if n > 0 {
      assert r[..n][..n - 1] == r[..n - 1];
      ZeroSums(r, n - 1);
    }
  }
}
