/**
 * The chained hash set of HashSet.hpp. The bucket array `arrPtr` becomes
 * `buckets`, an array whose cell `i` holds the chain of bucket `i` front to
 * back; `capacity` and `currSize` are the source's fields of the same names.
 * The hash function is supplied by the caller, as in the source.
 */
module HashTable {
  import opened Sequences
  import opened Buckets

  /** The capacity of a freshly constructed set (HashSet.hpp:16). */
  const DefaultCapacity: nat := 10

  /** The resize test of HashSet.hpp:247, as written: the unsigned integer
      quotient `currSize / capacity`, converted to double, compared with 0.8. */
  predicate ShouldResize(currSize: nat, capacity: nat)
    requires capacity > 0
  {
    (currSize / capacity) as real > 0.8
  }

  /** The truncating quotient is 0 until the size reaches the capacity, so the
      test fires exactly when the size before insertion is at least the
      capacity, not when the load would pass 0.8. */
  lemma ShouldResizeIff(currSize: nat, capacity: nat)
    requires capacity > 0
    ensures ShouldResize(currSize, capacity) <==> currSize >= capacity
  {
    if currSize < capacity {
      assert currSize / capacity == 0;
    }
  }

  class HashSet<T(==)> {
    const hashFunction: T -> nat
    var buckets: array<seq<T>>
    var capacity: nat
    var currSize: nat

    /** The invariant every public operation keeps: one chain per bucket,
        every element in its home chain, no chain with a repeated element,
        `currSize` the total chain length, and at most one element per
        bucket on average. */
    ghost predicate Valid()
      reads this, buckets
    {
      && buckets.Length == capacity
      && capacity > 0
      && Placed(hashFunction, buckets[..], capacity)
      && ChainsDistinct(buckets[..])
      && currSize == SumLengths(buckets[..])
      && currSize <= capacity
    }

    /** The set this table represents. */
    ghost function Contents(): set<T>
      reads this, buckets
    {
      Elements(buckets[..])
    }

    /** HashSet.hpp:119-125: capacity 10, every bucket empty, size 0. */
    constructor (hash: T -> nat)
      ensures Valid() && fresh(buckets)
      ensures hashFunction == hash
      ensures capacity == DefaultCapacity && currSize == 0
      ensures forall i :: 0 <= i < buckets.Length ==> buckets[i] == []
      ensures Contents() == {}
    {
      hashFunction := hash;
      capacity := DefaultCapacity;
      currSize := 0;
      buckets := new seq<T>[DefaultCapacity];
      new;
      FillEmpty();
      DistributeEmptyKeepsInvariant(hashFunction, capacity);
      assert buckets[..] == Distribute(hashFunction, [], capacity);
    }

    /** HashSet.hpp:289-295: every bucket of the current array becomes empty. */
    method FillEmpty()
      requires buckets.Length == capacity
      modifies buckets
      ensures forall i :: 0 <= i < buckets.Length ==> buckets[i] == []
    {
      var i := 0;
      while i < capacity
        invariant 0 <= i <= capacity
        invariant forall k :: 0 <= k < i ==> buckets[k] == []
      {
        buckets[i] := [];
        i := i + 1;
      }
    }

    /** HashSet.hpp:297-315: append at the tail of the home chain and count
        one more element; no membership check. */
    method AddNode(x: T)
      requires buckets.Length == capacity > 0
      modifies buckets, this`currSize
      ensures buckets[..] == AppendToChain(hashFunction, old(buckets[..]), x, capacity)
      ensures currSize == old(currSize) + 1
    {
      var h := hashFunction(x) % capacity;
      buckets[h] := buckets[h] + [x];
      currSize := currSize + 1;
    }

    /** HashSet.hpp:243-286. Insert-if-absent. When the resize test fires, the
        new element first goes into the old array; then the capacity doubles
        (HashSet.hpp:254 -- the comment at HashSet.hpp:50-54 says `*2+1`), the
        count restarts at 0 (HashSet.hpp:258) and the old chains are
        re-appended bucket by bucket, each front to back (HashSet.hpp:260-270). */
    method Add(x: T)
      requires Valid()
      modifies this, buckets
      ensures Valid()
      ensures Contents() == old(Contents()) + {x}
      ensures x in old(Contents()) ==>
        buckets == old(buckets) && buckets[..] == old(buckets[..]) &&
        capacity == old(capacity) && currSize == old(currSize)
      ensures x !in old(Contents()) ==> currSize == old(currSize) + 1
      ensures x !in old(Contents()) && old(currSize) < old(capacity) ==>
        buckets == old(buckets) && capacity == old(capacity) &&
        buckets[..] == AppendToChain(hashFunction, old(buckets[..]), x, capacity)
      ensures x !in old(Contents()) && old(currSize) >= old(capacity) ==>
        fresh(buckets) && capacity == 2 * old(capacity) &&
        buckets[..] == Distribute(hashFunction,
          Flatten(AppendToChain(hashFunction, old(buckets[..]), x, old(capacity))), capacity)
    {
      var present := Contains(x);
      if !present {
        ShouldResizeIff(currSize, capacity);
        AppendToChainKeepsInvariant(hashFunction, buckets[..], x, capacity);
        if ShouldResize(currSize, capacity) {
          AddNode(x);
          ghost var all := buckets[..];
          Rehash();
          FlattenDistinct(hashFunction, all, old(capacity));
          DistributeKeepsInvariant(hashFunction, Flatten(all), capacity);
          FlattenLength(all);
          assert Members(Flatten(all)) == Elements(all) by {
            forall y ensures y in Flatten(all) <==> y in Elements(all) {
              InFlatten(all, y);
            }
          }
        } else {
          AddNode(x);
        }
      }
    }

    /** HashSet.hpp:251-270: the resize proper. A fresh array of twice the
        capacity replaces the old one, the count restarts at 0, and every node
        of the old array is re-appended with `addNode`, bucket 0 first and
        each chain front to back. */
    method Rehash()
      requires buckets.Length == capacity > 0
      modifies this
      ensures fresh(buckets) && capacity == 2 * old(capacity)
      ensures buckets[..] == Distribute(hashFunction, Flatten(old(buckets[..])), capacity)
      ensures currSize == |Flatten(old(buckets[..]))|
    {
      var oldBuckets := buckets;
      var oldCapacity := capacity;
      ghost var all := buckets[..];
      capacity := capacity * 2;
      buckets := new seq<T>[capacity];
      FillEmpty();
      currSize := 0;
      assert buckets[..] == Distribute(hashFunction, [], capacity);
      assert Flatten(all[..0]) == [];
      var i := 0;
      while i < oldCapacity
        invariant 0 <= i <= oldCapacity
        invariant buckets.Length == capacity == 2 * oldCapacity
        invariant fresh(buckets)
        invariant oldBuckets[..] == all
        invariant buckets[..] == Distribute(hashFunction, Flatten(all[..i]), capacity)
        invariant currSize == |Flatten(all[..i])|
      {
        ghost var done := Flatten(all[..i]);
        var chain := oldBuckets[i];
        var j := 0;
        assert done + chain[..0] == done;
        while j < |chain|
          invariant 0 <= j <= |chain|
          invariant buckets.Length == capacity == 2 * oldCapacity
          invariant fresh(buckets)
          invariant oldBuckets[..] == all
          invariant buckets[..] == Distribute(hashFunction, done + chain[..j], capacity)
          invariant currSize == |done + chain[..j]|
        {
          DistributeSnoc(hashFunction, done + chain[..j], chain[j], capacity);
          assert done + chain[..j + 1] == (done + chain[..j]) + [chain[j]];
          AddNode(chain[j]);
          j := j + 1;
        }
        assert all[..i + 1][..i] == all[..i];
        assert chain[..j] == chain;
        i := i + 1;
      }
      assert all[..oldCapacity] == all;
    }

    /** HashSet.hpp:318-336: walk the home chain only. */
    method Contains(x: T) returns (found: bool)
      requires Valid()
      ensures found <==> x in Contents()
    {
      var chain := buckets[hashFunction(x) % capacity];
      var k := 0;
      while k < |chain|
        invariant 0 <= k <= |chain|
        invariant x !in chain[..k]
      {
        if chain[k] == x {
          HomeChainDecides(hashFunction, buckets[..], x);
          return true;
        }
        k := k + 1;
      }
      assert chain[..k] == chain;
      HomeChainDecides(hashFunction, buckets[..], x);
      return false;
    }

    /** HashSet.hpp:340-343: the stored count, which is both the total chain
        length and the number of distinct elements held. */
    method Size() returns (n: nat)
      requires Valid()
      ensures n == SumLengths(buckets[..])
      ensures n == |Contents()|
      ensures n <= capacity
    {
      CardinalityIsSumLengths(hashFunction, buckets[..], capacity);
      n := currSize;
    }

    /** HashSet.hpp:346-367: the length of chain `index`, or 0 when the index
        is outside the array. */
    method ElementsAtIndex(index: nat) returns (count: nat)
      requires Valid()
      ensures count == if index < capacity then |buckets[index]| else 0
    {
      if index >= capacity {
        return 0;
      }
      var rest := buckets[index];
      count := 0;
      while rest != []
        invariant count + |rest| == |buckets[index]|
      {
        count := count + 1;
        rest := rest[1..];
      }
    }

    /** HashSet.hpp:370-396: whether `x` is in chain `index`, false when the
        index is outside the array. */
    method IsElementAtIndex(x: T, index: nat) returns (found: bool)
      requires Valid()
      ensures found <==> index < capacity && x in buckets[index]
      ensures found ==> x in Contents() && hashFunction(x) % capacity == index
    {
      if index >= capacity {
        return false;
      }
      var chain := buckets[index];
      var k := 0;
      while k < |chain|
        invariant 0 <= k <= |chain|
        invariant x !in chain[..k]
      {
        if chain[k] == x {
          assert buckets[..][index][k] == x;
          return true;
        }
        k := k + 1;
      }
      assert chain[..k] == chain;
      return false;
    }
  }
}
