/** How many addresses the routing table can hold (dht/netdb.go:141-199). */
module Capacity {
  import opened Indices
  import opened Addresses
  import opened Recency
  import opened RoutingTable
  import opened Closest

  /** The bucket of an address, as the routing table of `self` sees it. */
  function Home(self: Address): (home: Address -> Index)
    ensures forall a :: home(a) == Bucket(self, a)
  {
    a => Bucket(self, a)
  }

  /** The most addresses bucket `i` can hold. */
  function BucketCapacity(i: nat): (n: nat)
    requires i < BUCKETS
  {
    if i <= 154 then BUCKET_SIZE else if i == 155 then 16 else if i == 156 then 8 else if i == 157 then 4 else 2
  }

  lemma {:induction false} Pigeonhole(s: seq<int>, lo: int, hi: int)
    requires lo <= hi && Distinct(s)
    requires forall x :: x in s ==> lo <= x < hi
    ensures |s| <= hi - lo
    decreases hi - lo
  {
    if s != [] {
      var x := s[0];
      assert x in s;
      assert lo <= x < hi;
      RemoveDistinct(s, hi - 1);
      RemoveMembers(s, hi - 1);
      Pigeonhole(Remove(s, hi - 1), lo, hi - 1);
    }
  }

  lemma XorInjective(a: Address, b: Address, self: Address)
    requires Value(XorOf(a, self)) == Value(XorOf(b, self))
    ensures a == b
  {
    LessIsNumeric(XorOf(a, self), XorOf(b, self));
    XorUndoes(a, self);
    XorUndoes(b, self);
  }

  lemma XorUndoes(a: Bytes, s: Bytes)
    requires |a| == |s|
    ensures XorOf(XorOf(a, s), s) == a
  {
    forall i | 0 <= i < |a| ensures ByteXor(ByteXor(a[i], s[i]), s[i]) == a[i] { BitXorUndoes(a[i], s[i]); }
  }

  lemma BitXorUndoes(a: nat, s: nat)
    ensures BitXor(BitXor(a, s), s) == a
  {
    BitXorCancels(a, 0, s);
    BitXorZero(a);
    BitXorZero(s);
    BitXorCommutes(0, s);
  }

  lemma BitXorZero(a: nat)
    ensures BitXor(a, 0) == a
  {
  }

  /** Distinct addresses whose distances lie in one interval are no more than the numbers in it. */
  lemma DistancesBound(self: Address, b: seq<Address>, lo: nat, hi: nat)
    requires Distinct(b) && lo <= hi
    requires forall a :: a in b ==> lo <= Value(XorOf(a, self)) < hi
    ensures |b| <= hi - lo
  {
    var ds := seq(|b|, i requires 0 <= i < |b| => Value(XorOf(b[i], self)));
    forall i, j | 0 <= i < j < |ds| ensures ds[i] != ds[j] {
      if ds[i] == ds[j] { XorInjective(b[i], b[j], self); }
    }
    forall x | x in ds ensures lo <= x < hi {
      var i :| 0 <= i < |ds| && ds[i] == x;
      assert b[i] in b;
    }
    Pigeonhole(ds, lo, hi);
  }

  /** No bucket exceeds its capacity: the last five are limited by the number of addresses that exist. */
  lemma BucketFits(self: Address, b: seq<Address>, k: nat)
    requires k < BUCKETS && WellFormedBucket(Home(self), b, k)
    ensures |b| <= BucketCapacity(k)
  {
    assert Pow2(0) == 1 && Pow2(1) == 2 && Pow2(2) == 4 && Pow2(3) == 8 && Pow2(4) == 16 && Pow2(5) == 32;
    if k == 159 {
      forall a | a in b ensures 0 <= Value(XorOf(a, self)) < 2 { IndexIsInterval(XorOf(a, self), 159); }
      DistancesBound(self, b, 0, 2);
    } else if k >= 155 {
      forall a | a in b ensures Pow2(159 - k) <= Value(XorOf(a, self)) < Pow2(160 - k) {
        IndexIsInterval(XorOf(a, self), k);
      }
      DistancesBound(self, b, Pow2(159 - k), Pow2(160 - k));
    }
  }

  function CapacityUpTo(n: nat): (c: nat)
    requires n <= BUCKETS
  {
    if n == 0 then 0 else CapacityUpTo(n - 1) + BucketCapacity(n - 1)
  }

  lemma {:induction false} CapacityPrefix(n: nat)
    requires n <= 155
    ensures CapacityUpTo(n) == 20 * n
  {
    if n > 0 { CapacityPrefix(n - 1); }
  }

  lemma CapacityTotal()
    ensures CapacityUpTo(BUCKETS) == 3132
  {
    CapacityPrefix(155);
    assert CapacityUpTo(156) == 3116;
    assert CapacityUpTo(157) == 3124;
    assert CapacityUpTo(158) == 3128;
  }

  lemma {:induction false} CountFits(self: Address, t: Table<Address>, n: nat)
    requires WellFormed(Home(self), t) && n <= BUCKETS
    ensures Count(t, 0, n) <= CapacityUpTo(n)
  {
    if n > 0 {
      CountFits(self, t, n - 1);
      BucketFits(self, t[n - 1], n - 1);
    }
  }

  /** A well-formed table holds at most 3132 addresses, and a full bucket has index at most 154. */
  lemma TableFits(self: Address, t: Table<Address>)
    requires WellFormed(Home(self), t)
    ensures Size(t) <= 3132
    ensures forall k :: 0 <= k < BUCKETS && |t[k]| == BUCKET_SIZE ==> k <= 154
  {
    CountFits(self, t, BUCKETS);
    CapacityTotal();
    forall k | 0 <= k < BUCKETS && |t[k]| == BUCKET_SIZE ensures k <= 154 { BucketFits(self, t[k], k); }
  }

  /** A full bucket answers FindClosest alone, and each of its addresses is strictly closer to the
      target than every address stored elsewhere. */
  lemma FullBucketBeatsTheRest(self: Address, t: Table<Address>, target: Address, near: Address, far: Address, j: Index)
    requires WellFormed(Home(self), t) && |t[Bucket(self, target)]| == BUCKET_SIZE
    requires near in ClosestTo(t, Bucket(self, target))
    requires j != Bucket(self, target) && far in t[j]
    ensures Precedes(XorOf(near, target), XorOf(far, target))
  {
    var k := Bucket(self, target);
    FullBucketAnswers(t, k);
    VisitsMembers(t[k], near);
    assert WellFormedBucket(Home(self), t[k], k) && WellFormedBucket(Home(self), t[j], j);
    OwnBucketIsCloser(self, target, near, far);
  }
}
